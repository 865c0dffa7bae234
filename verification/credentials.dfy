/** The process-wide SSH password cache. The empty text means nothing is
    cached: the user is then asked, and after a successful login the typed
    password (as typed, untrimmed) is stored. A cached password is reused as
    is and never replaced. */
module Credentials {

  datatype Resolution = Resolution(password: string, prompted: bool)

  /** The password a login uses: the cached one, or else the typed one. */
  function Resolve(cache: string, typed: string): (r: Resolution)
    ensures r.prompted <==> cache == ""
    ensures r.password == (if cache == "" then typed else cache)
  {
    if cache != "" then Resolution(cache, false) else Resolution(typed, true)
  }

  /** The cache after a successful login with `password`. */
  function Store(cache: string, password: string): (c: string)
    ensures cache != "" ==> c == cache
    ensures cache == "" ==> c == password
  {
    if cache == "" then password else cache
  }

  /** One login attempt: what the user would type if asked, and whether the
      server accepts the credentials. */
  datatype Attempt = Attempt(typed: string, accepted: bool)

  datatype History = History(cache: string, prompts: nat)

  /** A sequence of logins in one process: the final cache and how many
      times the user was asked for the password. */
  function Logins(cache: string, attempts: seq<Attempt>): History
    decreases |attempts|
  {
    if |attempts| == 0 then History(cache, 0)
    else
      var r := Resolve(cache, attempts[0].typed);
      var next := if attempts[0].accepted then Store(cache, r.password) else cache;
      var rest := Logins(next, attempts[1..]);
      History(rest.cache, rest.prompts + (if r.prompted then 1 else 0))
  }

  /** Once a password is cached, no later login asks again and the cache
      keeps that password. */
  lemma {:induction false} CachedNeverPrompts(cache: string, attempts: seq<Attempt>)
    requires cache != ""
    ensures Logins(cache, attempts) == History(cache, 0)
    decreases |attempts|
  {
    if |attempts| > 0 {
      CachedNeverPrompts(cache, attempts[1..]);
    }
  }

  /** After a first accepted login with a non-empty password, the user has
      been asked at most once in the whole process, and the cache holds that
      first password. */
  lemma {:induction false} AskedAtMostOnce(cache: string, attempts: seq<Attempt>)
    requires |attempts| > 0 && attempts[0].accepted
    requires cache != "" || attempts[0].typed != ""
    ensures Logins(cache, attempts).prompts <= 1
    ensures Logins(cache, attempts).cache == (if cache == "" then attempts[0].typed else cache)
  {
    var stored := Store(cache, Resolve(cache, attempts[0].typed).password);
    CachedNeverPrompts(stored, attempts[1..]);
  }
}

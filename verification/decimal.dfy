/** Decimal text of unsigned 32-bit integers: Rust's `u32::from_str` (optional
    leading `+`, then one or more ASCII digits, value below 2^32; anything else,
    surrounding whitespace included, is an error) and its inverse rendering. */
module Decimal {
  import opened Common

  const U32Limit: nat := 0x1_0000_0000

  predicate IsDigit(c: char) {
    '0' <= c <= '9'
  }

  predicate AllDigits(s: string) {
    forall i :: 0 <= i < |s| ==> IsDigit(s[i])
  }

  function DigitValue(c: char): (d: nat)
    requires IsDigit(c)
    ensures d < 10
  {
    c as int - '0' as int
  }

  function DigitChar(d: nat): (c: char)
    requires d < 10
    ensures IsDigit(c) && DigitValue(c) == d
  {
    ('0' as int + d) as char
  }

  /** The number a string of digits denotes, most significant digit first. */
  function Value(s: string): nat
    requires AllDigits(s)
  {
    if |s| == 0 then 0 else 10 * Value(s[..|s| - 1]) + DigitValue(s[|s| - 1])
  }

  /** `u32::from_str`, `None` standing for the parse error. */
  function ParseU32(s: string): (r: Option<nat>)
    ensures r.Some? ==> r.value < U32Limit
    ensures r.Some? ==> |s| > 0 && (IsDigit(s[0]) || s[0] == '+')
  {
    var digits := if |s| > 0 && s[0] == '+' then s[1..] else s;
    if |digits| == 0 || !AllDigits(digits) then None
    else if Value(digits) >= U32Limit then None
    else Some(Value(digits))
  }

  /** The canonical decimal rendering of `n` (no sign, no leading zeros). */
  function Show(n: nat): (s: string)
    ensures |s| >= 1 && AllDigits(s)
  {
    if n < 10 then [DigitChar(n)] else Show(n / 10) + [DigitChar(n % 10)]
  }

  /** Rendering then parsing gives the number back for every `u32`, and
      rejects every larger number. */
  lemma {:induction false} ParseShow(n: nat)
    ensures ParseU32(Show(n)) == (if n < U32Limit then Some(n) else None)
  {
    ValueShow(n);
  }

  lemma {:induction false} ValueShow(n: nat)
    ensures Value(Show(n)) == n
    decreases n
  {
    if n >= 10 {
      ValueShow(n / 10);
      var s := Show(n);
      assert s[..|s| - 1] == Show(n / 10);
    }
  }

  /** What `uname -r` prints ends with a newline, which the parser refuses;
      so do the sign of a negative number and an empty text. */
  lemma ParseRejects()
    ensures ParseU32("0\n") == None
    ensures ParseU32("") == None
    ensures ParseU32("+") == None
    ensures ParseU32("-1") == None
  {
    assert !IsDigit("0\n"[1]);
    assert !IsDigit("-1"[0]);
  }

  /** 2^32 written out is one past the largest `u32`. */
  lemma OverflowRejected()
    ensures ParseU32("4294967296") == None
  {
    var big := "4294967296";
    assert Value(big) == 4294967296 by {
      assert Value(big[..1]) == 4;
      assert big[..2][..1] == big[..1];
      assert Value(big[..2]) == 42;
      assert big[..3][..2] == big[..2];
      assert Value(big[..3]) == 429;
      assert big[..4][..3] == big[..3];
      assert Value(big[..4]) == 4294;
      assert big[..5][..4] == big[..4];
      assert Value(big[..5]) == 42949;
      assert big[..6][..5] == big[..5];
      assert Value(big[..6]) == 429496;
      assert big[..7][..6] == big[..6];
      assert Value(big[..7]) == 4294967;
      assert big[..8][..7] == big[..7];
      assert Value(big[..8]) == 42949672;
      assert big[..9][..8] == big[..8];
      assert Value(big[..9]) == 429496729;
      assert big[..10][..9] == big[..9];
      assert Value(big[..10]) == 4294967296;
      assert big[..10] == big;
    }
  }
}

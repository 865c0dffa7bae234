/** The diagnostic orchestrator (`analyze`): after the run confirmation it
    picks the local or remote backend and runs, always in this order and
    without stopping early, the version, package, kernel flag and interface
    stages, collecting every failure into the final report. The kernel flag
    stage is replaced by a fixed failure when the package stage failed and
    the ledger says the text filter is missing. The process-wide ledger and
    password cache are passed in and returned explicitly; every command's
    output and every typed answer are inputs. */
module Analyze {
  import opened Common
  import opened Text
  import opened Stage
  import opened Confirm
  import KernelVersion
  import KernelFlags
  import NetIface
  import Packages
  import Credentials

  /** The `init` section of the configuration. */
  datatype Init = Init(hostname: Option<string>, port: Option<nat>,
                       username: Option<string>, iface: Option<string>)
  datatype Config = Config(init: Option<Init>)

  datatype Backend = Local | Remote(host: string, port: nat)

  const DefaultSshPort: nat := 22

  /** Local for no hostname or a loopback name; remote for anything else. */
  function SelectBackend(hostname: Option<string>, port: Option<nat>): Backend {
    if hostname.None? || hostname.value == "localhost" || hostname.value == "127.0.0.1" then Local
    else Remote(hostname.value, if port.Some? then port.value else DefaultSshPort)
  }

  lemma SelectBackendIff(hostname: Option<string>, port: Option<nat>)
    ensures SelectBackend(hostname, port) == Local <==>
              hostname == None || hostname == Some("localhost") || hostname == Some("127.0.0.1")
    ensures SelectBackend(hostname, port).Remote? ==>
              SelectBackend(hostname, port).host == hostname.value
              && SelectBackend(hostname, port).port == (if port == None then 22 else port.value)
    ensures SelectBackend(Some(""), port).Remote?
  {
  }

  /** What the host's commands print. */
  datatype HostOutputs = HostOutputs(
    release: string,               // `uname -r`
    nodename: string,              // `uname -n`
    aptListing: string -> string,  // `apt -qq list <package>`
    pacmanOutput: string,          // the batched pacman query
    features: string,              // the kernel feature listing
    extraFeatures: string,         // the second, JIT, listing read remotely
    links: string)                 // the link listing, one name per line

  /** What the user types when asked. */
  datatype UserInput = UserInput(runAnswer: string, installAnswer: string,
                                 username: string, password: string)

  /** The remote end: whether the connection and handshake succeed, and
      which (trimmed) username and password it accepts. */
  datatype Transport = Transport(reachable: bool, acceptsLogin: (string, string) -> bool)

  /** The process-wide state the program keeps in globals. */
  datatype ProcessState = ProcessState(ledger: seq<string>, cachedPassword: string)

  datatype Report = Report(totalErrors: nat, messages: seq<StageError>)

  /** `Finished` is `Ok(true)`; `Cancelled` and `LoginRejected` are errors
      returned by the run; `Panicked` stands for an `unwrap` that aborts it. */
  datatype Verdict = Cancelled | Panicked | LoginRejected | Finished(report: Report)

  datatype Analysis = Analysis(run: Verdict, state: ProcessState)

  /** The failures among stage outcomes, in order: the reference for the report. */
  function Failures(outcomes: seq<StageOutcome>): (errors: seq<StageError>)
    ensures |errors| <= |outcomes|
  {
    if |outcomes| == 0 then []
    else (if outcomes[0].Fail? then [outcomes[0].error] else []) + Failures(outcomes[1..])
  }

  /** One `match` arm of the orchestrator: a failure bumps the counter and
      pushes its message. */
  function Record(report: Report, outcome: StageOutcome): Report {
    if outcome.Fail? then Report(report.totalErrors + 1, report.messages + [outcome.error])
    else report
  }

  function TallyFrom(report: Report, outcomes: seq<StageOutcome>): Report
    decreases |outcomes|
  {
    if |outcomes| == 0 then report else TallyFrom(Record(report, outcomes[0]), outcomes[1..])
  }

  function Tally(outcomes: seq<StageOutcome>): Report {
    TallyFrom(Report(0, []), outcomes)
  }

  lemma {:induction false} TallyFromCounts(report: Report, outcomes: seq<StageOutcome>)
    ensures TallyFrom(report, outcomes)
         == Report(report.totalErrors + |Failures(outcomes)|, report.messages + Failures(outcomes))
    decreases |outcomes|
  {
    if |outcomes| > 0 {
      var head := if outcomes[0].Fail? then [outcomes[0].error] else [];
      var rest := Failures(outcomes[1..]);
      var next := Record(report, outcomes[0]);
      assert next == Report(report.totalErrors + |head|, report.messages + head);
      TallyFromCounts(next, outcomes[1..]);
      assert Failures(outcomes) == head + rest;
      assert report.messages + head + rest == report.messages + (head + rest);
    }
  }

  /** The report lists exactly the failures, in stage order, and the error
      counter always equals the number of messages. */
  lemma TallyCounts(outcomes: seq<StageOutcome>)
    ensures Tally(outcomes).messages == Failures(outcomes)
    ensures Tally(outcomes).totalErrors == |Failures(outcomes)|
  {
    TallyFromCounts(Report(0, []), outcomes);
  }

  /** The kernel flag stage, or the fixed failure that replaces it when the
      package stage failed and the ledger holds the text filter. */
  function GateFlagStage(packageOutcome: StageOutcome, ledger: seq<string>,
                         flags: StageOutcome): StageOutcome
  {
    if packageOutcome.Fail? && Packages.FilterTool in ledger then
      Fail(MissingDependency(Packages.FilterTool))
    else flags
  }

  /** The flag stage is skipped exactly when the package stage failed with the
      text filter in the ledger, whatever the kernel's flags are. */
  lemma GateFlagStageIff(packageOutcome: StageOutcome, ledger: seq<string>, lines: seq<string>)
    ensures var o := GateFlagStage(packageOutcome, ledger, KernelFlags.CheckFlags(lines));
      (o == Fail(MissingDependency(Packages.FilterTool))) <==>
        (packageOutcome.Fail? && Packages.FilterTool in ledger)
    ensures !(packageOutcome.Fail? && Packages.FilterTool in ledger) ==>
      GateFlagStage(packageOutcome, ledger, KernelFlags.CheckFlags(lines)) == KernelFlags.CheckFlags(lines)
  {
  }

  /** `longer` keeps all of `shorter` at its front: nothing was removed. */
  predicate Extends(longer: seq<string>, shorter: seq<string>) {
    |shorter| <= |longer| && longer[..|shorter|] == shorter
  }

  /** The four outcomes in run order and the ledger they leave. */
  datatype Stages = Stages(outcomes: seq<StageOutcome>, ledger: seq<string>)

  /** The stages on one backend, given the version verdict, the audit, the
      flag listing's lines and the interface listing. `None` is the panic of
      the version check. */
  function RunStages(verdict: KernelVersion.Verdict, audit: Packages.Audit,
                     quoted: Option<string>, flagLines: seq<string>,
                     iface: string, links: string,
                     noconfirm: bool, installAnswer: string,
                     ledger: seq<string>): (s: Option<Stages>)
    ensures s.None? <==> verdict == KernelVersion.Panic
    ensures s.Some? ==> |s.value.outcomes| == 4 && Extends(s.value.ledger, ledger)
  {
    match KernelVersion.VersionOutcome(verdict)
    case None => None
    case Some(version) =>
      var packages := Packages.RunPackageStage(audit, quoted, noconfirm, installAnswer, ledger);
      Packages.PackageStageSpec(audit, quoted, noconfirm, installAnswer, ledger);
      var flags := GateFlagStage(packages.outcome, packages.ledger, KernelFlags.CheckFlags(flagLines));
      var network := NetIface.IfaceStage(iface, links);
      Some(Stages([version, packages.outcome, flags, network], packages.ledger))
  }

  /** The local backend: commands run on this machine. */
  function LocalStages(iface: string, noconfirm: bool, input: UserInput,
                       host: HostOutputs, ledger: seq<string>): (s: Option<Stages>)
    ensures s.Some? ==> |s.value.outcomes| == 4 && Extends(s.value.ledger, ledger)
  {
    RunStages(KernelVersion.Check(host.release),
              Packages.LocalAudit(host.nodename, host.release, host.aptListing, host.pacmanOutput),
              None, KernelFlags.FlagLines(host.features),
              iface, host.links, noconfirm, input.installAnswer, ledger)
  }

  /** The remote backend: the same commands over the session. */
  function RemoteStages(iface: string, noconfirm: bool, input: UserInput,
                        host: HostOutputs, ledger: seq<string>): (s: Option<Stages>)
    ensures s.Some? ==> |s.value.outcomes| == 4 && Extends(s.value.ledger, ledger)
  {
    RunStages(KernelVersion.Check(host.release),
              Packages.RemoteAudit(host.nodename, host.aptListing, host.pacmanOutput),
              Some(host.nodename), KernelFlags.RemoteFlagLines(host.features, host.extraFeatures),
              iface, host.links, noconfirm, input.installAnswer, ledger)
  }

  /** The end of a run: the interface name is read (a missing one panics)
      and the outcomes are tallied. */
  function Conclude(stages: Option<Stages>, iface: Option<string>,
                    state: ProcessState): (a: Analysis)
    ensures a.run != Cancelled && a.run != LoginRejected
    ensures a.state.cachedPassword == state.cachedPassword
    ensures a.state.ledger == (if stages.Some? then stages.value.ledger else state.ledger)
    ensures a.run.Finished? <==> stages.Some? && iface.Some?
    ensures a.run.Finished? ==> a.run.report == Tally(stages.value.outcomes)
  {
    if stages.None? then Analysis(Panicked, state)
    else if iface.None? then Analysis(Panicked, state.(ledger := stages.value.ledger))
    else Analysis(Finished(Tally(stages.value.outcomes)), state.(ledger := stages.value.ledger))
  }

  /** The name `check_net_iface` is given, once `iface` is known to be set. */
  function IfaceName(init: Init): string {
    if init.iface.Some? then init.iface.value else ""
  }

  /** A run on the local backend. */
  function LocalRun(init: Init, noconfirm: bool, input: UserInput, host: HostOutputs,
                    state: ProcessState): (a: Analysis)
    ensures a.run != Cancelled && a.run != LoginRejected
    ensures Extends(a.state.ledger, state.ledger)
    ensures a.state.cachedPassword == state.cachedPassword
    ensures a.run.Finished? ==>
      var stages := LocalStages(IfaceName(init), noconfirm, input, host, state.ledger);
      stages.Some? && a.run.report == Tally(stages.value.outcomes)
  {
    Conclude(LocalStages(IfaceName(init), noconfirm, input, host, state.ledger), init.iface, state)
  }

  /** The login: the configured or typed username and the cached or typed
      password, both trimmed. On success, the cache afterwards; `None` when
      the server rejects the credentials. */
  function Login(init: Init, input: UserInput, transport: Transport,
                 cache: string): (r: Option<string>)
    ensures cache != "" && r.Some? ==> r.value == cache
    ensures cache == "" && r.Some? ==> r.value == input.password
    ensures r.Some? <==> transport.acceptsLogin(
      Trim(if init.username.Some? then init.username.value else input.username),
      Trim(if cache != "" then cache else input.password))
  {
    var user := if init.username.Some? then init.username.value else input.username;
    var login := Credentials.Resolve(cache, input.password);
    if transport.acceptsLogin(Trim(user), Trim(login.password))
    then Some(Credentials.Store(cache, login.password))
    else None
  }

  /** The stages over an open, authenticated session. */
  function Session(init: Init, noconfirm: bool, input: UserInput, host: HostOutputs,
                   state: ProcessState): (a: Analysis)
    ensures a.run != Cancelled && a.run != LoginRejected
    ensures Extends(a.state.ledger, state.ledger)
    ensures a.state.cachedPassword == state.cachedPassword
    ensures a.run.Finished? ==>
      var stages := RemoteStages(IfaceName(init), noconfirm, input, host, state.ledger);
      stages.Some? && a.run.report == Tally(stages.value.outcomes)
  {
    Conclude(RemoteStages(IfaceName(init), noconfirm, input, host, state.ledger), init.iface, state)
  }

  /** A run on the remote backend: connect (a failure panics), log in,
      cache the password after a successful login, then run the stages over
      the session. */
  function RemoteRun(init: Init, noconfirm: bool, input: UserInput, host: HostOutputs,
                     transport: Transport, state: ProcessState): (a: Analysis)
    ensures a.run != Cancelled
    ensures Extends(a.state.ledger, state.ledger)
    ensures state.cachedPassword != "" ==> a.state.cachedPassword == state.cachedPassword
    ensures a.run == LoginRejected ==> a.state == state
    ensures a.run.Finished? ==>
      var stages := RemoteStages(IfaceName(init), noconfirm, input, host, state.ledger);
      stages.Some? && a.run.report == Tally(stages.value.outcomes)
  {
    if !transport.reachable then Analysis(Panicked, state)
    else match Login(init, input, transport, state.cachedPassword)
      case None => Analysis(LoginRejected, state)
      case Some(cached) => Session(init, noconfirm, input, host, state.(cachedPassword := cached))
  }

  /** `analyze`. */
  function Run(noconfirm: bool, config: Config, input: UserInput, host: HostOutputs,
               transport: Transport, state: ProcessState): Analysis
  {
    if !noconfirm && !Accepted(input.runAnswer) then Analysis(Cancelled, state)
    else if config.init.None? then Analysis(Panicked, state)
    else match SelectBackend(config.init.value.hostname, config.init.value.port)
      case Local => LocalRun(config.init.value, noconfirm, input, host, state)
      case Remote(_, _) => RemoteRun(config.init.value, noconfirm, input, host, transport, state)
  }

  /** The run is cancelled exactly when the confirmation was asked for and
      declined; nothing else happens then. */
  lemma CancelledIff(noconfirm: bool, config: Config, input: UserInput, host: HostOutputs,
                     transport: Transport, state: ProcessState)
    ensures Run(noconfirm, config, input, host, transport, state).run == Cancelled <==>
              !noconfirm && !Accepted(input.runAnswer)
    ensures Run(noconfirm, config, input, host, transport, state).run == Cancelled ==>
              Run(noconfirm, config, input, host, transport, state).state == state
  {
  }

  /** On the local backend the SSH side plays no part: the run is the same
      whatever the transport and whatever username and password would be
      typed. */
  lemma LocalIgnoresTransport(noconfirm: bool, config: Config, input: UserInput, host: HostOutputs,
                              transport: Transport, other: Transport,
                              username: string, password: string, state: ProcessState)
    requires config.init.Some? ==>
               SelectBackend(config.init.value.hostname, config.init.value.port) == Local
    ensures Run(noconfirm, config, input, host, transport, state)
         == Run(noconfirm, config, input.(username := username, password := password), host, other, state)
  {
  }

  /** With a password cached, the typed password is never read: the login
      succeeds or fails, and leaves the cache, the same whatever it is. */
  lemma CachedLoginIgnoresTypedPassword(init: Init, input: UserInput, typed: string,
                                        transport: Transport, cache: string)
    requires cache != ""
    ensures Login(init, input, transport, cache) == Login(init, input.(password := typed), transport, cache)
  {
  }

  /** The ledger only grows, the cached password is never replaced once
      set, and a finished run's error counter equals its number of messages,
      which are the failures of the chosen backend's four stages in order. */
  lemma RunInvariants(noconfirm: bool, config: Config, input: UserInput, host: HostOutputs,
                      transport: Transport, state: ProcessState)
    ensures var a := Run(noconfirm, config, input, host, transport, state);
      && Extends(a.state.ledger, state.ledger)
      && (state.cachedPassword != "" ==> a.state.cachedPassword == state.cachedPassword)
    ensures var a := Run(noconfirm, config, input, host, transport, state);
      a.run.Finished? ==>
        && a.run.report.totalErrors == |a.run.report.messages|
        && config.init.Some?
        && var init := config.init.value;
           var stages := if SelectBackend(init.hostname, init.port) == Local
                         then LocalStages(IfaceName(init), noconfirm, input, host, state.ledger)
                         else RemoteStages(IfaceName(init), noconfirm, input, host, state.ledger);
           stages.Some? && a.run.report.messages == Failures(stages.value.outcomes)
  {
    if (noconfirm || Accepted(input.runAnswer)) && config.init.Some? {
      var init := config.init.value;
      var ledger := state.ledger;
      if SelectBackend(init.hostname, init.port) == Local {
        var a := LocalRun(init, noconfirm, input, host, state);
        assert Run(noconfirm, config, input, host, transport, state) == a;
        if a.run.Finished? {
          var stages := LocalStages(IfaceName(init), noconfirm, input, host, ledger);
          TallyCounts(stages.value.outcomes);
        }
      } else {
        var a := RemoteRun(init, noconfirm, input, host, transport, state);
        assert Run(noconfirm, config, input, host, transport, state) == a;
        if a.run.Finished? {
          var stages := RemoteStages(IfaceName(init), noconfirm, input, host, ledger);
          TallyCounts(stages.value.outcomes);
        }
      }
    }
  }

  /** A run reaches its report exactly when it was confirmed (or not asked),
      the configuration has an `init` section naming an interface, the
      release parses far enough for the version loop, and, remotely, the
      host is reachable and accepts the login. */
  lemma FinishedIff(noconfirm: bool, config: Config, input: UserInput, host: HostOutputs,
                    transport: Transport, state: ProcessState)
    ensures Run(noconfirm, config, input, host, transport, state).run.Finished? <==>
      && (noconfirm || Accepted(input.runAnswer))
      && config.init.Some? && config.init.value.iface.Some?
      && KernelVersion.Check(host.release) != KernelVersion.Panic
      && (SelectBackend(config.init.value.hostname, config.init.value.port).Remote? ==>
            transport.reachable && Login(config.init.value, input, transport, state.cachedPassword).Some?)
  {
    if (noconfirm || Accepted(input.runAnswer)) && config.init.Some? {
      var init := config.init.value;
      if SelectBackend(init.hostname, init.port) == Local {
        assert Run(noconfirm, config, input, host, transport, state)
            == LocalRun(init, noconfirm, input, host, state);
      } else {
        assert Run(noconfirm, config, input, host, transport, state)
            == RemoteRun(init, noconfirm, input, host, transport, state);
        if transport.reachable && Login(init, input, transport, state.cachedPassword).Some? {
          var cached := Login(init, input, transport, state.cachedPassword).value;
          assert RemoteRun(init, noconfirm, input, host, transport, state)
              == Session(init, noconfirm, input, host, state.(cachedPassword := cached));
        }
      }
    }
  }

  /** A release the version loop cannot parse stops the run before any
      stage is reported, on either backend, and leaves the ledger alone;
      locally the state is untouched. As written this includes the raw
      `uname -r` output of a 5.17.x release without a `-` suffix
      (`KernelVersion.UntrimmedReleasePanics`). */
  lemma UnparsableReleaseAborts(noconfirm: bool, config: Config, input: UserInput, host: HostOutputs,
                                transport: Transport, state: ProcessState)
    requires (noconfirm || Accepted(input.runAnswer)) && config.init.Some?
    requires KernelVersion.Check(host.release) == KernelVersion.Panic
    ensures var a := Run(noconfirm, config, input, host, transport, state);
      && (a.run == Panicked || a.run == LoginRejected)
      && a.state.ledger == state.ledger
      && (SelectBackend(config.init.value.hostname, config.init.value.port) == Local ==> a == Analysis(Panicked, state))
  {
    var init := config.init.value;
    if SelectBackend(init.hostname, init.port) == Local {
      assert Run(noconfirm, config, input, host, transport, state)
          == LocalRun(init, noconfirm, input, host, state);
    } else {
      assert Run(noconfirm, config, input, host, transport, state)
          == RemoteRun(init, noconfirm, input, host, transport, state);
      if transport.reachable && Login(init, input, transport, state.cachedPassword).Some? {
        var cached := Login(init, input, transport, state.cachedPassword).value;
        assert RemoteRun(init, noconfirm, input, host, transport, state)
            == Session(init, noconfirm, input, host, state.(cachedPassword := cached));
      }
    }
  }

  /** The stages on the output "5.17.0\n": with the release checked as
      written none run, while the trimmed check lets all four run and the
      version stage pass. (The output is a parameter pinned by `requires`
      because a literal in the ensures makes the solver unfold the check on
      it far more eagerly.) */
  lemma NewlineReleaseStages(unameOutput: string, audit: Packages.Audit, quoted: Option<string>,
                             flagLines: seq<string>, iface: string, links: string,
                             noconfirm: bool, answer: string, ledger: seq<string>)
    requires unameOutput == "5.17.0\n"
    ensures RunStages(KernelVersion.Check(unameOutput), audit, quoted, flagLines, iface, links,
                      noconfirm, answer, ledger) == None
    ensures var s := RunStages(KernelVersion.CheckRelease(unameOutput), audit, quoted, flagLines,
                               iface, links, noconfirm, answer, ledger);
      s.Some? && s.value.outcomes[0] == Pass
  {
    KernelVersion.UntrimmedReleasePanics();
    KernelVersion.TrimmedReleasePasses();
  }

  /** The report lists only the failures: passes leave no trace. */
  lemma FailuresOfShapes(a: StageOutcome, b: StageOutcome, c: StageOutcome, d: StageOutcome)
    ensures a == Pass && b == Pass && c == Pass ==>
              Failures([a, b, c, d]) == (if d.Fail? then [d.error] else [])
    ensures b.Fail? && c.Fail? ==>
              Failures([a, b, c, d]) == (if a.Fail? then [a.error] else []) + [b.error, c.error]
                                        + (if d.Fail? then [d.error] else [])
  {
    var s := [a, b, c, d];
    var last := if d.Fail? then [d.error] else [];
    assert Failures([d]) == last by { assert [d][1..] == []; }
    assert Failures([c, d]) == (if c.Fail? then [c.error] else []) + last by {
      assert [c, d][1..] == [d];
    }
    assert Failures([b, c, d]) == (if b.Fail? then [b.error] else []) + Failures([c, d]) by {
      assert [b, c, d][1..] == [c, d];
    }
    assert Failures(s) == (if a.Fail? then [a.error] else []) + Failures([b, c, d]) by {
      assert s[1..] == [b, c, d];
    }
  }

  /** The stages on a host with a compatible kernel, nothing missing and
      every flag enabled: only the interface stage can fail, and the ledger
      is left alone. */
  lemma HealthyStages(audit: Packages.Audit, quoted: Option<string>, flagLines: seq<string>,
                      iface: string, links: string, noconfirm: bool, answer: string,
                      ledger: seq<string>)
    requires audit.Audited? && audit.missing == []
    requires forall i :: 0 <= i < |flagLines| ==> KernelFlags.Enabled(flagLines[i])
    ensures RunStages(KernelVersion.Compatible, audit, quoted, flagLines, iface, links,
                      noconfirm, answer, ledger)
         == Some(Stages([Pass, Pass, Pass, NetIface.IfaceStage(iface, links)], ledger))
  {
    KernelFlags.AllEnabledPasses(flagLines);
  }

  /** The stages, on either backend, when the user declines to install a
      missing list that holds the text filter: whatever the (parsable) release,
      the package stage fails with that list, the flag stage is replaced by
      the missing-dependency failure whatever the flags, and the ledger grows
      by the list. */
  lemma DeclinedStages(verdict: KernelVersion.Verdict, audit: Packages.Audit,
                       quoted: Option<string>, flagLines: seq<string>,
                       iface: string, links: string, answer: string, ledger: seq<string>)
    requires verdict != KernelVersion.Panic
    requires audit.Audited? && Packages.FilterTool in audit.missing && !Accepted(answer)
    ensures RunStages(verdict, audit, quoted, flagLines, iface, links, false, answer, ledger)
         == Some(Stages([KernelVersion.VersionOutcome(verdict).value,
                         Fail(MissingPackages(audit.missing)),
                         Fail(MissingDependency(Packages.FilterTool)),
                         NetIface.IfaceStage(iface, links)], ledger + audit.missing))
  {
    var packages := Packages.RunPackageStage(audit, quoted, false, answer, ledger);
    assert packages == Packages.PackageStage(Fail(MissingPackages(audit.missing)), ledger + audit.missing) by {
      Packages.PackageStageSpec(audit, quoted, false, answer, ledger);
    }
    assert Packages.FilterTool in ledger + audit.missing;
    assert GateFlagStage(packages.outcome, packages.ledger, KernelFlags.CheckFlags(flagLines))
        == Fail(MissingDependency(Packages.FilterTool));
  }

  /** Every stage runs and reports on its own, whatever the earlier ones
      did: the version verdict decides the first outcome and nothing else;
      the package and flag outcomes are those stages' own results; the
      interface outcome depends on nothing the earlier stages saw. */
  lemma StagesIndependent(v: KernelVersion.Verdict, w: KernelVersion.Verdict,
                          audit: Packages.Audit, otherAudit: Packages.Audit,
                          quoted: Option<string>, otherQuoted: Option<string>,
                          flagLines: seq<string>, otherLines: seq<string>,
                          iface: string, links: string,
                          noconfirm: bool, otherNoconfirm: bool,
                          answer: string, otherAnswer: string,
                          ledger: seq<string>, otherLedger: seq<string>)
    requires v != KernelVersion.Panic && w != KernelVersion.Panic
    ensures var s := RunStages(v, audit, quoted, flagLines, iface, links, noconfirm, answer, ledger);
      var t := RunStages(w, audit, quoted, flagLines, iface, links, noconfirm, answer, ledger);
      && s.Some? && t.Some?
      && (s.value.outcomes[0] == Pass <==> v == KernelVersion.Compatible)
      && (v == KernelVersion.Incompatible ==>
            s.value.outcomes[0] == Fail(IncompatibleKernel(KernelVersion.MinKernelVersion)))
      && s.value.outcomes[1..] == t.value.outcomes[1..]
      && s.value.ledger == t.value.ledger
    ensures var s := RunStages(v, audit, quoted, flagLines, iface, links, noconfirm, answer, ledger);
      var packages := Packages.RunPackageStage(audit, quoted, noconfirm, answer, ledger);
      && s.value.outcomes[1] == packages.outcome
      && s.value.outcomes[2] == GateFlagStage(packages.outcome, packages.ledger, KernelFlags.CheckFlags(flagLines))
      && s.value.ledger == packages.ledger
    ensures var s := RunStages(v, audit, quoted, flagLines, iface, links, noconfirm, answer, ledger);
      var u := RunStages(w, otherAudit, otherQuoted, otherLines, iface, links,
                         otherNoconfirm, otherAnswer, otherLedger);
      s.value.outcomes[3] == u.value.outcomes[3] == NetIface.IfaceStage(iface, links)
  {
  }

  /** A local host with a compatible kernel, nothing missing and every
      kernel flag enabled reports nothing but, possibly, the absent interface;
      the process state is left as it was. */
  lemma HealthyLocalHost(noconfirm: bool, init: Init, input: UserInput, host: HostOutputs,
                         transport: Transport, state: ProcessState)
    requires SelectBackend(init.hostname, init.port) == Local && init.iface.Some?
    requires noconfirm || Accepted(input.runAnswer)
    requires KernelVersion.Check(host.release) == KernelVersion.Compatible
    requires Packages.LocalAudit(host.nodename, host.release, host.aptListing, host.pacmanOutput).Audited?
    requires Packages.LocalAudit(host.nodename, host.release, host.aptListing, host.pacmanOutput).missing == []
    requires forall i :: 0 <= i < |KernelFlags.FlagLines(host.features)| ==>
               KernelFlags.Enabled(KernelFlags.FlagLines(host.features)[i])
    ensures var a := Run(noconfirm, Config(Some(init)), input, host, transport, state);
      && a.state == state
      && a.run == Finished(
           if NetIface.IfaceStage(init.iface.value, host.links) == Pass then Report(0, [])
           else Report(1, [InterfaceNotFound(init.iface.value)]))
  {
    var iface := init.iface.value;
    var network := NetIface.IfaceStage(iface, host.links);
    var outcomes := [Pass, Pass, Pass, network];
    assert LocalStages(iface, noconfirm, input, host, state.ledger) == Some(Stages(outcomes, state.ledger)) by {
      HealthyStages(Packages.LocalAudit(host.nodename, host.release, host.aptListing, host.pacmanOutput),
                    None, KernelFlags.FlagLines(host.features), iface, host.links,
                    noconfirm, input.installAnswer, state.ledger);
    }
    assert Run(noconfirm, Config(Some(init)), input, host, transport, state)
        == Analysis(Finished(Tally(outcomes)), state);
    TallyCounts(outcomes);
    FailuresOfShapes(Pass, Pass, Pass, network);
  }

  /** On a local host whose release parses, declining the install while the
      text filter is among the missing packages fails the package stage and
      replaces the kernel flag stage by the missing-dependency failure,
      whatever the flags and whether or not the kernel is old enough; the
      missing names are appended to the ledger. */
  lemma DeclinedFilterSkipsFlags(init: Init, input: UserInput, host: HostOutputs,
                                 transport: Transport, state: ProcessState)
    requires SelectBackend(init.hostname, init.port) == Local && init.iface.Some?
    requires Accepted(input.runAnswer) && !Accepted(input.installAnswer)
    requires KernelVersion.Check(host.release) != KernelVersion.Panic
    requires Packages.LocalAudit(host.nodename, host.release, host.aptListing, host.pacmanOutput).Audited?
    requires Packages.FilterTool in
               Packages.LocalAudit(host.nodename, host.release, host.aptListing, host.pacmanOutput).missing
    ensures var a := Run(false, Config(Some(init)), input, host, transport, state);
      var missing := Packages.LocalAudit(host.nodename, host.release, host.aptListing, host.pacmanOutput).missing;
      var k := if KernelVersion.Check(host.release) == KernelVersion.Compatible then 0 else 1;
      && a.state == state.(ledger := state.ledger + missing)
      && a.run.Finished?
      && |a.run.report.messages| >= k + 2
      && a.run.report.messages[k..k + 2] == [MissingPackages(missing), MissingDependency(Packages.FilterTool)]
      && (k == 1 ==> a.run.report.messages[0] == IncompatibleKernel(KernelVersion.MinKernelVersion))
  {
    var iface := init.iface.value;
    var verdict := KernelVersion.Check(host.release);
    var version := KernelVersion.VersionOutcome(verdict).value;
    var audit := Packages.LocalAudit(host.nodename, host.release, host.aptListing, host.pacmanOutput);
    var missing := audit.missing;
    var network := NetIface.IfaceStage(iface, host.links);
    var package := Fail(MissingPackages(missing));
    var gated := Fail(MissingDependency(Packages.FilterTool));
    var outcomes := [version, package, gated, network];
    assert LocalStages(iface, false, input, host, state.ledger)
        == Some(Stages(outcomes, state.ledger + missing)) by {
      DeclinedStages(verdict, audit, None, KernelFlags.FlagLines(host.features), iface, host.links,
                     input.installAnswer, state.ledger);
    }
    assert Run(false, Config(Some(init)), input, host, transport, state)
        == Analysis(Finished(Tally(outcomes)), state.(ledger := state.ledger + missing));
    TallyCounts(outcomes);
    FailuresOfShapes(version, package, gated, network);
  }
}

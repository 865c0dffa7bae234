# hpx `analyze`: a verified model of the environment-readiness prober

`hpx analyze` checks whether a host can build and run eBPF programs. It asks
for confirmation, picks the local machine or an SSH host, and then runs four
stages in a fixed order, never stopping early:

1. the kernel version must be at least 5.17.0;
2. the required packages of the host's distribution must be installed, or
   the user must agree to install them;
3. the kernel flags listed by `bpftool feature` must be enabled;
4. the configured network interface must exist.

Every failure is counted and collected into a final error list. A process-wide
ledger remembers the packages the user declined to install. When the package
stage fails and that ledger names `ripgrep`, the flag stage is replaced by a
fixed "cannot check kernel flags" failure. The SSH password is cached for the
whole process after the first successful login.

The model keeps the decisions and drops the I/O. Every command output, every
typed answer and the SSH server's verdict on a login are inputs. The global
ledger and password cache are explicit state, passed in and returned.

Modules:

- `Common`: `Option`, an order-preserving `Filter` and subsequences.
- `Text`: Rust's `str::trim`, `split` on one character, `contains` and ASCII
  `to_lowercase`, with their laws.
- `Decimal`: `u32::from_str` and decimal rendering.
- `KernelVersion`: `check_kernel_version`.
- `KernelFlags`: `check_bpf_enabled` and the listings it reads.
- `NetIface`: `check_net_iface` and the link listing.
- `Confirm`: the `[Y/n]` answers.
- `Packages`: the package audit, remediation and ledger, for both backends.
- `Credentials`: the SSH password cache.
- `Stage`: the outcomes and error messages of the stages.
- `Analyze`: backend selection, stage order, the flag-stage gate and the
  error tally of `analyze`.

A run ends in one of four verdicts:

- `Cancelled`: the confirmation was declined.
- `LoginRejected`: the SSH login failed.
- `Panicked`: an `unwrap` aborted the run. This covers a missing `init`
  section or interface name, an unreachable host, and a release that the
  version loop cannot parse.
- `Finished(report)`: the `Ok(true)` result, with its error count and
  messages.

Only the local backend renames the kernel-tools entry `linux-tools-generic`
of the apt list after the running kernel (src/analyze.rs:357-361); the remote
loop at src/analyze.rs:510 queries it as written.

Both backends hand the version check the raw `uname -r` output
(src/analyze.rs:68 and 345), and so does the model's `Run`: every lemma about
`Run` describes the program as written, including its panic on a release
that still carries the newline (see "## Findings"). The corrected, trimming
stage `KernelVersion.CheckRelease` can be given to `Analyze.RunStages`, which
takes the version verdict as a parameter.

## Model

| member | source | states |
|---|---|---|
| Decimal.ParseShow | src/analyze.rs:281-282 | A `u32` parse of the canonical decimal text of any number gives that number back when it is below 2^32, and is an error otherwise |
| Decimal.ParseRejects | src/analyze.rs:281 | The parse refuses a number followed by a newline, the empty text, a lone `+` and a negative number |
| Decimal.OverflowRejected | src/analyze.rs:281 | The parse refuses 4294967296, one past the largest `u32` |
| KernelVersion.MinKernelVersionParts | src/analyze.rs:278 | The minimum version text splits into exactly "5", "17" and "0", and these parse to 5, 17 and 0 |
| KernelVersion.CompareAgainstMinimum | src/analyze.rs:274-312 | The loop as written, against the split minimum text, gives the same verdict as the comparison against the numbers 5, 17, 0 |
| KernelVersion.CheckIsLexGe | src/analyze.rs:280-325 | When the first three components parse, the release is compatible exactly when (major, minor, patch) >= (5, 17, 0) lexicographically, and incompatible exactly otherwise |
| KernelVersion.SuffixIgnored | src/analyze.rs:275 | Whatever follows the first `-` never changes the verdict |
| KernelVersion.CheckCanonical | src/analyze.rs:274-331 | Every release `a.b.c` or `a.b.c-suffix` with `u32` components is compatible exactly when (a, b, c) >= (5, 17, 0), and the suffix has no effect |
| KernelVersion.CheckSuffixedMinimum | src/analyze.rs:275-331 | "5.17.0-generic" is compatible |
| KernelVersion.CheckMinimum | src/analyze.rs:280-331 | The minimum "5.17.0" itself is compatible |
| KernelVersion.CheckBelowMinimum | src/analyze.rs:293-324 | "5.16.9" is incompatible |
| KernelVersion.CheckNewerMajor | src/analyze.rs:284-287 | "6.0.0" is compatible |
| KernelVersion.CheckLazyMajor | src/analyze.rs:280-287 | "6.x" is compatible, because a greater major version ends the loop before the malformed minor is read |
| KernelVersion.CheckMissingPatch | src/analyze.rs:281 | "5.17" panics on the missing third component |
| KernelVersion.PatchParseFailurePanics | src/analyze.rs:281-307 | With major 5 and minor 17, a patch component that is not a `u32` panics |
| KernelVersion.UntrimmedReleasePanics | src/analyze.rs:68 | The raw `uname -r` output "5.17.0\n" panics the version loop |
| KernelVersion.CheckRelease | src/analyze.rs:60-68 | The version stage on `uname -r` output agrees with the check as written whenever the output has no whitespace at its ends |
| KernelVersion.CheckReleaseIgnoresPadding | src/analyze.rs:60-68 | The version stage on trimmed output gives the same verdict whatever whitespace surrounds the release |
| KernelVersion.TrimmedReleasePasses | src/analyze.rs:66-68 | The output "5.17.0\n" passes once trimmed |
| KernelFlags.MissingFlags | src/analyze.rs:636-642 | A line is reported exactly when, trimmed, it lacks "is set to y"; the reported lines are a subsequence of the listing, in its order |
| KernelFlags.CollectMissingFlags | src/analyze.rs:636-642 | The loop that pushes each line lacking the marker computes the in-order filter of the missing lines |
| KernelFlags.CheckFlagsFailsIff | src/analyze.rs:644-649 | The flag check fails exactly when some line lacks the marker, and then reports exactly the missing lines in order |
| KernelFlags.FlagLines | src/analyze.rs:101 | The listing's lines, joined back with newlines, are the trimmed listing, and there is at least one |
| KernelFlags.RemoteFlagLinesJoin | src/analyze.rs:669-686 | The remote stage reads both listings into one buffer: its lines, joined back, are the trimmed concatenation of the two |
| KernelFlags.EmptyListingFails | src/analyze.rs:101 | An empty listing splits into one empty line, and the check fails on it |
| KernelFlags.AllEnabledPasses | src/analyze.rs:638-657 | A listing whose every line carries the marker passes |
| NetIface.InterfaceNames | src/analyze.rs:727 | The untrimmed split of the link listing joins back to the listing |
| NetIface.IfaceStageIff | src/analyze.rs:692-708 | On a newline-terminated listing of names, the stage passes exactly for a listed name or for the empty name, and otherwise reports that name as not found |
| NetIface.PrefixDoesNotMatch | src/analyze.rs:693 | "eth0" is not found in a listing of "eth01", and is found in "eth0\nlo\n" |
| Text.TrimSlice | src/analyze.rs:46 | What trim leaves is a contiguous slice of its input, with only whitespace cut off before and after it |
| Text.TrimPadded | src/analyze.rs:46 | Trim removes exactly the surrounding whitespace: a text without whitespace at its ends comes back unchanged from any padding |
| Text.JoinSplit | src/analyze.rs:101 | Joining the pieces of a split gives back the original text |
| Text.Contains | src/analyze.rs:639 | Substring search holds exactly when the pattern occurs at some position |
| Confirm.AcceptedIff | src/analyze.rs:46-48 | An answer is accepted exactly when, after trimming, it is empty or spells "y" or "yes" in any mixture of cases |
| Confirm.BlankAccepted | src/analyze.rs:48 | An answer of whitespace only is accepted |
| Confirm.PaddedAnswers | src/analyze.rs:46-48 | Padded "YES" is accepted; padded "no" and "yeah" are declined |
| Packages.PlaceholderPosition | src/analyze.rs:16-22 | The kernel-tools placeholder is the second entry of the apt list, and no other entry equals it |
| Packages.LocalAptEntries | src/analyze.rs:355-361 | The local apt list renames the placeholder to the trimmed prefix-plus-release and keeps every other entry |
| Packages.LocalAptRenaming | src/analyze.rs:357-361 | For release output with trailing whitespace, the renamed entry is "linux-tools-" followed by the bare release |
| Packages.AptMissing | src/analyze.rs:374-375 | A package is missing exactly when its listing lacks "[installed]"; the missing list keeps the order of the required list |
| Packages.PacmanMissing | src/analyze.rs:401-403 | A package is missing exactly when its name does not occur in the query output; the missing list keeps the order of the required list |
| Packages.PacmanSubstringMatches | src/analyze.rs:401-403 | Because the test is a substring test, "bpf" counts as installed whenever "libbpf" occurs, and "base" whenever "base-devel" does |
| Packages.AuditMissingIff | src/analyze.rs:508-552 | On both backends the audit is unsupported exactly for other nodenames, and otherwise reports exactly the packages whose query lacks the marker, in list order |
| Packages.AuditReadsOwnFamily | src/analyze.rs:353-413 | The nodename decides which query is read: an apt host's audit does not depend on the pacman output, a pacman host's does not depend on the apt listings or the release, locally and remotely |
| Packages.PackageStageSpec | src/analyze.rs:416-449 | The stage fails exactly on an unsupported OS or a declined install; a decline appends exactly the missing list to the ledger; otherwise the ledger is unchanged |
| Packages.NoconfirmNeverDeclines | src/analyze.rs:417 | With `noconfirm` the answer is never consulted, and the stage fails only on an unsupported OS |
| Credentials.CachedNeverPrompts | src/analyze.rs:168-185 | Once a password is cached, no later login in the process asks again, and the cache keeps it |
| Credentials.AskedAtMostOnce | src/analyze.rs:168-185 | After a first successful login, the user has been asked at most once in the whole process, and the cache holds that first password; this needs a non-empty cache or a non-empty first password, because an empty cached password counts as nothing cached and the user is asked again (lines 170 and 181) |
| Analyze.TallyFromCounts | src/analyze.rs:68-74 | Folding stage outcomes into the report adds one to the counter and appends one message per failure |
| Analyze.TallyCounts | src/analyze.rs:29-30 | The final report lists exactly the failures in stage order, and its counter equals the number of messages |
| Analyze.GateFlagStageIff | src/analyze.rs:79-119 | The flag stage becomes the missing-dependency failure exactly when the package stage failed and the ledger holds "ripgrep"; otherwise it is the flag check itself |
| Analyze.RunStages | src/analyze.rs:60-138 | The version panic is the only way to get no stage outcomes; otherwise there are four outcomes and the ledger only grows |
| Analyze.StagesIndependent | src/analyze.rs:60-138 | Every stage runs and reports whatever the earlier ones did: the version verdict decides only the first outcome (a pass exactly when compatible), the package and flag outcomes are those stages' own results, and the interface outcome depends only on the interface name and the link listing |
| Analyze.DeclinedStages | src/analyze.rs:79-119 | On either backend and for any release that parses, declining an install whose missing list holds "ripgrep" fails the package stage with that list, replaces the flag stage by the missing-dependency failure whatever the flags, and appends the list to the ledger |
| Analyze.LocalRun | src/analyze.rs:60-138 | A local run never cancels or rejects a login, keeps the password cache, only grows the ledger, and reports the tally of the local stages, whose version stage checks the raw `uname -r` output |
| Analyze.RemoteRun | src/analyze.rs:139-247 | A remote run only grows the ledger, never replaces a cached password, leaves the state alone on a rejected login, and reports the tally of the remote stages, whose version stage checks the raw `uname -r` output |
| Analyze.LocalIgnoresTransport | src/analyze.rs:55-138 | On the local backend the run does not depend on the SSH transport or on any typed username or password |
| Analyze.CachedLoginIgnoresTypedPassword | src/analyze.rs:167-185 | With a password cached, the login and the cache it leaves do not depend on what the user would type |
| Analyze.UnparsableReleaseAborts | src/analyze.rs:68 | A release the version loop cannot parse ends a confirmed run without a report and without touching the ledger; locally the state is left as it was |
| Analyze.NewlineReleaseStages | src/analyze.rs:66-68 | On the output "5.17.0\n" no stage runs when the release is checked as written, while the trimmed check lets the stages run with the version stage passing |
| Analyze.CancelledIff | src/analyze.rs:33-51 | The run is cancelled exactly when the confirmation was asked for and declined; the state is then untouched |
| Analyze.RunInvariants | src/analyze.rs:28-272 | Every run only grows the ledger and keeps a cached password; a finished run's counter equals its number of messages, which are exactly the failures, in order, of the chosen backend's four stages |
| Analyze.FinishedIff | src/analyze.rs:28-272 | The run returns its report exactly when confirmed, configured with an interface, and the raw `uname -r` output parses far enough for the version loop; remotely the host must also be reachable and accept the login |
| Analyze.HealthyLocalHost | src/analyze.rs:60-138 | On a local host whose raw `uname -r` output is compatible, no missing packages and all flags enabled, the report is empty or holds only the interface failure, and the state is unchanged |
| Analyze.DeclinedFilterSkipsFlags | src/analyze.rs:60-138 | On a local host whose release parses, declining an install that includes "ripgrep" finishes the run, reporting the missing packages and then the missing-dependency failure whatever the flags are (after the old-kernel failure when the kernel is too old), and appends the missing list to the ledger |

## Left out

- Process and SSH I/O is not modelled. This covers `Command`, `tokio::process`, `TcpStream`, the handshake, channels, `read_line` and `flush`. Outputs and answers are inputs.
  - A failed connection or handshake is the `Panicked` verdict, as its `unwrap` is.
  - A rejected login is `LoginRejected`.
  - I/O and UTF-8 errors that `?` would return are not modelled.
- The local apt audit runs one task per package. The model uses the order of the required list; the source pushes in task completion order.
- The renaming of the kernel-tools entry runs `uname -r` again, before its apt task is spawned. The model uses the one release text for both reads.
- A local apt task can fail on invalid UTF-8 (`expect`), which ends the stage with an error. This is not modelled.
- The install commands are side effects whose result is never checked.
  - The model treats a confirmed install as a passing stage.
  - The local apt install command is built but never executed. This makes no difference to the stage outcome.
- The remote pacman command passes the package names to `grep` as file operands. The command text is not modelled; its output is an input.
- The remote pacman output is read into the buffer that still holds the `uname -n` output. The model searches both, as the source does.
- `to_lowercase` is modelled for ASCII letters only.
- Error messages are constructors carrying their data, not formatted text.
- Console output, colouring and the printed configuration are not modelled.
- The sudo password echoed into remote commands is not modelled.
- `src/snippets.rs` and `src/get.rs` are not part of this model. They hold template strings and configuration printing.
- KernelVersion.CompareFrom: the comparison uses the minimum's numbers rather than parsing its text again at each step. `KernelVersion.CompareAgainstMinimum` proves the two agree for every release.

## Findings

| source | as written | input that shows it | evidently intended | confidence | as-written member | corrected member |
|---|---|---|---|---|---|---|
| src/analyze.rs:68 | `check_kernel_version` receives the raw `uname -r` output, trailing newline included. The remote stage does the same at line 345. The loop's `parse().unwrap()` on the last component then sees "0\n" and panics. | release output "5.17.0\n", or any release 5.17.p with exactly three components and no `-` suffix | the release is trimmed before the check, as the printed line at line 66 already is; "5.17.0\n" is then compatible | not executed | KernelVersion.UntrimmedReleasePanics | KernelVersion.CheckRelease |

`Analyze.Run` keeps the behaviour as written, so `Analyze.UnparsableReleaseAborts`
holds of it on such output. `Analyze.NewlineReleaseStages` shows both halves
at the level of the stages: no stage runs on "5.17.0\n" as written, and the
trimmed check lets them run.

/** The kernel flag checker: every line of the kernel feature listing that,
    once trimmed, does not say the flag "is set to y" is a missing flag; the
    stage fails, listing those lines as they were, when there is any. */
module KernelFlags {
  import opened Common
  import opened Text
  import opened Stage

  const EnabledMarker: string := "is set to y"

  predicate Enabled(line: string) {
    Contains(Trim(line), EnabledMarker)
  }

  predicate Missing(line: string) {
    !Enabled(line)
  }

  /** The reference definition: the lines that are not enabled, in order. */
  function MissingFlags(lines: seq<string>): (missing: seq<string>)
    ensures forall x :: x in missing ==> x in lines && !Enabled(x)
    ensures forall i :: 0 <= i < |lines| && !Enabled(lines[i]) ==> lines[i] in missing
    ensures IsSubsequence(missing, lines)
  {
    FilterIsSubsequence(lines, Missing);
    Filter(lines, Missing)
  }

  /** The loop of `check_bpf_enabled`: push every line lacking the marker. */
  method CollectMissingFlags(lines: seq<string>) returns (missing: seq<string>)
    ensures missing == MissingFlags(lines)
  {
    missing := [];
    var i := 0;
    while i < |lines|
      invariant 0 <= i <= |lines|
      invariant missing == MissingFlags(lines[..i])
    {
      var line := lines[i];
      assert lines[..i + 1] == lines[..i] + [line];
      FilterAppend(lines[..i], [line], Missing);
      if !Contains(Trim(line), EnabledMarker) {
        assert Missing(line);
        missing := missing + [line];
      }
      i := i + 1;
    }
    assert lines[..i] == lines;
  }

  /** `check_bpf_enabled` on the listing's lines. */
  function CheckFlags(lines: seq<string>): StageOutcome {
    var missing := MissingFlags(lines);
    if |missing| > 0 then Fail(MissingKernelFlags(missing)) else Pass
  }

  /** The check fails exactly when some line, trimmed, lacks the marker, and
      then reports exactly the missing lines. */
  lemma CheckFlagsFailsIff(lines: seq<string>)
    ensures CheckFlags(lines).Fail? <==> exists i :: 0 <= i < |lines| && !Enabled(lines[i])
    ensures CheckFlags(lines).Fail? ==> CheckFlags(lines).error == MissingKernelFlags(MissingFlags(lines))
  {
    FilterEmptyIff(lines, Missing);
  }

  /** The listing is trimmed as a whole and split at newlines. */
  function FlagLines(output: string): (lines: seq<string>)
    ensures |lines| >= 1
    ensures Join(lines, '\n') == Trim(output)
  {
    JoinSplit(Trim(output), '\n');
    Split(Trim(output), '\n')
  }

  /** An empty listing still splits into one empty line, which lacks the
      marker: the stage fails on it. */
  lemma EmptyListingFails()
    ensures FlagLines("") == [""]
    ensures CheckFlags(FlagLines("")) == Fail(MissingKernelFlags([""]))
  {
    assert Trim("") == "";
    assert !Contains("", EnabledMarker);
    assert Missing("");
    var lines: seq<string> := [""];
    assert lines[1..] == [];
    assert Filter(lines, Missing) == [""] + Filter(lines[1..], Missing);
    assert MissingFlags(lines) == [""];
    assert FlagLines("") == lines;
  }

  /** Listings whose every line carries the marker pass. */
  lemma AllEnabledPasses(lines: seq<string>)
    requires forall i :: 0 <= i < |lines| ==> Enabled(lines[i])
    ensures CheckFlags(lines) == Pass
  {
    FilterEmptyIff(lines, Missing);
  }

  /** The remote stage reads two listings into one buffer, one after the
      other, before trimming and splitting. */
  function RemoteFlagLines(first: string, second: string): seq<string>
  {
    FlagLines(first + second)
  }

  /** The two listings are read as one text: its lines, joined back with
      newlines, are the trimmed concatenation, so the second listing's lines
      follow the first's and a flag missing from either is checked. */
  lemma RemoteFlagLinesJoin(first: string, second: string)
    ensures |RemoteFlagLines(first, second)| >= 1
    ensures Join(RemoteFlagLines(first, second), '\n') == Trim(first + second)
  {
    var lines := FlagLines(first + second);
    assert RemoteFlagLines(first, second) == lines;
  }
}

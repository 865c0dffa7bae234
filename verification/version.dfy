/** The kernel version comparator: the release text up to its first `-` is
    split on `.` and its first three components are compared, left to right,
    with those of the minimum version 5.17.0. A component that is missing or
    does not parse as a `u32` makes the program panic; the comparison reads
    components lazily, so only the ones it reaches can do so. */
module KernelVersion {
  import opened Common
  import opened Text
  import opened Decimal
  import opened Stage

  const MinKernelVersion: string := "5.17.0"

  /** The minimum version as numbers (proved in `MinKernelVersionParts`). */
  const MinComponents: seq<nat> := [5, 17, 0]

  datatype Verdict = Compatible | Incompatible | Panic

  /** The text before the first `-`: the first piece of `splitn(2, "-")`. */
  function NumericPrefix(release: string): (p: string)
    ensures '-' !in p
  {
    Split(release, '-')[0]
  }

  /** The dot-separated components of the numeric prefix. */
  function Components(release: string): (parts: seq<string>)
    ensures |parts| >= 1
  {
    Split(NumericPrefix(release), '.')
  }

  /** The comparison loop from position `i` on, as written: greater decides
      compatible, equal moves on, lower decides incompatible; reading a
      component that is absent or not a `u32` panics, the actual component
      first. */
  function CompareWith(ver: seq<string>, min: seq<string>, i: nat): Verdict
    requires i <= 3
    decreases 3 - i
  {
    if i == 3 then Compatible
    else if i >= |ver| then Panic
    else match ParseU32(ver[i])
      case None => Panic
      case Some(v) =>
        if i >= |min| then Panic
        else match ParseU32(min[i])
          case None => Panic
          case Some(m) =>
            if v > m then Compatible
            else if v == m then CompareWith(ver, min, i + 1)
            else Incompatible
  }

  /** The same loop against the minimum's numbers, which always parse
      (`CompareAgainstMinimum`). */
  function CompareFrom(ver: seq<string>, i: nat): Verdict
    requires i <= 3
    decreases 3 - i
  {
    if i == 3 then Compatible
    else if i >= |ver| then Panic
    else match ParseU32(ver[i])
      case None => Panic
      case Some(v) =>
        if v > MinComponents[i] then Compatible
        else if v == MinComponents[i] then CompareFrom(ver, i + 1)
        else Incompatible
  }

  /** The first three components are present and each parses as a `u32`. */
  predicate ParsesThree(parts: seq<string>) {
    |parts| >= 3 && forall i :: 0 <= i < 3 ==> ParseU32(parts[i]).Some?
  }

  function Numbers(parts: seq<string>): (ns: seq<nat>)
    requires ParsesThree(parts)
    ensures |ns| == 3
  {
    [ParseU32(parts[0]).value, ParseU32(parts[1]).value, ParseU32(parts[2]).value]
  }

  /** Lexicographic order on (major, minor, patch), inclusive. */
  predicate LexGe(v: seq<nat>, m: seq<nat>)
    requires |v| == 3 && |m| == 3
  {
    || v[0] > m[0]
    || (v[0] == m[0] && v[1] > m[1])
    || (v[0] == m[0] && v[1] == m[1] && v[2] >= m[2])
  }

  /** `check_kernel_version`: the verdict on a release text. */
  function Check(release: string): Verdict
  {
    CompareFrom(Components(release), 0)
  }

  /** Comparing against a minimum whose three components parse is comparing
      against their numbers. */
  lemma {:induction false} CompareWithNumbers(ver: seq<string>, min: seq<string>, i: nat)
    requires i <= 3
    requires ParsesThree(min) && Numbers(min) == MinComponents
    ensures CompareWith(ver, min, i) == CompareFrom(ver, i)
    decreases 3 - i
  {
    if i < 3 && i < |ver| && ParseU32(ver[i]).Some? {
      assert ParseU32(min[i]).value == MinComponents[i];
      CompareWithNumbers(ver, min, i + 1);
    }
  }

  /** `Check` is the loop as written, on the split minimum version text. */
  lemma CompareAgainstMinimum(release: string)
    ensures Check(release) == CompareWith(Components(release), Split(MinKernelVersion, '.'), 0)
  {
    MinKernelVersionParts();
    CompareWithNumbers(Components(release), Split(MinKernelVersion, '.'), 0);
  }

  /** The minimum version text splits into 5, 17 and 0. */
  lemma MinKernelVersionParts()
    ensures Split(MinKernelVersion, '.') == ["5", "17", "0"]
    ensures ParsesThree(Split(MinKernelVersion, '.'))
    ensures Numbers(Split(MinKernelVersion, '.')) == MinComponents
  {
    MinKernelVersionSplit();
    assert ParseU32("5") == Some(5);
    assert ParseU32("0") == Some(0);
    TwoDigitValues();
  }

  lemma MinKernelVersionSplit()
    ensures Split(MinKernelVersion, '.') == ["5", "17", "0"]
  {
    var parts := ["5", "17", "0"];
    assert Join(parts, '.') == MinKernelVersion by {
      assert parts[1..][1..] == ["0"];
      assert Join(parts[1..][1..], '.') == "0";
      assert parts[1..] == ["17", "0"];
      assert Join(parts[1..], '.') == "17.0";
    }
    SplitJoin(parts, '.');
  }

  lemma TwoDigitValues()
    ensures ParseU32("16") == Some(16)
    ensures ParseU32("17") == Some(17)
  {
    assert Value("16") == 16 by { assert "16"[..1] == "1"; }
    assert Value("17") == 17 by { assert "17"[..1] == "1"; }
  }

  /** A release whose first three components parse is compatible exactly when
      they are lexicographically at least 5.17.0. */
  lemma CheckIsLexGe(release: string)
    requires ParsesThree(Components(release))
    ensures Check(release) == Compatible <==> LexGe(Numbers(Components(release)), MinComponents)
    ensures Check(release) == Incompatible <==> !LexGe(Numbers(Components(release)), MinComponents)
  {
    TwoDigitValues();
  }

  /** The version check yields the stage outcome, or a panic. */
  function VersionOutcome(v: Verdict): (o: Option<StageOutcome>)
    ensures o == None <==> v == Panic
    ensures o == Some(Pass) <==> v == Compatible
  {
    match v
    case Compatible => Some(Pass)
    case Incompatible => Some(Fail(IncompatibleKernel(MinKernelVersion)))
    case Panic => None
  }

  /** Whatever follows the first `-` has no effect on the verdict. */
  lemma SuffixIgnored(prefix: string, suffix: string)
    requires '-' !in prefix
    ensures Check(prefix + ['-'] + suffix) == Check(prefix)
  {
    SplitAfterPrefix(prefix, suffix, '-');
    SplitNoSep(prefix, '-');
  }

  /** The canonical text of a release: three dot-separated numbers. */
  function ReleaseText(major: nat, minor: nat, patch: nat): string {
    Show(major) + ['.'] + Show(minor) + ['.'] + Show(patch)
  }

  lemma NoSeparatorsInShow(n: nat)
    ensures '-' !in Show(n) && '.' !in Show(n)
  {
    var s := Show(n);
    forall k | 0 <= k < |s| ensures s[k] != '-' && s[k] != '.' {
      assert IsDigit(s[k]);
    }
  }

  /** Every release of the form `a.b.c` or `a.b.c-suffix`, with `u32`
      components, is compatible exactly when (a, b, c) >= (5, 17, 0). */
  lemma CheckCanonical(major: nat, minor: nat, patch: nat, suffix: string)
    requires major < U32Limit && minor < U32Limit && patch < U32Limit
    ensures Check(ReleaseText(major, minor, patch)) == Check(ReleaseText(major, minor, patch) + ['-'] + suffix)
    ensures Check(ReleaseText(major, minor, patch)) == Compatible <==> LexGe([major, minor, patch], MinComponents)
    ensures Check(ReleaseText(major, minor, patch)) == Incompatible <==> !LexGe([major, minor, patch], MinComponents)
  {
    var text := ReleaseText(major, minor, patch);
    var parts := [Show(major), Show(minor), Show(patch)];
    NoSeparatorsInShow(major);
    NoSeparatorsInShow(minor);
    NoSeparatorsInShow(patch);
    assert parts[1..] == [Show(minor), Show(patch)];
    assert parts[1..][1..] == [Show(patch)];
    assert Join(parts[1..][1..], '.') == Show(patch);
    assert Join(parts[1..], '.') == Show(minor) + ['.'] + Show(patch);
    assert Join(parts, '.') == text;
    assert '-' !in text;
    SuffixIgnored(text, suffix);
    SplitNoSep(text, '-');
    SplitJoin(parts, '.');
    ParseShow(major);
    ParseShow(minor);
    ParseShow(patch);
    assert Components(text) == parts;
    CheckIsLexGe(text);
  }

  /** How a release text is taken apart, given the pieces it is joined from. */
  lemma ComponentsOf(release: string, parts: seq<string>)
    requires '-' !in release
    requires |parts| >= 1 && forall k :: 0 <= k < |parts| ==> '.' !in parts[k]
    requires Join(parts, '.') == release
    ensures Components(release) == parts
  {
    SplitNoSep(release, '-');
    SplitJoin(parts, '.');
  }

  /** The verdict on a release, read off the pieces it is joined from. */
  lemma CheckFromParts(release: string, parts: seq<string>)
    requires '-' !in release
    requires |parts| >= 1 && forall k :: 0 <= k < |parts| ==> '.' !in parts[k]
    requires Join(parts, '.') == release
    ensures Check(release) == CompareFrom(parts, 0)
  {
    ComponentsOf(release, parts);
  }

  /** Equal major and minor versions lead the loop to the patch component. */
  lemma PatchParseFailurePanics(parts: seq<string>)
    requires |parts| == 3 && parts[0] == "5" && parts[1] == "17"
    requires ParseU32(parts[2]) == None
    ensures CompareFrom(parts, 0) == Panic
  {
    TwoDigitValues();
  }

  /** Examples: a suffixed release at the minimum, the minimum itself, an
      older minor, a newer major. */
  lemma CheckSuffixedMinimum()
    ensures Check("5.17.0-generic") == Compatible
  {
    assert "5.17.0-generic" == "5.17.0" + ['-'] + "generic";
    SuffixIgnored("5.17.0", "generic");
    CheckMinimum();
  }

  lemma CheckMinimum()
    ensures Check("5.17.0") == Compatible
  {
    MinKernelVersionParts();
    SplitNoSep(MinKernelVersion, '-');
    assert Components(MinKernelVersion) == ["5", "17", "0"];
    CheckIsLexGe(MinKernelVersion);
  }

  /** "5.16.9" is older. The release is a parameter pinned by `requires`:
      with the literal in the ensures the solver unfolds the check far more
      eagerly. */
  lemma CheckBelowMinimum(release: string)
    requires release == "5.16.9"
    ensures Check(release) == Incompatible
  {
    var parts := ["5", "16", "9"];
    assert Check(release) == CompareFrom(parts, 0) by {
      assert Join(parts, '.') == release by {
        assert parts[1..][1..] == ["9"];
      }
      CheckFromParts(release, parts);
    }
    assert CompareFrom(parts, 0) == Incompatible by {
      TwoDigitValues();
    }
  }

  lemma CheckNewerMajor()
    ensures Check("6.0.0") == Compatible
  {
    CheckFromParts("6.0.0", ["6", "0", "0"]);
  }

  /** Components are read lazily: a greater major version decides before the
      malformed minor is parsed. */
  lemma CheckLazyMajor()
    ensures Check("6.x") == Compatible
  {
    CheckFromParts("6.x", ["6", "x"]);
  }

  /** A 5.17 release without a patch component panics on the missing index. */
  lemma CheckMissingPatch()
    ensures Check("5.17") == Panic
  {
    var parts := ["5", "17"];
    assert Check("5.17") == CompareFrom(parts, 0) by {
      CheckFromParts("5.17", parts);
    }
    assert CompareFrom(parts, 0) == Panic by {
      TwoDigitValues();
    }
  }

  /** As written, the probe hands `check_kernel_version` the untrimmed output
      of `uname -r`. For a 5.17.x release without a `-` suffix the loop reaches
      the patch component, which still carries the newline, and the parse
      panics, while the same release without the newline is compatible
      (`CheckMinimum`). */
  lemma UntrimmedReleasePanics()
    ensures Check("5.17.0\n") == Panic
  {
    var parts := ["5", "17", "0\n"];
    assert Check("5.17.0\n") == CompareFrom(parts, 0) by {
      CheckFromParts("5.17.0\n", parts);
    }
    assert CompareFrom(parts, 0) == Panic by {
      ParseRejects();
      PatchParseFailurePanics(parts);
    }
  }

  /** The version stage on raw `uname -r` output, trimmed first as the
      printed line already is. */
  function CheckRelease(unameOutput: string): (v: Verdict)
    ensures Trimmed(unameOutput) ==> v == Check(unameOutput)
  {
    TrimKeepsTrimmed(unameOutput);
    Check(Trim(unameOutput))
  }

  /** With the output trimmed, surrounding whitespace (the newline `uname`
      prints) never changes the verdict. */
  lemma CheckReleaseIgnoresPadding(release: string, before: string, after: string)
    requires Trimmed(release) && AllWhitespace(before) && AllWhitespace(after)
    ensures CheckRelease(before + release + after) == Check(release)
  {
    TrimPadded(before, release, after);
  }

  /** The release that panicked above passes once trimmed. */
  lemma TrimmedReleasePasses()
    ensures CheckRelease("5.17.0\n") == Compatible
  {
    assert CheckRelease("5.17.0\n") == Check("5.17.0") by {
      assert "5.17.0\n" == "" + "5.17.0" + "\n";
      CheckReleaseIgnoresPadding("5.17.0", "", "\n");
    }
    CheckMinimum();
  }
}

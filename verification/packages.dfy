/** The package audit: the nodename picks the package family, each required
    package is looked up in the family's query output, and the missing ones
    are either installed (best effort) or, when the user declines, recorded in
    the process-wide ledger of missing packages while the stage fails. */
module Packages {
  import opened Common
  import opened Text
  import opened Stage
  import opened Confirm

  datatype Family = Apt | Pacman

  const UbuntuPackages: seq<string> :=
    ["linux-tools-common", "linux-tools-generic", "ripgrep", "clang", "libbpf-dev"]
  const ArchPackages: seq<string> :=
    ["bpf", "libbpf", "base", "base-devel", "ripgrep", "clang"]

  /** The entry of the apt list that stands for the running kernel's tools. */
  const KernelToolsPlaceholder: string := "linux-tools-generic"
  const KernelToolsPrefix: string := "linux-tools-"
  /** What `apt -qq list` prints for an installed package. */
  const InstalledMarker: string := "[installed]"
  /** The text filter the kernel flag stage pipes through. */
  const FilterTool: string := "ripgrep"

  /** Only the nodenames "ubuntu" and "archlinux" are supported. */
  function FamilyOf(nodename: string): (f: Option<Family>)
    ensures f == Some(Apt) <==> nodename == "ubuntu"
    ensures f == Some(Pacman) <==> nodename == "archlinux"
    ensures f == None <==> nodename != "ubuntu" && nodename != "archlinux"
  {
    if nodename == "ubuntu" then Some(Apt)
    else if nodename == "archlinux" then Some(Pacman)
    else None
  }

  /** The local apt list, its placeholder renamed after the running kernel:
      the prefix and the `uname -r` output, trimmed together. */
  function LocalAptPackages(release: string): (pkgs: seq<string>)
    ensures |pkgs| == |UbuntuPackages|
  {
    seq(|UbuntuPackages|, i requires 0 <= i < |UbuntuPackages| =>
      if UbuntuPackages[i] == KernelToolsPlaceholder then Trim(KernelToolsPrefix + release)
      else UbuntuPackages[i])
  }

  /** The placeholder is the second entry of the apt list and only that. */
  lemma PlaceholderPosition()
    ensures UbuntuPackages[1] == KernelToolsPlaceholder
    ensures forall i :: 0 <= i < |UbuntuPackages| && i != 1 ==> UbuntuPackages[i] != KernelToolsPlaceholder
  {
    assert |KernelToolsPlaceholder| == 19;
    assert |UbuntuPackages[0]| == 18;
    assert |UbuntuPackages[2]| == 7;
    assert |UbuntuPackages[3]| == 5;
    assert |UbuntuPackages[4]| == 10;
  }

  /** The renamed list differs from the written one only in the placeholder. */
  lemma LocalAptEntries(release: string)
    ensures LocalAptPackages(release)[1] == Trim(KernelToolsPrefix + release)
    ensures forall i :: 0 <= i < |UbuntuPackages| && i != 1 ==>
              LocalAptPackages(release)[i] == UbuntuPackages[i]
  {
    PlaceholderPosition();
  }

  /** For a release printed with trailing whitespace, the renamed entry is the
      prefix followed by the release itself; every other entry is unchanged. */
  lemma LocalAptRenaming(release: string, after: string)
    requires Trimmed(release) && AllWhitespace(after)
    ensures LocalAptPackages(release + after)[1] == KernelToolsPrefix + release
    ensures forall i :: 0 <= i < |UbuntuPackages| && i != 1 ==>
              LocalAptPackages(release + after)[i] == UbuntuPackages[i]
  {
    var name := KernelToolsPrefix + release;
    assert Trim(KernelToolsPrefix + (release + after)) == name by {
      assert Trimmed(name);
      assert KernelToolsPrefix + (release + after) == "" + name + after;
      TrimPadded("", name, after);
    }
    LocalAptEntries(release + after);
  }

  /** apt: a package is missing when its listing lacks the installed marker. */
  function AptMissing(pkgs: seq<string>, listing: string -> string): (missing: seq<string>)
    ensures IsSubsequence(missing, pkgs)
    ensures forall p :: p in missing <==> p in pkgs && !Contains(listing(p), InstalledMarker)
  {
    var keep := (p: string) => !Contains(listing(p), InstalledMarker);
    FilterIsSubsequence(pkgs, keep);
    Filter(pkgs, keep)
  }

  /** pacman: a package is missing when its name does not occur anywhere in
      the one batched query output. */
  function PacmanMissing(pkgs: seq<string>, output: string): (missing: seq<string>)
    ensures IsSubsequence(missing, pkgs)
    ensures forall p :: p in missing <==> p in pkgs && !Contains(output, p)
  {
    var keep := (p: string) => !Contains(output, p);
    FilterIsSubsequence(pkgs, keep);
    Filter(pkgs, keep)
  }

  /** A name that occurs inside an installed name counts as installed. */
  lemma InsideInstalledName(output: string, pkgs: seq<string>, longer: string, p: string, i: nat)
    requires Contains(output, longer) && OccursAt(longer, p, i)
    ensures p !in PacmanMissing(pkgs, output)
  {
    ContainsTransitive(output, longer, p);
  }

  /** Because the pacman check is a substring test, "bpf" counts as installed
      whenever "libbpf" is, and "base" whenever "base-devel" is, whatever
      list is queried (`ArchPackages` lists all four). */
  lemma PacmanSubstringMatches(output: string, pkgs: seq<string>)
    requires Contains(output, "libbpf") && Contains(output, "base-devel")
    ensures "bpf" !in PacmanMissing(pkgs, output)
    ensures "base" !in PacmanMissing(pkgs, output)
  {
    assert "bpf" !in PacmanMissing(pkgs, output) by {
      assert "libbpf"[3..6] == "bpf";
      InsideInstalledName(output, pkgs, "libbpf", "bpf", 3);
    }
    assert "base" !in PacmanMissing(pkgs, output) by {
      assert "base-devel"[0..4] == "base";
      InsideInstalledName(output, pkgs, "base-devel", "base", 0);
    }
  }

  /** The classification of the host's packages. */
  datatype Audit = Unsupported | Audited(family: Family, missing: seq<string>)

  /** The local audit: the nodename as trimmed `uname -n` output, the apt
      list renamed after the running kernel. */
  function LocalAudit(nodenameOutput: string, release: string,
                      aptListing: string -> string, pacmanOutput: string): Audit
  {
    match FamilyOf(Trim(nodenameOutput))
    case None => Unsupported
    case Some(Apt) => Audited(Apt, AptMissing(LocalAptPackages(release), aptListing))
    case Some(Pacman) => Audited(Pacman, PacmanMissing(ArchPackages, pacmanOutput))
  }

  /** The remote audit: the same, except that the apt list is queried as
      written, placeholder included, and that the pacman query's output is
      read into the buffer that still holds the nodename output, so both are
      searched. */
  function RemoteAudit(nodenameOutput: string,
                       aptListing: string -> string, pacmanOutput: string): Audit
  {
    match FamilyOf(Trim(nodenameOutput))
    case None => Unsupported
    case Some(Apt) => Audited(Apt, AptMissing(UbuntuPackages, aptListing))
    case Some(Pacman) => Audited(Pacman, PacmanMissing(ArchPackages, nodenameOutput + pacmanOutput))
  }

  /** Both audits report a package missing exactly when its query output
      lacks the family's marker, keeping the order of the required list. */
  lemma AuditMissingIff(nodenameOutput: string, release: string,
                        aptListing: string -> string, pacmanOutput: string, p: string)
    ensures var a := LocalAudit(nodenameOutput, release, aptListing, pacmanOutput);
      && (a.Unsupported? <==> FamilyOf(Trim(nodenameOutput)) == None)
      && (a.Audited? && a.family == Apt ==>
            IsSubsequence(a.missing, LocalAptPackages(release))
            && (p in a.missing <==> p in LocalAptPackages(release) && !Contains(aptListing(p), InstalledMarker)))
      && (a.Audited? && a.family == Pacman ==>
            IsSubsequence(a.missing, ArchPackages)
            && (p in a.missing <==> p in ArchPackages && !Contains(pacmanOutput, p)))
    ensures var a := RemoteAudit(nodenameOutput, aptListing, pacmanOutput);
      && (a.Unsupported? <==> FamilyOf(Trim(nodenameOutput)) == None)
      && (a.Audited? && a.family == Apt ==>
            IsSubsequence(a.missing, UbuntuPackages)
            && (p in a.missing <==> p in UbuntuPackages && !Contains(aptListing(p), InstalledMarker)))
      && (a.Audited? && a.family == Pacman ==>
            IsSubsequence(a.missing, ArchPackages)
            && (p in a.missing <==> p in ArchPackages && !Contains(nodenameOutput + pacmanOutput, p)))
  {
  }

  /** Each audit reads only its own family's query: on a host that is not
      pacman-based what pacman prints plays no part, and on one that is not
      apt-based neither the apt listings nor the release do. */
  lemma AuditReadsOwnFamily(nodenameOutput: string, release: string, otherRelease: string,
                            aptListing: string -> string, otherListing: string -> string,
                            pacmanOutput: string, otherPacman: string)
    ensures FamilyOf(Trim(nodenameOutput)) != Some(Pacman) ==>
      && LocalAudit(nodenameOutput, release, aptListing, pacmanOutput)
         == LocalAudit(nodenameOutput, release, aptListing, otherPacman)
      && RemoteAudit(nodenameOutput, aptListing, pacmanOutput)
         == RemoteAudit(nodenameOutput, aptListing, otherPacman)
    ensures FamilyOf(Trim(nodenameOutput)) != Some(Apt) ==>
      && LocalAudit(nodenameOutput, release, aptListing, pacmanOutput)
         == LocalAudit(nodenameOutput, otherRelease, otherListing, pacmanOutput)
      && RemoteAudit(nodenameOutput, aptListing, pacmanOutput)
         == RemoteAudit(nodenameOutput, otherListing, pacmanOutput)
  {
  }

  /** What the package stage leaves behind: its outcome and the ledger. */
  datatype PackageStage = PackageStage(outcome: StageOutcome, ledger: seq<string>)

  /** The remediation decision on a non-empty missing list: without
      `noconfirm` the user is asked, and a declining answer appends the list
      to the ledger and fails the stage; otherwise the install runs, its
      result unchecked, and the stage passes. */
  function Remediate(missing: seq<string>, noconfirm: bool, answer: string,
                     ledger: seq<string>): PackageStage
  {
    if |missing| == 0 then PackageStage(Pass, ledger)
    else if !noconfirm && !Accepted(answer) then
      PackageStage(Fail(MissingPackages(missing)), ledger + missing)
    else PackageStage(Pass, ledger)
  }

  /** The whole stage. `quoted` is what the unsupported-OS message quotes:
      nothing locally, the raw nodename output remotely. */
  function RunPackageStage(audit: Audit, quoted: Option<string>, noconfirm: bool,
                           answer: string, ledger: seq<string>): PackageStage
  {
    match audit
    case Unsupported => PackageStage(Fail(UnsupportedOs(quoted)), ledger)
    case Audited(_, missing) => Remediate(missing, noconfirm, answer, ledger)
  }

  /** The user declined to install something missing. */
  predicate Declined(audit: Audit, noconfirm: bool, answer: string) {
    audit.Audited? && |audit.missing| > 0 && !noconfirm && !Accepted(answer)
  }

  /** The stage fails exactly on an unsupported OS or a declined install; the
      ledger only ever grows, by exactly the missing list, on a decline. */
  lemma PackageStageSpec(audit: Audit, quoted: Option<string>, noconfirm: bool,
                         answer: string, ledger: seq<string>)
    ensures var r := RunPackageStage(audit, quoted, noconfirm, answer, ledger);
      && (r.outcome.Fail? <==> audit.Unsupported? || Declined(audit, noconfirm, answer))
      && (audit.Unsupported? ==> r.outcome == Fail(UnsupportedOs(quoted)))
      && (Declined(audit, noconfirm, answer) ==>
            r.outcome == Fail(MissingPackages(audit.missing)) && r.ledger == ledger + audit.missing)
      && (!Declined(audit, noconfirm, answer) ==> r.ledger == ledger)
      && |ledger| <= |r.ledger| && r.ledger[..|ledger|] == ledger
  {
  }

  /** With `noconfirm` set the answer is never consulted and the stage fails
      only on an unsupported OS. */
  lemma NoconfirmNeverDeclines(audit: Audit, quoted: Option<string>, answer: string,
                               other: string, ledger: seq<string>)
    ensures RunPackageStage(audit, quoted, true, answer, ledger)
         == RunPackageStage(audit, quoted, true, other, ledger)
    ensures RunPackageStage(audit, quoted, true, answer, ledger).outcome.Fail? <==> audit.Unsupported?
  {
  }
}

/** The network interface checker: the configured name must be one of the
    lines of the link listing, compared whole. */
module NetIface {
  import opened Text
  import opened Stage

  /** The link listing's lines, split at newlines without trimming, so a
      listing that ends in a newline has an empty last line. */
  function InterfaceNames(output: string): (names: seq<string>)
    ensures |names| >= 1
    ensures Join(names, '\n') == output
  {
    JoinSplit(output, '\n');
    Split(output, '\n')
  }

  /** `check_net_iface`: exact membership. */
  function CheckIface(iface: string, names: seq<string>): StageOutcome {
    if iface in names then Pass else Fail(InterfaceNotFound(iface))
  }

  /** The stage on a raw listing. */
  function IfaceStage(iface: string, output: string): StageOutcome {
    CheckIface(iface, InterfaceNames(output))
  }

  /** On a listing of names, one per line, newline-terminated as the link
      listing prints them, the stage passes exactly for a listed name, or for
      the empty name that the final newline leaves behind. */
  lemma IfaceStageIff(iface: string, names: seq<string>)
    requires |names| >= 1
    requires forall k :: 0 <= k < |names| ==> '\n' !in names[k]
    ensures IfaceStage(iface, Join(names, '\n') + "\n") == Pass <==> iface in names || iface == ""
    ensures IfaceStage(iface, Join(names, '\n') + "\n").Fail? ==>
              IfaceStage(iface, Join(names, '\n') + "\n").error == InterfaceNotFound(iface)
  {
    JoinSnoc(names, "", '\n');
    assert Join(names, '\n') + "\n" == Join(names + [""], '\n');
    SplitJoin(names + [""], '\n');
    assert iface in names + [""] <==> iface in names || iface == "";
  }

  /** A name that is only a prefix of a listed one does not match. */
  lemma PrefixDoesNotMatch()
    ensures IfaceStage("eth0", "eth01\n").Fail?
    ensures IfaceStage("eth0", "eth0\nlo\n") == Pass
  {
    IfaceStageIff("eth0", ["eth01"]);
    assert Join(["eth01"], '\n') + "\n" == "eth01\n";
    IfaceStageIff("eth0", ["eth0", "lo"]);
    assert Join(["eth0", "lo"], '\n') + "\n" == "eth0\nlo\n";
  }
}

/** Where the flow coverage report and the cohort measures must agree. */
module Agreement {
  import opened Basics
  import opened Sorting
  import opened FlowRecords
  import opened FlowCoverage
  import opened CohortMeasures

  /** The arrow after a step's label is the first one in it, so the label can be told from an arm's key. */
  predicate Clean(stepLabel: string) {
    StepOfKey(stepLabel + ARROW) == stepLabel
  }

  /** The part of a key before its first arrow does not depend on what follows the arrow. */
  lemma StepOfKeyIs(stepLabel: string, arm: string)
    ensures StepOfKey(stepLabel + ARROW + arm) == StepOfKey(stepLabel + ARROW)
  {
    var short, long := stepLabel + ARROW, stepLabel + ARROW + arm;
    forall k: nat | k + |ARROW| <= |short|
      ensures OccursAt(long, ARROW, k) <==> OccursAt(short, ARROW, k)
    {
      assert long[k..k + |ARROW|] == short[k..k + |ARROW|];
    }
    assert OccursAt(short, ARROW, |stepLabel|);
    var i, j := IndexOf(short, ARROW), IndexOf(long, ARROW);
    assert i == j;
    assert long[..i] == short[..i];
  }

  /** A clean label and its arm can be read back from the key. */
  lemma KeyIsInjective(a: Decision, b: Decision)
    requires Clean(StepLabel(a.nodeId)) && Clean(StepLabel(b.nodeId)) && ArmKey(a) == ArmKey(b)
    ensures StepLabel(a.nodeId) == StepLabel(b.nodeId) && ArmOf(a) == ArmOf(b)
  {
    var la, lb := StepLabel(a.nodeId), StepLabel(b.nodeId);
    StepOfKeyIs(la, ArmOf(a));
    StepOfKeyIs(lb, ArmOf(b));
    assert ArmOf(a) == ArmKey(a)[|la| + |ARROW|..];
    assert ArmOf(b) == ArmKey(b)[|lb| + |ARROW|..];
  }

  /** Every observed step has a clean label, and no two share one. */
  ghost predicate Readable(ds: seq<Decision>) {
    && (forall d :: d in ds ==> Clean(StepLabel(d.nodeId)))
    && (forall d, e :: d in ds && e in ds && StepLabel(d.nodeId) == StepLabel(e.nodeId) ==> d.nodeId == e.nodeId)
  }

  lemma {:induction false} SameCounts(ds: seq<Decision>, d: Decision)
    requires Readable(ds + [d])
    ensures ArmKeys(ds)[ArmKey(d)] == ArmsAt(ds, d.nodeId)[ArmOf(d)]
    ensures StepLabels(ds)[StepLabel(d.nodeId)] == |ArmsAt(ds, d.nodeId)|
  {
    if ds != [] {
      hide ArmKeys, StepLabels, ArmsAt, ArmKey, StepLabel, ArmOf, Clean, Readable, CountAt, OfferedAt;
      var front, e := ds[..|ds| - 1], ds[|ds| - 1];
      assert ds == front + [e];
      ReadableFront(front, e, d);
      SameCounts(front, d);
      SameKeyIff(d, e);
      KeysSnoc(front, e);
      AtSnoc(front, e, d.nodeId);
      CountsStep(ArmKeys(front), ArmsAt(front, d.nodeId), StepLabels(front), ArmKey(d), ArmOf(d), StepLabel(d.nodeId),
                 ArmKey(e), ArmOf(e), StepLabel(e.nodeId), e.nodeId == d.nodeId);
    }
  }

  /** One more decision moves the three counts together. */
  lemma CountsStep(
      keys: multiset<string>, arms: multiset<string>, labels: multiset<string>,
      key: string, arm: string, stepLabel: string, key': string, arm': string, stepLabel': string, same: bool)
    requires keys[key] == arms[arm] && labels[stepLabel] == |arms|
    requires (key == key' <==> same && arm == arm') && (stepLabel == stepLabel' <==> same)
    ensures (keys + multiset{key'})[key] == (if same then arms + multiset{arm'} else arms)[arm]
    ensures (labels + multiset{stepLabel'})[stepLabel] == |if same then arms + multiset{arm'} else arms|
  {
  }

  lemma ReadableFront(front: seq<Decision>, e: Decision, d: Decision)
    requires Readable(front + [e] + [d])
    ensures Readable(front + [d]) && Clean(StepLabel(d.nodeId)) && Clean(StepLabel(e.nodeId))
    ensures StepLabel(d.nodeId) == StepLabel(e.nodeId) ==> d.nodeId == e.nodeId
  {
    hide Clean, StepLabel;
    var all := front + [e] + [d];
    assert all[|front|] == e && all[|front| + 1] == d;
    assert forall x :: x in front + [d] ==> x in all;
  }

  lemma SameKeyIff(d: Decision, e: Decision)
    requires Clean(StepLabel(d.nodeId)) && Clean(StepLabel(e.nodeId))
    requires StepLabel(d.nodeId) == StepLabel(e.nodeId) ==> d.nodeId == e.nodeId
    ensures ArmKey(d) == ArmKey(e) <==> d.nodeId == e.nodeId && ArmOf(d) == ArmOf(e)
    ensures StepLabel(d.nodeId) == StepLabel(e.nodeId) <==> d.nodeId == e.nodeId
  {
    if ArmKey(d) == ArmKey(e) {
      KeyIsInjective(d, e);
    }
  }

  /** On the same transcripts, the share the cohort measures give an arm is its count in the coverage report over
      the report's traversals of that branch. */
  lemma SharesAgree(trs: seq<Transcript>, d: Decision, b: BranchStat, m: Measures, arm: Arm)
    requires Readable(Decisions(trs)) && d in Decisions(trs)
    requires AreMeasures(trs, m) && IsBranchStat(Decisions(trs), d.nodeId, b)
    requires arm in b.arms && arm.name == ArmOf(d)
    ensures ArmKey(d) in m.branchArms && IsShare(m.branchArms[ArmKey(d)], arm.count, b.traversals) && b.traversals > 0
  {
    hide ArmKey, StepLabel, ArmOf, Clean, IsShare, Decisions;
    var ds := Decisions(trs);
    ReadableSnoc(ds, d);
    SameCounts(ds, d);
    Observed(ds, d);
    StepIsRead(d);
  }

  lemma StepIsRead(d: Decision)
    requires Clean(StepLabel(d.nodeId))
    ensures StepOfKey(ArmKey(d)) == StepLabel(d.nodeId)
  {
    StepOfKeyIs(StepLabel(d.nodeId), ArmOf(d));
  }

  lemma ReadableSnoc(ds: seq<Decision>, d: Decision)
    requires Readable(ds) && d in ds
    ensures Readable(ds + [d]) && Clean(StepLabel(d.nodeId))
  {
  }

  lemma {:induction false} Observed(ds: seq<Decision>, d: Decision)
    requires d in ds
    ensures ArmKey(d) in ArmKeys(ds) && StepLabel(d.nodeId) in StepLabels(ds) && ArmOf(d) in ArmsAt(ds, d.nodeId)
  {
    hide *;
    var front, last := ds[..|ds| - 1], ds[|ds| - 1];
    assert ds == front + [last];
    KeysSnoc(front, last);
    AtSnoc(front, last, d.nodeId);
    if d != last {
      Observed(front, d);
    }
  }

  lemma {:induction false} StepLabelObserved(ds: seq<Decision>, stepLabel: string)
    ensures StepLabels(ds)[stepLabel] > 0 <==> exists d :: d in ds && StepLabel(d.nodeId) == stepLabel
  {
    if ds != [] {
      var front, last := ds[..|ds| - 1], ds[|ds| - 1];
      StepLabelObserved(front, stepLabel);
      assert forall d :: d in ds <==> d in front || d == last;
    }
  }

  /** Without the precondition an arm can go missing: it is reported exactly when the part of its step's label before
      the first arrow is itself the label of an observed step, as it is when the label is clean. */
  lemma ArmReportedIff(trs: seq<Transcript>, d: Decision, m: Measures)
    requires AreMeasures(trs, m) && d in Decisions(trs)
    ensures ArmKey(d) in m.branchArms
       <==> exists e :: e in Decisions(trs) && StepLabel(e.nodeId) == StepOfKey(StepLabel(d.nodeId) + ARROW)
    ensures Clean(StepLabel(d.nodeId)) ==> ArmKey(d) in m.branchArms
  {
    var ds := Decisions(trs);
    Observed(ds, d);
    StepOfKeyIs(StepLabel(d.nodeId), ArmOf(d));
    StepLabelObserved(ds, StepOfKey(ArmKey(d)));
  }

  /** A study with one branch, whose id holds an arrow, has no branch arms at all in the cohort measures. */
  lemma ArmMayGoMissing(d: Decision, m: Measures)
    requires d == Decision("a" + ARROW + "b", [], Some("yes"), false, None)
    requires AreMeasures([Transcript("t", [], [d], [])], m)
    ensures m.branchArms == map[]
  {
    var trs := [Transcript("t", [], [d], [])];
    assert trs[..0] == [];
    assert Decisions(trs) == [d];
    assert [d][..0] == [];
    assert ArmKeys([d]) == multiset{ArmKey(d)};
    ArmReportedIff(trs, d, m);
    NotClean();
  }

  lemma NotClean()
    ensures StepOfKey("a" + ARROW + "b" + ARROW) == "a" && StepLabel("a" + ARROW + "b") == "a" + ARROW + "b"
  {
    var s := "a" + ARROW + "b" + ARROW;
    assert s[1..4] == ARROW && s[0..3][0] == 'a';
    assert OccursAt(s, ARROW, 1) && !OccursAt(s, ARROW, 0);
    assert s[..1] == "a";
  }

  // ----- The shares of one branch

  /** The shares the cohort measures give the arms of a branch, taken together. */
  ghost function TotalShare(arms: seq<Arm>, stepLabel: string, shares: map<string, real>): real {
    if arms == [] then 0.0
    else
      var key := stepLabel + ARROW + arms[|arms| - 1].name;
      TotalShare(arms[..|arms| - 1], stepLabel, shares) + if key in shares then shares[key] else 0.0
  }

  lemma {:induction false} ArmHasDecision(ds: seq<Decision>, node: string, name: string) returns (d: Decision)
    requires name in ArmsAt(ds, node)
    ensures d in ds && d.nodeId == node && ArmOf(d) == name
  {
    var last := ds[|ds| - 1];
    if last.nodeId == node && ArmOf(last) == name {
      d := last;
    } else {
      d := ArmHasDecision(ds[..|ds| - 1], node, name);
    }
  }

  lemma {:induction false} SharesScaleToCounts(
      trs: seq<Transcript>, node: string, b: BranchStat, m: Measures, arms: seq<Arm>)
    requires Readable(Decisions(trs)) && AreMeasures(trs, m) && IsBranchStat(Decisions(trs), node, b)
    requires forall i :: 0 <= i < |arms| ==> arms[i] in b.arms
    ensures IsShare(TotalShare(arms, StepLabel(node), m.branchArms), TotalCount(arms), b.traversals)
  {
    hide StepLabel, ArmOf, Clean, Decisions, AreMeasures, Readable, IsBranchStat, IsShare, TotalShare, TotalCount;
    if arms == [] {
      NoShares(StepLabel(node), m.branchArms, b.traversals);
    } else {
      var front, last := arms[..|arms| - 1], arms[|arms| - 1];
      SharesScaleToCounts(trs, node, b, m, front);
      ShareOfArm(trs, node, b, m, last);
      OneMoreShare(front, last, StepLabel(node), m.branchArms, b.traversals);
      assert arms == front + [last];
    }
  }

  lemma NoShares(stepLabel: string, shares: map<string, real>, n: nat)
    ensures IsShare(TotalShare([], stepLabel, shares), TotalCount([]), n)
  {
  }

  lemma OneMoreShare(front: seq<Arm>, last: Arm, stepLabel: string, shares: map<string, real>, n: nat)
    requires IsShare(TotalShare(front, stepLabel, shares), TotalCount(front), n)
    requires var key := stepLabel + ARROW + last.name; key in shares && IsShare(shares[key], last.count, n)
    ensures IsShare(TotalShare(front + [last], stepLabel, shares), TotalCount(front + [last]), n)
  {
    assert (front + [last])[..|front|] == front;
    Distribute(TotalShare(front, stepLabel, shares), TotalCount(front), shares[stepLabel + ARROW + last.name],
      last.count, n);
    hide IsShare;
  }

  lemma Distribute(x: real, a: nat, y: real, b: nat, n: nat)
    requires IsShare(x, a, n) && IsShare(y, b, n)
    ensures IsShare(x + y, a + b, n)
  {
  }

  lemma ShareOfArm(trs: seq<Transcript>, node: string, b: BranchStat, m: Measures, arm: Arm)
    requires Readable(Decisions(trs)) && AreMeasures(trs, m) && IsBranchStat(Decisions(trs), node, b) && arm in b.arms
    ensures var key := StepLabel(node) + ARROW + arm.name;
            key in m.branchArms && IsShare(m.branchArms[key], arm.count, b.traversals) && b.traversals > 0
  {
    assert arm.name in ArmsAt(Decisions(trs), node) by {
      hide Decisions, ArmsAt, AreMeasures, Readable;
    }
    hide Decisions, ArmsAt, AreMeasures, Readable, IsBranchStat, IsShare;
    var d := ArmHasDecision(Decisions(trs), node, arm.name);
    SharesAgree(trs, d, b, m, arm);
  }

  /** The shares of a branch that was traversed add up to one. */
  lemma SharesAddUpToOne(trs: seq<Transcript>, node: string, b: BranchStat, m: Measures)
    requires Readable(Decisions(trs)) && AreMeasures(trs, m)
    requires IsBranchStat(Decisions(trs), node, b) && b.traversals > 0
    ensures TotalShare(b.arms, StepLabel(node), m.branchArms) == 1.0
  {
    hide StepLabel, Decisions, AreMeasures, Readable, IsBranchStat, IsShare;
    SharesScaleToCounts(trs, node, b, m, b.arms);
    BranchAddsUp(Decisions(trs), node, b);
    WholeShare(TotalShare(b.arms, StepLabel(node), m.branchArms), b.traversals);
  }

  lemma WholeShare(x: real, n: nat)
    requires IsShare(x, n, n) && n > 0
    ensures x == 1.0
  {
  }

  // ----- Which flows can be measured

  /** All the branches passed are among `nodes`. */
  ghost predicate Within(trs: seq<Transcript>, nodes: set<string>) {
    forall d :: d in Decisions(trs) ==> d.nodeId in nodes
  }

  /** Every arm taken is reported, with its share of its own branch's traversals. */
  ghost predicate SharesRight(trs: seq<Transcript>, m: Measures) {
    forall d :: d in Decisions(trs) ==> IsRightShare(Decisions(trs), m, d)
  }

  ghost predicate IsRightShare(ds: seq<Decision>, m: Measures, d: Decision) {
    && ArmKey(d) in m.branchArms
    && IsShare(m.branchArms[ArmKey(d)], ArmsAt(ds, d.nodeId)[ArmOf(d)], |ArmsAt(ds, d.nodeId)|)
  }

  /** The labels of `nodes` are clean and tell them apart. */
  ghost predicate Separate(nodes: set<string>) {
    && (forall n :: n in nodes ==> Clean(StepLabel(n)))
    && (forall n, k :: n in nodes && k in nodes && StepLabel(n) == StepLabel(k) ==> n == k)
  }

  /** The shares of a flow are right, whatever its transcripts, exactly when the labels of its branches are clean and
      tell them apart. */
  lemma SharesRightIff(nodes: set<string>)
    ensures (forall trs, m :: Within(trs, nodes) && AreMeasures(trs, m) ==> SharesRight(trs, m)) <==> Separate(nodes)
  {
    if Separate(nodes) {
      forall trs, m | Within(trs, nodes) && AreMeasures(trs, m)
        ensures SharesRight(trs, m)
      {
        SharesRightWhenSeparate(trs, nodes, m);
      }
    } else if n :| n in nodes && !Clean(StepLabel(n)) {
      var trs, m := UncleanGoesMissing(n);
    } else {
      var n, k :| n in nodes && k in nodes && StepLabel(n) == StepLabel(k) && n != k;
      var trs, m := TwinsShare(n, k);
    }
  }

  lemma SharesRightWhenSeparate(trs: seq<Transcript>, nodes: set<string>, m: Measures)
    requires Separate(nodes) && Within(trs, nodes) && AreMeasures(trs, m)
    ensures SharesRight(trs, m)
  {
    var ds := Decisions(trs);
    assert Readable(ds);
    forall d | d in ds
      ensures IsRightShare(ds, m, d)
    {
      RightShare(trs, m, d);
    }
  }

  lemma RightShare(trs: seq<Transcript>, m: Measures, d: Decision)
    requires Readable(Decisions(trs)) && AreMeasures(trs, m) && d in Decisions(trs)
    ensures IsRightShare(Decisions(trs), m, d)
  {
    var ds := Decisions(trs);
    SharesOf(trs, m);
    hide ArmKey, StepLabel, ArmOf, Clean, IsShare, Decisions, AreMeasures, Readable, ArmsAt, ArmKeys, StepLabels;
    assert Readable(ds + [d]) && Clean(StepLabel(d.nodeId)) by {
      ReadableSnoc(ds, d);
    }
    SameCounts(ds, d);
    Observed(ds, d);
    StepIsRead(d);
  }

  function Study(ds: seq<Decision>): seq<Transcript> {
    [Transcript("t", [], ds, [])]
  }

  lemma StudyHolds(ds: seq<Decision>)
    ensures Decisions(Study(ds)) == ds
    ensures Presence(Study(ds), NodesSeen) == multiset{} && Presence(Study(ds), NamesSeen) == multiset{}
  {
    assert Study(ds)[..0] == [];
    assert [] + ds == ds;
  }

  function Took(node: string, arm: string): Decision {
    Decision(node, [], Some(arm), false, None)
  }

  /** One decision at a node with an unclean label is not reported at all. */
  lemma UncleanGoesMissing(node: string) returns (trs: seq<Transcript>, m: Measures)
    requires !Clean(StepLabel(node))
    ensures Decisions(trs) == [Took(node, "yes")] && AreMeasures(trs, m) && !SharesRight(trs, m)
  {
    hide StepLabel, Decisions;
    var d := Took(node, "yes");
    trs, m := Study([d]), Measures(map[], map[], map[]);
    StudyHolds([d]);
    assert [d][..0] == [];
    StepOfKeyIs(StepLabel(node), "yes");
    assert ArmKeys([d]) == multiset{ArmKey(d)} && StepLabels([d]) == multiset{StepLabel(node)};
    assert d in Decisions(trs);
  }

  lemma NoCounts(node: string)
    ensures ArmKeys([]) == multiset{} && StepLabels([]) == multiset{} && ArmsAt([], node) == multiset{}
  {
  }

  lemma KeysOfOne(d: Decision)
    ensures ArmKeys([d]) == multiset{ArmKey(d)} && StepLabels([d]) == multiset{StepLabel(d.nodeId)}
  {
    hide *;
    NoCounts(d.nodeId);
    assert [] + [d] == [d];
    KeysSnoc([], d);
  }

  lemma KeysOfTwo(d: Decision, e: Decision)
    ensures ArmKeys([d, e]) == multiset{ArmKey(d)} + multiset{ArmKey(e)}
    ensures StepLabels([d, e]) == multiset{StepLabel(d.nodeId)} + multiset{StepLabel(e.nodeId)}
  {
    hide *;
    KeysOfOne(d);
    assert [d] + [e] == [d, e];
    KeysSnoc([d], e);
  }

  lemma ArmsOfFirst(d: Decision, e: Decision)
    requires d.nodeId != e.nodeId
    ensures ArmsAt([d, e], d.nodeId) == multiset{ArmOf(d)}
  {
    hide *;
    NoCounts(d.nodeId);
    assert [] + [d] == [d] && [d] + [e] == [d, e];
    AtSnoc([], d, d.nodeId);
    AtSnoc([d], e, d.nodeId);
  }

  /** Two branches with one label and different arms each get half of what they should. */
  lemma TwinsShare(node: string, twin: string) returns (trs: seq<Transcript>, m: Measures)
    requires node != twin && StepLabel(node) == StepLabel(twin) && Clean(StepLabel(node))
    ensures Decisions(trs) == [Took(node, "yes"), Took(twin, "no")] && AreMeasures(trs, m) && !SharesRight(trs, m)
  {
    hide StepLabel, Decisions, Clean, StepOfKey;
    var d, e := Took(node, "yes"), Took(twin, "no");
    assert |ArmKey(d)| == |ArmKey(e)| + 1;
    StepIsRead(d);
    StepIsRead(e);
    StudyHolds([d, e]);
    KeysOfTwo(d, e);
    ArmsOfFirst(d, e);
    hide ArmKeys, StepLabels, ArmsAt, ArmKey, ArmOf;
    trs, m := Study([d, e]), Measures(map[], map[ArmKey(d) := 0.5, ArmKey(e) := 0.5], map[]);
    HalfShares([d, e], ArmKey(d), ArmKey(e), StepLabel(node));
    assert d in Decisions(trs) && !IsShare(0.5, 1, 1);
  }

  lemma HalfShares(ds: seq<Decision>, key: string, other: string, stepLabel: string)
    requires key != other && StepOfKey(key) == StepOfKey(other) == stepLabel
    requires ArmKeys(ds) == multiset{key} + multiset{other}
    requires StepLabels(ds) == multiset{stepLabel} + multiset{stepLabel}
    ensures AreShares(ds, map[key := 0.5, other := 0.5])
  {
    hide ArmKeys, StepLabels, StepOfKey;
  }

  /** An arm that is reported can carry another step's traversals: two decisions at `a → b` and one at `a` give the
      arm a share of two. */
  lemma ShareMayExceedOne(d: Decision, e: Decision, m: Measures)
    requires d == Took("a" + ARROW + "b", "yes") && e == Took("a", "no")
    requires AreMeasures(Study([d, d, e]), m)
    ensures ArmKey(d) in m.branchArms && m.branchArms[ArmKey(d)] == 2.0
  {
    LabelsOfWitness(d, e);
    StudyHolds([d, d, e]);
    hide *;
    KeysOfTwo(d, d);
    assert [d, d] + [e] == [d, d, e];
    KeysSnoc([d, d], e);
    SharesOf(Study([d, d, e]), m);
    ForeignShare([d, d, e], m.branchArms, ArmKey(d), ArmKey(e), StepLabel(d.nodeId), StepLabel(e.nodeId));
  }

  lemma LabelsOfWitness(d: Decision, e: Decision)
    requires d == Took("a" + ARROW + "b", "yes") && e == Took("a", "no")
    ensures StepOfKey(ArmKey(d)) == StepLabel(e.nodeId) != StepLabel(d.nodeId) && ArmKey(d) != ArmKey(e)
  {
    hide StepOfKey;
    NotClean();
    StepOfKeyIs(d.nodeId, "yes");
    assert |ArmKey(d)| > |ArmKey(e)|;
  }

  lemma SharesOf(trs: seq<Transcript>, m: Measures)
    requires AreMeasures(trs, m)
    ensures AreShares(Decisions(trs), m.branchArms)
  {
  }

  lemma ForeignShare(
      ds: seq<Decision>, arms: map<string, real>, key: string, other: string, stepLabel: string, foreign: string)
    requires AreShares(ds, arms) && key != other && stepLabel != foreign && StepOfKey(key) == foreign
    requires ArmKeys(ds) == multiset{key} + multiset{key} + multiset{other}
    requires StepLabels(ds) == multiset{stepLabel} + multiset{stepLabel} + multiset{foreign}
    ensures key in arms && arms[key] == 2.0
  {
    hide ArmKeys, StepLabels, StepOfKey;
    assert IsShare(arms[key], 2, 1);
  }

  // ----- Steps and variables

  lemma ReachedStep(trs: seq<Transcript>, steps: seq<string>, stats: seq<StepStat>, stat: StepStat)
      returns (step: string)
    requires stats == StableSort(StepStats(trs, steps), MoreReached) && stat in stats
    ensures step in steps && stat == StepStat(StepLabel(step), |Holders(trs, NodesSeen, step)|)
  {
    SameElements(stats, StepStats(trs, steps));
    var i :| 0 <= i < |steps| && StepStats(trs, steps)[i] == stat;
    step := steps[i];
  }

  /** With distinct interview ids and step labels, each step's reach is the report's interviews over the transcripts. */
  lemma ReachAgrees(
      trs: seq<Transcript>, nodes: seq<string>, steps: seq<string>, names: seq<string>, r: Report, m: Measures,
      stat: StepStat)
    requires IsReport(trs, nodes, steps, names, r) && AreMeasures(trs, m) && DistinctIds(trs) && stat in r.steps
    requires forall s, t :: s in steps && t in steps && StepLabel(s) == StepLabel(t) ==> s == t
    ensures stat.step in m.stepReach && IsShare(m.stepReach[stat.step], stat.interviews, |trs|)
  {
    hide StepLabel, IsShare, IsBranchStat, VariableStats, AreShares;
    var step := ReachedStep(trs, steps, r.steps, stat);
    HoldersCount(trs, NodesSeen, step);
    assert step in Presence(trs, NodesSeen);
    forall s | s in Presence(trs, NodesSeen)
      ensures s in steps
    {
      HoldersCount(trs, NodesSeen, s);
    }
  }

  /** With distinct interview ids, each variable's capture rate is the report's. */
  lemma CaptureAgrees(
      trs: seq<Transcript>, nodes: seq<string>, steps: seq<string>, names: seq<string>, r: Report, m: Measures,
      stat: VariableStat)
    requires IsReport(trs, nodes, steps, names, r) && AreMeasures(trs, m) && DistinctIds(trs) && stat in r.variables
    ensures stat.name in m.variableCapture && m.variableCapture[stat.name] == stat.captureRate
  {
    hide IsBranchStat, StepStats, AreMeasures, StepLabel, Holders, Presence, NamesSeen, IsShare;
    var i :| 0 <= i < |names| && VariableStats(trs, names)[i] == stat;
    assert names[i] == stat.name;
    HoldersCount(trs, NamesSeen, stat.name);
    CaptureRate(trs, m, stat.name);
    SameShare(m.variableCapture[stat.name], stat.captureRate, stat.interviews, |trs|);
  }

  lemma CaptureRate(trs: seq<Transcript>, m: Measures, name: string)
    requires AreMeasures(trs, m) && |Holders(trs, NamesSeen, name)| == Presence(trs, NamesSeen)[name]
    requires Holders(trs, NamesSeen, name) != {}
    ensures trs != [] && name in m.variableCapture
    ensures IsShare(m.variableCapture[name], Presence(trs, NamesSeen)[name], |trs|)
  {
    assert name in Presence(trs, NamesSeen);
    assert trs != [];
    hide IsShare, Presence, Holders, NamesSeen;
    OwnRate(Presence(trs, NamesSeen), |trs|, Itself, m.variableCapture, name);
  }

  /** A key shown by a name no other key is shown by has its own rate. */
  lemma OwnRate(bag: multiset<string>, n: nat, shown: string -> string, rates: map<string, real>, key: string)
    requires AreRates(bag, n, shown, rates) && key in bag
    requires forall k :: k in bag && shown(k) == shown(key) ==> k == key
    ensures shown(key) in rates && IsShare(rates[shown(key)], bag[key], n)
  {
    assert IsRateOf(bag, n, shown, shown(key), rates[shown(key)]);
  }

  lemma SameShare(x: real, y: real, a: nat, n: nat)
    requires IsShare(x, a, n) && IsShare(y, a, n) && n > 0
    ensures x == y
  {
    assert x == a as real / n as real;
    assert y == a as real / n as real;
  }
}

/** `flow coverage`. */
module FlowCoverage {
  import opened Basics
  import opened Sorting
  import opened FlowRecords

  datatype Arm = Arm(name: string, count: nat)

  datatype BranchStat = BranchStat(
    step: string, traversals: nat, usedDefault: nat, usedDefaultRate: real, errorCount: nat,
    arms: seq<Arm>, offeredNotTaken: seq<string>)

  datatype StepStat = StepStat(step: string, interviews: nat)

  datatype VariableStat = VariableStat(name: string, interviews: nat, captureRate: real)

  datatype Report = Report(branches: seq<BranchStat>, steps: seq<StepStat>, variables: seq<VariableStat>)

  /** What is accumulated for a branch. */
  datatype Branch = Branch(
    traversals: nat, usedDefault: nat, errorCount: nat, arms: map<string, nat>, offered: set<string>)

  const NEW_BRANCH := Branch(0, 0, 0, map[], {})

  ghost predicate IsBranch(ds: seq<Decision>, node: string, b: Branch) {
    && b.traversals == |ArmsAt(ds, node)|
    && b.usedDefault == CountAt(ds, node, TookDefault)
    && b.errorCount == CountAt(ds, node, HadError)
    && Tallies(b.arms, ArmsAt(ds, node))
    && b.offered == OfferedAt(ds, node)
  }

  function LookUp(branches: map<string, Branch>, node: string): Branch {
    if node in branches then branches[node] else NEW_BRANCH
  }

  ghost predicate AreBranches(ds: seq<Decision>, branches: map<string, Branch>) {
    && (forall node :: node in branches <==> ArmsAt(ds, node) != multiset{})
    && (forall node :: IsBranch(ds, node, LookUp(branches, node)))
  }

  lemma AtSnoc(ds: seq<Decision>, d: Decision, node: string)
    ensures ArmsAt(ds + [d], node) == ArmsAt(ds, node) + if d.nodeId == node then multiset{ArmOf(d)} else multiset{}
    ensures CountAt(ds + [d], node, TookDefault)
         == CountAt(ds, node, TookDefault) + if d.nodeId == node && d.usedDefault then 1 else 0
    ensures CountAt(ds + [d], node, HadError)
         == CountAt(ds, node, HadError) + if d.nodeId == node && HadError(d) then 1 else 0
    ensures OfferedAt(ds + [d], node) == OfferedAt(ds, node) + if d.nodeId == node then set c | c in d.classes else {}
  {
    assert (ds + [d])[..|ds|] == ds;
  }

  lemma OtherBranch(ds: seq<Decision>, d: Decision, node: string, b: Branch)
    requires IsBranch(ds, node, b) && node != d.nodeId
    ensures IsBranch(ds + [d], node, b) && ArmsAt(ds + [d], node) == ArmsAt(ds, node)
  {
    AtSnoc(ds, d, node);
  }

  /** The branch after one more decision at it. */
  method NoteDecision(b0: Branch, d: Decision, ghost ds: seq<Decision>) returns (b: Branch)
    requires IsBranch(ds, d.nodeId, b0)
    ensures IsBranch(ds + [d], d.nodeId, b) && b.traversals > 0
  {
    AtSnoc(ds, d, d.nodeId);
    hide ArmsAt, CountAt, OfferedAt, Tallies, Bumped;
    b := b0.(traversals := b0.traversals + 1);
    if d.usedDefault {
      b := b.(usedDefault := b.usedDefault + 1);
    }
    if d.error.Some? && d.error.value != "" {
      b := b.(errorCount := b.errorCount + 1);
    }
    b := b.(offered := b.offered + set c | c in d.classes);
    var arm;
    if d.matched.Some? && d.matched.value != "" {
      arm := d.matched.value;
    } else if d.usedDefault {
      arm := "(otherwise)";
    } else {
      arm := "(unmatched)";
    }
    TalliesBump(b.arms, ArmsAt(ds, d.nodeId), arm);
    b := b.(arms := Bumped(b.arms, arm));
  }

  lemma BranchesGrow(ds: seq<Decision>, d: Decision, branches: map<string, Branch>, b: Branch)
    requires AreBranches(ds, branches) && IsBranch(ds + [d], d.nodeId, b) && b.traversals > 0
    ensures AreBranches(ds + [d], branches[d.nodeId := b])
  {
    hide IsBranch, ArmsAt;
    var grown := branches[d.nodeId := b];
    forall node
      ensures IsBranch(ds + [d], node, LookUp(grown, node)) && (node in grown <==> ArmsAt(ds + [d], node) != multiset{})
    {
      if node != d.nodeId {
        OtherBranch(ds, d, node, LookUp(branches, node));
      } else {
        TraversedBranch(ds + [d], node, b);
      }
    }
  }

  lemma TraversedBranch(ds: seq<Decision>, node: string, b: Branch)
    requires IsBranch(ds, node, b) && b.traversals > 0
    ensures ArmsAt(ds, node) != multiset{}
  {
  }

  lemma BranchAt(ds: seq<Decision>, branches: map<string, Branch>, node: string)
    requires AreBranches(ds, branches)
    ensures IsBranch(ds, node, LookUp(branches, node))
  {
  }

  method NoteDecisions(ghost before: seq<Decision>, decisions: seq<Decision>, branches0: map<string, Branch>)
      returns (branches: map<string, Branch>)
    requires AreBranches(before, branches0)
    ensures AreBranches(before + decisions, branches)
  {
    hide AreBranches, IsBranch;
    branches := branches0;
    assert before + decisions[..0] == before && decisions[..|decisions|] == decisions;
    for j := 0 to |decisions|
      invariant AreBranches(before + decisions[..j], branches)
    {
      var d := decisions[j];
      ghost var ds := before + decisions[..j];
      BranchAt(ds, branches, d.nodeId);
      var b := NoteDecision(LookUp(branches, d.nodeId), d, ds);
      BranchesGrow(ds, d, branches, b);
      assert before + decisions[..j + 1] == ds + [d];
      branches := branches[d.nodeId := b];
    }
  }

  // ----- Steps and variables

  /** Which interviews hold each key. */
  ghost predicate AreHolders(trs: seq<Transcript>, keysOf: Transcript -> set<string>, held: map<string, set<string>>) {
    && (forall k :: k in held <==> Holders(trs, keysOf, k) != {})
    && (forall k :: k in held ==> held[k] == Holders(trs, keysOf, k))
  }

  function HeldBy(held: map<string, set<string>>, key: string): set<string> {
    if key in held then held[key] else {}
  }

  /** Mark every key of a transcript as held by its interview. */
  function Mark(held: map<string, set<string>>, keys: set<string>, id: string): map<string, set<string>> {
    map k | k in held.Keys + keys :: if k in keys then HeldBy(held, k) + {id} else HeldBy(held, k)
  }

  lemma MarkOne(held: map<string, set<string>>, keys: set<string>, id: string, key: string)
    ensures Mark(held, {}, id) == held
    ensures Mark(held, keys + {key}, id) == Mark(held, keys, id)[key := HeldBy(Mark(held, keys, id), key) + {id}]
  {
  }

  method NoteNodes(held0: map<string, set<string>>, tr: Transcript) returns (held: map<string, set<string>>)
    ensures held == Mark(held0, NodesSeen(tr), tr.id)
  {
    hide Mark, HeldBy;
    held := held0;
    MarkOne(held0, {}, tr.id, "");
    for j := 0 to |tr.messageNodes|
      invariant held == Mark(held0, NodesIn(tr.messageNodes[..j]), tr.id)
    {
      var m := tr.messageNodes[j];
      assert tr.messageNodes[..j + 1][..j] == tr.messageNodes[..j];
      if m.None? || m.value == "" {
        assert NodesIn(tr.messageNodes[..j + 1]) == NodesIn(tr.messageNodes[..j]);
        continue;
      }
      MarkOne(held0, NodesIn(tr.messageNodes[..j]), tr.id, m.value);
      held := held[m.value := HeldBy(held, m.value) + {tr.id}];
    }
    assert tr.messageNodes[..|tr.messageNodes|] == tr.messageNodes;
  }

  method NoteNames(held0: map<string, set<string>>, tr: Transcript) returns (held: map<string, set<string>>)
    ensures held == Mark(held0, NamesSeen(tr), tr.id)
  {
    hide Mark, HeldBy;
    held := held0;
    ghost var noted: set<string> := {};
    MarkOne(held0, {}, tr.id, "");
    for j := 0 to |tr.variables|
      invariant noted == set v | v in tr.variables[..j]
      invariant held == Mark(held0, noted, tr.id)
    {
      var v := tr.variables[j];
      MarkOne(held0, noted, tr.id, v);
      held := held[v := HeldBy(held, v) + {tr.id}];
      noted := noted + {v};
    }
    assert noted == NamesSeen(tr);
  }

  lemma HoldersGrow(trs: seq<Transcript>, i: nat, keysOf: Transcript -> set<string>, held: map<string, set<string>>)
    requires i < |trs| && AreHolders(trs[..i], keysOf, held)
    ensures AreHolders(trs[..i + 1], keysOf, Mark(held, keysOf(trs[i]), trs[i].id))
  {
    assert trs[..i + 1][..i] == trs[..i];
  }

  // ----- The report

  predicate MoreTaken(a: Arm, b: Arm) { a.count > b.count }
  predicate LabelLess(a: Arm, b: Arm) { StringLess(a.name, b.name) }
  predicate MoreReached(a: StepStat, b: StepStat) { a.interviews > b.interviews }

  /** What the report says of a branch. */
  ghost predicate IsBranchStat(ds: seq<Decision>, node: string, b: BranchStat) {
    var taken := ArmsAt(ds, node);
    && b.step == StepLabel(node)
    && b.traversals == |taken| && b.usedDefault == CountAt(ds, node, TookDefault)
    && b.errorCount == CountAt(ds, node, HadError)
    && IsShare(b.usedDefaultRate, b.usedDefault, b.traversals)
    && OrderedWithin(b.arms, MoreTaken, LabelLess) && AreArms(b.arms, taken)
    && Listed(b.offeredNotTaken)
    && multiset(b.offeredNotTaken) == multiset(set c | c in OfferedAt(ds, node) && c !in taken)
  }

  /** One arm for each label taken, with its count. */
  ghost predicate AreArms(arms: seq<Arm>, taken: multiset<string>) {
    && (forall i, j :: 0 <= i < j < |arms| ==> arms[i].name != arms[j].name)
    && (forall i :: 0 <= i < |arms| ==> arms[i].name in taken && arms[i].count == taken[arms[i].name])
    && (forall name :: name in taken ==> exists i :: 0 <= i < |arms| && arms[i].name == name)
  }

  /** In order, each once. */
  ghost predicate Listed(keys: seq<string>) {
    forall i, j :: 0 <= i < j < |keys| ==> StringLess(keys[i], keys[j])
  }

  ghost predicate IsReport(trs: seq<Transcript>, nodes: seq<string>, steps: seq<string>, names: seq<string>, r: Report)
  {
    var ds := Decisions(trs);
    && Listed(nodes) && (forall n :: n in nodes <==> ArmsAt(ds, n) != multiset{})
    && |r.branches| == |nodes| && (forall i :: 0 <= i < |nodes| ==> IsBranchStat(ds, nodes[i], r.branches[i]))
    && Listed(steps) && (forall s :: s in steps <==> Holders(trs, NodesSeen, s) != {})
    && r.steps == StableSort(StepStats(trs, steps), MoreReached)
    && Listed(names) && (forall n :: n in names <==> Holders(trs, NamesSeen, n) != {})
    && r.variables == VariableStats(trs, names)
  }

  ghost function StepStats(trs: seq<Transcript>, steps: seq<string>): seq<StepStat> {
    seq(|steps|, i requires 0 <= i < |steps| => StepStat(StepLabel(steps[i]), |Holders(trs, NodesSeen, steps[i])|))
  }

  ghost function VariableStats(trs: seq<Transcript>, names: seq<string>): seq<VariableStat> {
    seq(|names|, i requires 0 <= i < |names| =>
      var held := |Holders(trs, NamesSeen, names[i])|;
      VariableStat(names[i], held, if |trs| > 0 then Ratio(held, |trs|) else 0.0))
  }

  /** `buildFlowCoverage`; `nodes`, `steps` and `names` are the keys in the order they are reported on. */
  method BuildFlowCoverage(trs: seq<Transcript>)
      returns (r: Report, nodes: seq<string>, steps: seq<string>, names: seq<string>)
    ensures IsReport(trs, nodes, steps, names, r)
  {
    var branches, reach, vars := Collect(trs);
    var branchKeys := SortedKeys(branches.Keys);
    var branchStats := ReportBranches(Decisions(trs), branchKeys, branches);
    var stepKeys := SortedKeys(reach.Keys);
    var stepStats := ReportSteps(trs, stepKeys, reach);
    var varKeys := SortedKeys(vars.Keys);
    var varStats := ReportVariables(trs, varKeys, vars);
    r := Report(branchStats, stepStats, varStats);
    nodes, steps, names := branchKeys, stepKeys, varKeys;
  }

  /** The pass over the transcripts. */
  method Collect(trs: seq<Transcript>)
      returns (branches: map<string, Branch>, reach: map<string, set<string>>, vars: map<string, set<string>>)
    ensures AreBranches(Decisions(trs), branches)
    ensures AreHolders(trs, NodesSeen, reach) && AreHolders(trs, NamesSeen, vars)
  {
    assert AreBranches([], map[]);
    assert AreHolders([], NodesSeen, map[]) && AreHolders([], NamesSeen, map[]);
    hide AreBranches, AreHolders, Mark;
    branches, reach, vars := map[], map[], map[];
    for i := 0 to |trs|
      invariant AreBranches(Decisions(trs[..i]), branches)
      invariant AreHolders(trs[..i], NodesSeen, reach) && AreHolders(trs[..i], NamesSeen, vars)
    {
      assert trs[..i + 1][..i] == trs[..i];
      branches := NoteDecisions(Decisions(trs[..i]), trs[i].decisions, branches);
      HoldersGrow(trs, i, NodesSeen, reach);
      reach := NoteNodes(reach, trs[i]);
      HoldersGrow(trs, i, NamesSeen, vars);
      vars := NoteNames(vars, trs[i]);
    }
    assert trs[..|trs|] == trs;
  }

  method ReportBranches(ghost ds: seq<Decision>, nodes: seq<string>, branches: map<string, Branch>)
      returns (stats: seq<BranchStat>)
    requires AreBranches(ds, branches) && forall n :: n in nodes ==> n in branches
    ensures |stats| == |nodes| && forall i :: 0 <= i < |nodes| ==> IsBranchStat(ds, nodes[i], stats[i])
  {
    hide IsBranchStat;
    stats := [];
    for i := 0 to |nodes|
      invariant |stats| == i && forall k :: 0 <= k < i ==> IsBranchStat(ds, nodes[k], stats[k])
    {
      BranchAt(ds, branches, nodes[i]);
      TraversedNode(ds, branches, nodes[i]);
      var stat := ReportBranch(ds, nodes[i], branches[nodes[i]]);
      stats := stats + [stat];
    }
  }

  lemma TraversedNode(ds: seq<Decision>, branches: map<string, Branch>, node: string)
    requires AreBranches(ds, branches) && node in branches
    ensures branches[node].traversals > 0 && IsBranch(ds, node, branches[node])
  {
    assert IsBranch(ds, node, LookUp(branches, node));
    var arm :| arm in ArmsAt(ds, node);
  }

  method ReportBranch(ghost ds: seq<Decision>, node: string, b: Branch) returns (stat: BranchStat)
    requires IsBranch(ds, node, b) && b.traversals > 0
    ensures IsBranchStat(ds, node, stat)
  {
    hide ArmsAt, CountAt, OfferedAt, StepLabel, Ratio, AreArms, IsShare;
    var arms := ReportArms(b.arms, ArmsAt(ds, node));
    var notTaken := SortedKeys(set c | c in b.offered && c !in b.arms);
    assert (set c | c in b.offered && c !in b.arms) == set c | c in OfferedAt(ds, node) && c !in ArmsAt(ds, node);
    var rate := 0.0;
    if b.traversals > 0 {
      rate := Ratio(b.usedDefault, b.traversals);
    }
    stat := BranchStat(StepLabel(node), b.traversals, b.usedDefault, rate, b.errorCount, arms, notTaken);
  }

  lemma MoreTakenStrictWeak()
    ensures StrictWeak(MoreTaken)
  {
  }

  lemma ArmsListed(counts: map<string, nat>, taken: multiset<string>, labels: seq<string>, arms: seq<Arm>)
    requires Tallies(counts, taken) && forall k :: k in labels <==> k in counts
    requires forall i, j :: 0 <= i < j < |labels| ==> labels[i] != labels[j]
    requires |arms| == |labels| && forall k :: 0 <= k < |arms| ==> arms[k] == Arm(labels[k], counts[labels[k]])
    ensures AreArms(arms, taken)
  {
    forall name | name in taken
      ensures exists i :: 0 <= i < |arms| && arms[i].name == name
    {
      assert name in labels;
      var i :| 0 <= i < |labels| && labels[i] == name;
      assert arms[i].name == name;
    }
  }

  method ReportArms(counts: map<string, nat>, ghost taken: multiset<string>) returns (arms: seq<Arm>)
    requires Tallies(counts, taken)
    ensures OrderedWithin(arms, MoreTaken, LabelLess) && AreArms(arms, taken)
  {
    hide StringLess;
    var labels := SortedKeys(counts.Keys);
    DistinctList(labels, counts.Keys);
    arms := [];
    for i := 0 to |labels|
      invariant |arms| == i && forall k :: 0 <= k < i ==> arms[k] == Arm(labels[k], counts[labels[k]])
    {
      arms := arms + [Arm(labels[i], counts[labels[i]])];
    }
    ArmsListed(counts, taken, labels, arms);
    assert forall i, j :: 0 <= i < j < |arms| ==> LabelLess(arms[i], arms[j]);
    hide AreArms, LabelLess;
    ArmsSorted(arms, taken);
    MoreTakenStrictWeak();
    StableSortWithin(arms, MoreTaken, LabelLess);
    arms := StableSort(arms, MoreTaken);
  }

  /** Sorting the arms keeps them one to a label. */
  lemma ArmsSorted(arms: seq<Arm>, taken: multiset<string>)
    requires AreArms(arms, taken)
    ensures AreArms(StableSort(arms, MoreTaken), taken)
  {
    var sorted := StableSort(arms, MoreTaken);
    SameElements(sorted, arms);
    DistinctIsSet(arms);
    DistinctList(sorted, set a | a in arms);
    forall i | 0 <= i < |sorted|
      ensures sorted[i].name in taken && sorted[i].count == taken[sorted[i].name]
    {
      assert sorted[i] in arms;
    }
    forall name | name in taken
      ensures exists i :: 0 <= i < |sorted| && sorted[i].name == name
    {
      var i :| 0 <= i < |arms| && arms[i].name == name;
      assert arms[i] in sorted;
    }
  }

  method ReportSteps(ghost trs: seq<Transcript>, steps: seq<string>, reach: map<string, set<string>>)
      returns (stats: seq<StepStat>)
    requires AreHolders(trs, NodesSeen, reach) && forall s :: s in steps ==> s in reach
    ensures stats == StableSort(StepStats(trs, steps), MoreReached)
  {
    hide StepLabel, Holders, NodesSeen;
    stats := [];
    for i := 0 to |steps|
      invariant stats == StepStats(trs, steps)[..i]
    {
      stats := stats + [StepStat(StepLabel(steps[i]), |reach[steps[i]]|)];
    }
    assert stats == StepStats(trs, steps);
    stats := StableSort(stats, MoreReached);
  }

  method ReportVariables(trs: seq<Transcript>, names: seq<string>, vars: map<string, set<string>>)
      returns (stats: seq<VariableStat>)
    requires AreHolders(trs, NamesSeen, vars) && forall n :: n in names ==> n in vars
    ensures stats == VariableStats(trs, names)
  {
    hide Holders, NamesSeen;
    stats := [];
    for i := 0 to |names|
      invariant |stats| == i && forall k :: 0 <= k < i ==> stats[k] == VariableStats(trs, names)[k]
    {
      assert vars[names[i]] == Holders(trs, NamesSeen, names[i]);
      var held := |vars[names[i]]|;
      var rate := 0.0;
      if |trs| > 0 {
        rate := Ratio(held, |trs|);
      }
      stats := stats + [VariableStat(names[i], held, rate)];
    }
  }

  // ----- What the report counts

  /** A branch's own numbers are those of its decisions. */
  lemma BranchIsCounted(
      ds: seq<Decision>, node: string, b: BranchStat, here: Decision -> bool, byDefault: Decision -> bool,
      inError: Decision -> bool)
    requires IsBranchStat(ds, node, b)
    requires forall d :: here(d) <==> d.nodeId == node
    requires forall d :: byDefault(d) <==> d.nodeId == node && d.usedDefault
    requires forall d :: inError(d) <==> d.nodeId == node && d.error.Some? && d.error.value != ""
    ensures b.traversals == |IndicesOf(ds, here)| && b.usedDefault == |IndicesOf(ds, byDefault)|
    ensures b.errorCount == |IndicesOf(ds, inError)|
  {
    hide IsShare, ArmsAt, CountAt, AreArms, OfferedAt;
    TraversalsAreCounted(ds, node, here);
    CountedAt(ds, node, TookDefault, byDefault);
    CountedAt(ds, node, HadError, inError);
  }

  lemma RateIsReported(ds: seq<Decision>, node: string, b: BranchStat)
    requires IsBranchStat(ds, node, b)
    ensures b.usedDefaultRate * b.traversals as real == b.usedDefault as real
  {
    hide ArmsAt, CountAt, AreArms, OfferedAt, OrderedWithin, Listed;
    assert IsShare(b.usedDefaultRate, b.usedDefault, b.traversals);
  }

  /** An arm counts the decisions that took it; every arm taken is listed, the most taken first, then by label. */
  lemma ArmsAreReported(ds: seq<Decision>, node: string, b: BranchStat, name: string, taken: Decision -> bool)
    requires IsBranchStat(ds, node, b)
    requires forall d :: taken(d) <==> d.nodeId == node && TookArm(d, name)
    ensures forall arm :: arm in b.arms && arm.name == name ==> arm.count == |IndicesOf(ds, taken)| > 0
    ensures (exists d :: d in ds && taken(d)) ==> exists arm :: arm in b.arms && arm.name == name
    ensures forall i, j :: 0 <= i < j < |b.arms| ==>
      || b.arms[i].count > b.arms[j].count
      || (b.arms[i].count == b.arms[j].count && StringLess(b.arms[i].name, b.arms[j].name))
  {
    hide TookArm, ArmsAt, StringLess;
    ArmsAreCounted(ds, node, name, taken);
    if d :| d in ds && taken(d) {
      var k :| 0 <= k < |ds| && ds[k] == d;
      assert k in IndicesOf(ds, taken);
      assert name in ArmsAt(ds, node);
      var i :| 0 <= i < |b.arms| && b.arms[i].name == name;
      assert b.arms[i] in b.arms;
    }
  }

  /** A class is listed as not taken if some decision offered it and none took it. */
  lemma NotTakenIff(ds: seq<Decision>, node: string, b: BranchStat, class_: string, taken: Decision -> bool)
    requires IsBranchStat(ds, node, b)
    requires forall d :: taken(d) <==> d.nodeId == node && TookArm(d, class_)
    ensures class_ in b.offeredNotTaken <==>
      && (exists d :: d in ds && d.nodeId == node && class_ in d.classes)
      && !(exists d :: d in ds && taken(d))
  {
    hide TookArm, ArmsAt, StringLess;
    OfferedIff(ds, node, class_);
    ArmsAreCounted(ds, node, class_, taken);
    assert class_ in b.offeredNotTaken <==> class_ in multiset(b.offeredNotTaken);
    if d :| d in ds && taken(d) {
      var k :| 0 <= k < |ds| && ds[k] == d;
      assert k in IndicesOf(ds, taken);
    } else {
      assert IndicesOf(ds, taken) == {};
    }
  }

  /** Steps are listed by how many interviews reached them, then by key. */
  lemma StepsAreReported(
      trs: seq<Transcript>, nodes: seq<string>, steps: seq<string>, names: seq<string>, r: Report)
      returns (keys: seq<string>)
    requires IsReport(trs, nodes, steps, names, r)
    ensures multiset(keys) == multiset(steps) && |r.steps| == |keys|
    ensures forall i :: 0 <= i < |keys| ==>
      r.steps[i] == StepStat(StepLabel(keys[i]), |Holders(trs, NodesSeen, keys[i])|)
    ensures forall i, j :: 0 <= i < j < |keys| ==>
      || r.steps[i].interviews > r.steps[j].interviews
      || (r.steps[i].interviews == r.steps[j].interviews && StringLess(keys[i], keys[j]))
  {
    hide *;
    var stats := StepsOf(trs, nodes, steps, names, r);
    keys := StepsSorted(trs, steps, stats);
  }

  lemma StepsOf(trs: seq<Transcript>, nodes: seq<string>, steps: seq<string>, names: seq<string>, r: Report)
      returns (stats: seq<StepStat>)
    requires IsReport(trs, nodes, steps, names, r)
    ensures Listed(steps) && stats == r.steps == StableSort(StepStats(trs, steps), MoreReached)
  {
    hide Listed, StableSort, StepStats, ArmsAt, IsBranchStat, Holders, VariableStats;
    stats := r.steps;
  }

  lemma StepsSorted(trs: seq<Transcript>, steps: seq<string>, stats: seq<StepStat>) returns (keys: seq<string>)
    requires Listed(steps) && stats == StableSort(StepStats(trs, steps), MoreReached)
    ensures multiset(keys) == multiset(steps) && |stats| == |keys|
    ensures forall i :: 0 <= i < |keys| ==>
      stats[i] == StepStat(StepLabel(keys[i]), |Holders(trs, NodesSeen, keys[i])|)
    ensures forall i, j :: 0 <= i < j < |keys| ==>
      || stats[i].interviews > stats[j].interviews
      || (stats[i].interviews == stats[j].interviews && StringLess(keys[i], keys[j]))
  {
    hide *;
    keys := KeysByReach(trs, steps);
    SortedStats(trs, steps, keys);
  }

  lemma KeysByReach(trs: seq<Transcript>, steps: seq<string>) returns (keys: seq<string>)
    requires Listed(steps)
    ensures keys == StableSort(steps, MoreHolders(trs)) && multiset(keys) == multiset(steps)
    ensures forall i, j :: 0 <= i < j < |keys| ==>
      || |Holders(trs, NodesSeen, keys[i])| > |Holders(trs, NodesSeen, keys[j])|
      || (|Holders(trs, NodesSeen, keys[i])| == |Holders(trs, NodesSeen, keys[j])| && StringLess(keys[i], keys[j]))
  {
    hide Holders, NodesSeen, StringLess, StableSort;
    keys := StableSort(steps, MoreHolders(trs));
    StableSortWithin(steps, MoreHolders(trs), StringLess);
    assert forall i, j :: 0 <= i < j < |keys| ==> Before(keys[i], keys[j], MoreHolders(trs), StringLess);
  }

  ghost function MoreHolders(trs: seq<Transcript>): (string, string) -> bool {
    (a: string, b: string) => |Holders(trs, NodesSeen, a)| > |Holders(trs, NodesSeen, b)|
  }

  ghost function ShownStep(trs: seq<Transcript>): string -> StepStat {
    (k: string) => StepStat(StepLabel(k), |Holders(trs, NodesSeen, k)|)
  }

  /** The steps sorted by reach are the sorted keys, shown. */
  lemma SortedStats(trs: seq<Transcript>, steps: seq<string>, keys: seq<string>)
    requires keys == StableSort(steps, MoreHolders(trs))
    ensures
      var stats := StableSort(StepStats(trs, steps), MoreReached);
      |stats| == |keys| && forall i :: 0 <= i < |keys| ==>
        stats[i] == StepStat(StepLabel(keys[i]), |Holders(trs, NodesSeen, keys[i])|)
  {
    hide StepLabel, Holders, NodesSeen, StableSort, Shown;
    ShownAt(steps, ShownStep(trs));
    assert Shown(steps, ShownStep(trs)) == StepStats(trs, steps);
    SortShown(steps, ShownStep(trs), MoreHolders(trs), MoreReached);
    ShownAt(keys, ShownStep(trs));
  }

  /** What is reported of steps and variables are interviews. */
  lemma InterviewsAreReported(trs: seq<Transcript>, key: string, id: string)
    ensures id in Holders(trs, NodesSeen, key) <==>
      exists tr :: tr in trs && tr.id == id && key != "" && Some(key) in tr.messageNodes
    ensures id in Holders(trs, NamesSeen, key) <==> exists tr :: tr in trs && tr.id == id && key in tr.variables
  {
    HoldersIff(trs, NodesSeen, key, id);
    HoldersIff(trs, NamesSeen, key, id);
    forall tr: Transcript
      ensures key in NodesSeen(tr) <==> key != "" && Some(key) in tr.messageNodes
    {
      NodesIff(tr.messageNodes, key);
    }
    hide Holders, NodesIn;
  }

  lemma VariablesAreReported(
      trs: seq<Transcript>, nodes: seq<string>, steps: seq<string>, names: seq<string>, r: Report, i: nat)
    requires IsReport(trs, nodes, steps, names, r) && i < |r.variables|
    ensures |names| == |r.variables| && r.variables[i].name == names[i]
    ensures r.variables[i].interviews == |Holders(trs, NamesSeen, names[i])|
    ensures trs != [] ==> r.variables[i].captureRate * |trs| as real == r.variables[i].interviews as real
  {
    hide *;
    var stats := VariablesOf(trs, nodes, steps, names, r);
    VariableIs(trs, names, i);
    if trs != [] {
      ShareOf(stats[i].captureRate, stats[i].interviews, |trs|);
    }
  }

  lemma VariablesOf(trs: seq<Transcript>, nodes: seq<string>, steps: seq<string>, names: seq<string>, r: Report)
      returns (stats: seq<VariableStat>)
    requires IsReport(trs, nodes, steps, names, r)
    ensures stats == r.variables == VariableStats(trs, names)
  {
    hide Listed, StableSort, StepStats, ArmsAt, IsBranchStat, Holders, VariableStats;
    stats := r.variables;
  }

  lemma VariableIs(trs: seq<Transcript>, names: seq<string>, i: nat)
    requires i < |VariableStats(trs, names)|
    ensures |names| == |VariableStats(trs, names)|
    ensures
      var v := VariableStats(trs, names)[i];
      && v.name == names[i] && v.interviews == |Holders(trs, NamesSeen, names[i])|
      && (trs != [] ==> IsShare(v.captureRate, v.interviews, |trs|))
  {
    hide Holders, IsShare, Ratio;
  }

  lemma ShareOf(r: real, a: nat, n: nat)
    requires IsShare(r, a, n)
    ensures r * n as real == a as real
  {
  }

  // ----- The counts add up

  function TotalCount(arms: seq<Arm>): nat {
    if arms == [] then 0 else TotalCount(arms[..|arms| - 1]) + arms[|arms| - 1].count
  }

  function WithoutLabel(taken: multiset<string>, name: string): (rest: multiset<string>)
    ensures |taken| == |rest| + taken[name]
  {
    var rest := taken[name := 0];
    assert taken == rest[name := taken[name]];
    rest
  }

  /** Every traversal is counted in exactly one arm. */
  lemma {:induction false} ArmsAddUp(arms: seq<Arm>, taken: multiset<string>)
    requires AreArms(arms, taken)
    ensures TotalCount(arms) == |taken|
  {
    if arms != [] {
      var front, last := arms[..|arms| - 1], arms[|arms| - 1];
      var rest := WithoutLabel(taken, last.name);
      forall name | name in rest
        ensures exists i :: 0 <= i < |front| && front[i].name == name
      {
        var i :| 0 <= i < |arms| && arms[i].name == name;
        assert front[i].name == name;
      }
      ArmsAddUp(front, rest);
    }
  }

  /** In the report, the arms of a branch add up to its traversals, and an offered class is listed as not taken
      exactly when no arm has it. */
  lemma BranchAddsUp(ds: seq<Decision>, node: string, b: BranchStat)
    requires IsBranchStat(ds, node, b)
    ensures TotalCount(b.arms) == b.traversals
    ensures forall c :: c in OfferedAt(ds, node) ==>
      (c in b.offeredNotTaken <==> forall i :: 0 <= i < |b.arms| ==> b.arms[i].name != c)
  {
    ArmsAddUp(b.arms, ArmsAt(ds, node));
    assert forall c :: c in b.offeredNotTaken <==> c in multiset(b.offeredNotTaken);
  }
}

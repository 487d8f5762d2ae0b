/** The cohort measures of `rehearse diff`. */
module CohortMeasures {
  import opened Basics
  import opened FlowRecords

  const ARROW := " \U{2192} "

  datatype Measures = Measures(
    stepReach: map<string, real>, branchArms: map<string, real>, variableCapture: map<string, real>)

  predicate OccursAt(s: string, sub: string, i: nat) {
    i + |sub| <= |s| && s[i..i + |sub|] == sub
  }

  /** `strings.Index`: where `sub` first occurs in `s` from `i` on, or -1. */
  function IndexOf(s: string, sub: string, i: nat := 0): (r: int)
    ensures r == -1 || (i <= r && OccursAt(s, sub, r))
    ensures forall k: nat :: i <= k && (r == -1 || k < r) ==> !OccursAt(s, sub, k)
    decreases |s| - i
  {
    if OccursAt(s, sub, i) then i
    else if i >= |s| then -1
    else IndexOf(s, sub, i + 1)
  }

  /** What an arm is keyed by: the label of its step and its own. */
  function ArmKey(d: Decision): string {
    StepLabel(d.nodeId) + ARROW + ArmOf(d)
  }

  /** The step an arm's key is taken to belong to. */
  function StepOfKey(key: string): string {
    var i := IndexOf(key, ARROW);
    if i >= 0 then key[..i] else key
  }

  function ArmKeys(ds: seq<Decision>): multiset<string> {
    if ds == [] then multiset{} else ArmKeys(ds[..|ds| - 1]) + multiset{ArmKey(ds[|ds| - 1])}
  }

  function StepLabels(ds: seq<Decision>): multiset<string> {
    if ds == [] then multiset{} else StepLabels(ds[..|ds| - 1]) + multiset{StepLabel(ds[|ds| - 1].nodeId)}
  }

  /** Each arm's share of the traversals of the step its key seems to name. */
  ghost predicate AreShares(ds: seq<Decision>, arms: map<string, real>) {
    && (forall k :: k in arms <==> k in ArmKeys(ds) && StepLabels(ds)[StepOfKey(k)] > 0)
    && (forall k :: k in arms ==> IsShare(arms[k], ArmKeys(ds)[k], StepLabels(ds)[StepOfKey(k)]))
  }

  /** Variables are shown by their own names. */
  function Itself(name: string): string { name }

  /** `rate` is that of some key shown as `s`. */
  ghost predicate IsRateOf(bag: multiset<string>, n: nat, shown: string -> string, s: string, rate: real) {
    exists k :: k in bag && shown(k) == s && IsShare(rate, bag[k], n)
  }

  /** Each key's share of the transcripts, under the name it is shown by. */
  ghost predicate AreRates(bag: multiset<string>, n: nat, shown: string -> string, rates: map<string, real>) {
    && (forall k :: k in bag ==> shown(k) in rates)
    && (forall s :: s in rates ==> IsRateOf(bag, n, shown, s, rates[s]))
  }

  ghost predicate AreMeasures(trs: seq<Transcript>, m: Measures) {
    && AreShares(Decisions(trs), m.branchArms)
    && AreRates(Presence(trs, NodesSeen), |trs|, StepLabel, m.stepReach)
    && AreRates(Presence(trs, NamesSeen), |trs|, Itself, m.variableCapture)
  }

  /** `measureCohort`, as far as it reads transcripts. */
  method MeasureCohort(trs: seq<Transcript>) returns (m: Measures)
    ensures AreMeasures(trs, m)
  {
    if |trs| == 0 {
      return Measures(map[], map[], map[]);
    }
    var stepSeen, armCount, armTotalByNode, varSeen := CountCohort(trs);
    var stepReach := Rates(stepSeen, Presence(trs, NodesSeen), |trs|, StepLabel);
    var branchArms := Shares(Decisions(trs), armCount, armTotalByNode);
    var variableCapture := Rates(varSeen, Presence(trs, NamesSeen), |trs|, Itself);
    m := Measures(stepReach, branchArms, variableCapture);
  }

  method CountCohort(trs: seq<Transcript>)
      returns (
        stepSeen: map<string, nat>, armCount: map<string, nat>, armTotalByNode: map<string, nat>,
        varSeen: map<string, nat>)
    ensures Tallies(stepSeen, Presence(trs, NodesSeen)) && Tallies(varSeen, Presence(trs, NamesSeen))
    ensures Tallies(armCount, ArmKeys(Decisions(trs))) && Tallies(armTotalByNode, StepLabels(Decisions(trs)))
  {
    hide Tallies, ArmKeys, StepLabels;
    stepSeen, armCount, armTotalByNode, varSeen := map[], map[], map[], map[];
    NothingCounted(trs);
    for i := 0 to |trs|
      invariant Tallies(stepSeen, Presence(trs[..i], NodesSeen)) && Tallies(varSeen, Presence(trs[..i], NamesSeen))
      invariant Tallies(armCount, ArmKeys(Decisions(trs[..i])))
        && Tallies(armTotalByNode, StepLabels(Decisions(trs[..i])))
    {
      assert trs[..i + 1][..i] == trs[..i];
      stepSeen := BumpAll(stepSeen, NodesSeen(trs[i]), Presence(trs[..i], NodesSeen));
      armCount, armTotalByNode := CountArms(Decisions(trs[..i]), trs[i].decisions, armCount, armTotalByNode);
      varSeen := BumpAll(varSeen, NamesSeen(trs[i]), Presence(trs[..i], NamesSeen));
    }
  }

  lemma NothingCounted(trs: seq<Transcript>)
    ensures Tallies(map[], Presence(trs[..0], NodesSeen)) && Tallies(map[], Presence(trs[..0], NamesSeen))
    ensures Tallies(map[], ArmKeys(Decisions(trs[..0]))) && Tallies(map[], StepLabels(Decisions(trs[..0])))
    ensures trs[..|trs|] == trs
  {
  }

  /** One more transcript has these keys. */
  method BumpAll(counts0: map<string, nat>, keys: set<string>, ghost bag: multiset<string>)
      returns (counts: map<string, nat>)
    requires Tallies(counts0, bag)
    ensures Tallies(counts, bag + multiset(keys))
  {
    counts := counts0;
    var pending := keys;
    ghost var counted: multiset<string> := bag;
    while pending != {}
      invariant Tallies(counts, counted) && counted + multiset(pending) == bag + multiset(keys)
      decreases pending
    {
      var k :| k in pending;
      TalliesBump(counts, counted, k);
      counts := Bumped(counts, k);
      counted := counted + multiset{k};
      pending := pending - {k};
    }
  }

  lemma KeysSnoc(ds: seq<Decision>, d: Decision)
    ensures ArmKeys(ds + [d]) == ArmKeys(ds) + multiset{ArmKey(d)}
    ensures StepLabels(ds + [d]) == StepLabels(ds) + multiset{StepLabel(d.nodeId)}
  {
    assert (ds + [d])[..|ds|] == ds;
  }

  method CountArms(
      ghost before: seq<Decision>, decisions: seq<Decision>, armCount0: map<string, nat>, totals0: map<string, nat>)
      returns (armCount: map<string, nat>, totals: map<string, nat>)
    requires Tallies(armCount0, ArmKeys(before)) && Tallies(totals0, StepLabels(before))
    ensures Tallies(armCount, ArmKeys(before + decisions)) && Tallies(totals, StepLabels(before + decisions))
  {
    hide Tallies, StepLabel, ArmKeys, StepLabels, Bumped;
    armCount, totals := armCount0, totals0;
    assert before + decisions[..0] == before && decisions[..|decisions|] == decisions;
    for j := 0 to |decisions|
      invariant Tallies(armCount, ArmKeys(before + decisions[..j]))
        && Tallies(totals, StepLabels(before + decisions[..j]))
    {
      var d := decisions[j];
      var arm := "(unmatched)";
      if d.matched.Some? && d.matched.value != "" {
        arm := d.matched.value;
      } else if d.usedDefault {
        arm := "(otherwise)";
      }
      var node := StepLabel(d.nodeId);
      ghost var ds := before + decisions[..j];
      assert before + decisions[..j + 1] == ds + [d];
      KeysSnoc(ds, d);
      TalliesBump(armCount, ArmKeys(ds), node + ARROW + arm);
      TalliesBump(totals, StepLabels(ds), node);
      armCount := Bumped(armCount, node + ARROW + arm);
      totals := Bumped(totals, node);
    }
  }

  lemma ARate(bag: multiset<string>, n: nat, shown: string -> string, k: string, rate: real)
    requires k in bag && IsShare(rate, bag[k], n)
    ensures IsRateOf(bag, n, shown, shown(k), rate)
  {
  }

  method Rates(counts: map<string, nat>, ghost bag: multiset<string>, n: nat, shown: string -> string)
      returns (rates: map<string, real>)
    requires Tallies(counts, bag) && n > 0
    ensures AreRates(bag, n, shown, rates)
  {
    hide Ratio, IsShare, IsRateOf;
    rates := map[];
    var pending := counts.Keys;
    while pending != {}
      invariant pending <= counts.Keys
      invariant forall k :: k in counts && k !in pending ==> shown(k) in rates
      invariant forall s :: s in rates ==> IsRateOf(bag, n, shown, s, rates[s])
      decreases pending
    {
      var k :| k in pending;
      pending := pending - {k};
      ARate(bag, n, shown, k, Ratio(counts[k], n));
      rates := rates[shown(k) := Ratio(counts[k], n)];
    }
  }

  method Shares(ghost ds: seq<Decision>, armCount: map<string, nat>, totals: map<string, nat>)
      returns (arms: map<string, real>)
    requires Tallies(armCount, ArmKeys(ds)) && Tallies(totals, StepLabels(ds))
    ensures AreShares(ds, arms)
  {
    hide ArmKeys, StepLabels, StepOfKey, Ratio, IsShare;
    arms := map[];
    var pending := armCount.Keys;
    while pending != {}
      invariant pending <= armCount.Keys
      invariant forall k :: k in arms <==> k in armCount && k !in pending && StepLabels(ds)[StepOfKey(k)] > 0
      invariant forall k :: k in arms ==> IsShare(arms[k], ArmKeys(ds)[k], StepLabels(ds)[StepOfKey(k)])
      decreases pending
    {
      var k :| k in pending;
      pending := pending - {k};
      var node := StepOfKey(k);
      var total := if node in totals then totals[node] else 0;
      if total > 0 {
        arms := arms[k := Ratio(armCount[k], total)];
      }
    }
  }

  // ----- What the measures count

  /** The decision is counted under `key`. */
  ghost predicate CountsUnder(d: Decision, key: string) {
    exists name :: TookArm(d, name) && key == StepLabel(d.nodeId) + ARROW + name
  }

  lemma {:induction false} KeysAreCounted(ds: seq<Decision>, key: string, under: Decision -> bool)
    requires forall d :: under(d) <==> CountsUnder(d, key)
    ensures ArmKeys(ds)[key] == |IndicesOf(ds, under)|
  {
    hide ArmOf, StepLabel, TookArm;
    if ds == [] {
      assert IndicesOf(ds, under) == {};
    } else {
      var front, last := ds[..|ds| - 1], ds[|ds| - 1];
      assert ds == front + [last];
      KeysAreCounted(front, key, under);
      IndicesSnoc(front, last, under);
      KeyIff(last, key);
      hide ArmKey, CountsUnder;
    }
  }

  lemma KeyIff(d: Decision, key: string)
    ensures ArmKey(d) == key <==> CountsUnder(d, key)
  {
    hide TookArm, ArmOf, StepLabel;
    ArmOfIff(d, ArmOf(d));
    forall name
      ensures ArmOf(d) == name <==> TookArm(d, name)
    {
      ArmOfIff(d, name);
    }
  }

  lemma {:induction false} LabelsAreCounted(ds: seq<Decision>, stepLabel: string, at: Decision -> bool)
    requires forall d :: at(d) <==> StepLabel(d.nodeId) == stepLabel
    ensures StepLabels(ds)[stepLabel] == |IndicesOf(ds, at)|
  {
    hide StepLabel;
    if ds == [] {
      assert IndicesOf(ds, at) == {};
    } else {
      var front, last := ds[..|ds| - 1], ds[|ds| - 1];
      assert ds == front + [last];
      LabelsAreCounted(front, stepLabel, at);
      IndicesSnoc(front, last, at);
    }
  }

  /** A share is of the decisions counted under its key, over those whose step's label is the key up to its first
      arrow. */
  lemma SharesAreCounted(
      trs: seq<Transcript>, m: Measures, key: string, under: Decision -> bool, at: Decision -> bool)
    requires AreMeasures(trs, m) && key in m.branchArms
    requires forall d :: under(d) <==> CountsUnder(d, key)
    requires forall d :: at(d) <==> StepLabel(d.nodeId) == StepOfKey(key)
    ensures
      var counted, total := |IndicesOf(Decisions(trs), under)|, |IndicesOf(Decisions(trs), at)|;
      counted > 0 && total > 0 && m.branchArms[key] * total as real == counted as real
  {
    hide StepLabel, CountsUnder, StepOfKey, Decisions, AreRates, IsShare, ArmKeys, StepLabels;
    KeysAreCounted(Decisions(trs), key, under);
    LabelsAreCounted(Decisions(trs), StepOfKey(key), at);
    ShareOf(m.branchArms[key], ArmKeys(Decisions(trs))[key], StepLabels(Decisions(trs))[StepOfKey(key)]);
  }

  lemma ShareOf(r: real, a: nat, n: nat)
    requires IsShare(r, a, n)
    ensures r * n as real == a as real
  {
  }

  /** A step's reach is the part of the transcripts with a message at some node of its label; a variable's capture rate
      the part that has it. */
  lemma RatesAreCounted(trs: seq<Transcript>, m: Measures, shown: string, has: Transcript -> bool)
    requires AreMeasures(trs, m) && forall tr :: has(tr) <==> shown in tr.variables
    ensures shown in m.variableCapture ==>
      m.variableCapture[shown] * |trs| as real == |IndicesOf(trs, has)| as real && IndicesOf(trs, has) != {}
    ensures (exists tr :: tr in trs && has(tr)) ==> shown in m.variableCapture
  {
    hide AreShares, Presence, Decisions;
    PresenceIsCounted(trs, NamesSeen, shown, has);
    if shown in m.variableCapture {
      assert IsRateOf(Presence(trs, NamesSeen), |trs|, Itself, shown, m.variableCapture[shown]);
      assert |IndicesOf(trs, has)| > 0;
    }
    if tr :| tr in trs && has(tr) {
      var k :| 0 <= k < |trs| && trs[k] == tr;
      assert k in IndicesOf(trs, has);
      assert Itself(shown) in m.variableCapture;
    }
  }

  lemma ReachIsCounted(trs: seq<Transcript>, m: Measures, shown: string) returns (key: string)
    requires AreMeasures(trs, m) && shown in m.stepReach
    ensures StepLabel(key) == shown
    ensures forall has: Transcript -> bool | (forall tr :: has(tr) <==> key != "" && Some(key) in tr.messageNodes) ::
      m.stepReach[shown] * |trs| as real == |IndicesOf(trs, has)| as real
  {
    hide AreShares, Presence, Decisions, StepLabel;
    assert IsRateOf(Presence(trs, NodesSeen), |trs|, StepLabel, shown, m.stepReach[shown]);
    key :| key in Presence(trs, NodesSeen) && StepLabel(key) == shown
      && IsShare(m.stepReach[shown], Presence(trs, NodesSeen)[key], |trs|);
    forall has: Transcript -> bool | (forall tr :: has(tr) <==> key != "" && Some(key) in tr.messageNodes)
      ensures m.stepReach[shown] * |trs| as real == |IndicesOf(trs, has)| as real
    {
      forall tr: Transcript
        ensures has(tr) <==> key in NodesSeen(tr)
      {
        NodesIff(tr.messageNodes, key);
      }
      PresenceIsCounted(trs, NodesSeen, key, has);
    }
  }
}

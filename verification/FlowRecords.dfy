/** What both study-wide reports read off a transcript, and what it adds up to. */
module FlowRecords {
  import opened Basics
  import opened Numerals

  /** One branch decision; the other fields of the record do not matter here. */
  datatype Decision = Decision(
    nodeId: string, classes: seq<string>, matched: Option<string>, usedDefault: bool, error: Option<string>)

  /** A transcript: the node of each message that names one, its decisions, and the names of its variables. */
  datatype Transcript = Transcript(
    id: string, messageNodes: seq<Option<string>>, decisions: seq<Decision>, variables: seq<string>)

  /** The arm a decision took. */
  function ArmOf(d: Decision): string {
    if d.matched.GetOr("") != "" then d.matched.value
    else if d.usedDefault then "(otherwise)"
    else "(unmatched)"
  }

  predicate LooksCompiled(id: string) {
    |id| >= 2 && id[0] == 'n' && AllDigits(id[1..])
  }

  /** `deuteroStepLabel`. */
  function StepLabel(nodeId: string): string {
    if nodeId == "" then "(unnamed step)"
    else if LooksCompiled(nodeId) then nodeId + " (compiled id \U{2014} not an authored step name)"
    else nodeId
  }

  function Decisions(trs: seq<Transcript>): seq<Decision> {
    if trs == [] then [] else Decisions(trs[..|trs| - 1]) + trs[|trs| - 1].decisions
  }

  /** The arms taken at a node, each as often as it was taken. */
  function ArmsAt(ds: seq<Decision>, node: string): multiset<string> {
    if ds == [] then multiset{}
    else
      var d := ds[|ds| - 1];
      ArmsAt(ds[..|ds| - 1], node) + if d.nodeId == node then multiset{ArmOf(d)} else multiset{}
  }

  function CountAt(ds: seq<Decision>, node: string, p: Decision -> bool): nat {
    if ds == [] then 0
    else
      var d := ds[|ds| - 1];
      CountAt(ds[..|ds| - 1], node, p) + if d.nodeId == node && p(d) then 1 else 0
  }

  predicate TookDefault(d: Decision) { d.usedDefault }
  predicate HadError(d: Decision) { d.error.GetOr("") != "" }

  function OfferedAt(ds: seq<Decision>, node: string): set<string> {
    if ds == [] then {}
    else
      var d := ds[|ds| - 1];
      OfferedAt(ds[..|ds| - 1], node) + if d.nodeId == node then set c | c in d.classes else {}
  }

  // ----- Presence of a key in transcripts

  function NodesIn(nodes: seq<Option<string>>): set<string> {
    if nodes == [] then {}
    else
      var last := nodes[|nodes| - 1].GetOr("");
      NodesIn(nodes[..|nodes| - 1]) + if last != "" then {last} else {}
  }

  function NodesSeen(tr: Transcript): set<string> {
    NodesIn(tr.messageNodes)
  }

  function NamesSeen(tr: Transcript): set<string> {
    set v | v in tr.variables
  }

  /** Each key, as often as there are transcripts with it. */
  function Presence(trs: seq<Transcript>, keysOf: Transcript -> set<string>): multiset<string> {
    if trs == [] then multiset{} else Presence(trs[..|trs| - 1], keysOf) + multiset(keysOf(trs[|trs| - 1]))
  }

  /** The interviews whose transcript has the key. */
  function Holders(trs: seq<Transcript>, keysOf: Transcript -> set<string>, key: string): set<string> {
    if trs == [] then {}
    else
      var tr := trs[|trs| - 1];
      Holders(trs[..|trs| - 1], keysOf, key) + if key in keysOf(tr) then {tr.id} else {}
  }

  ghost predicate DistinctIds(trs: seq<Transcript>) {
    forall i, j :: 0 <= i < j < |trs| ==> trs[i].id != trs[j].id
  }

  lemma {:induction false} HoldersAreAmong(
      trs: seq<Transcript>, keysOf: Transcript -> set<string>, key: string, id: string)
    requires id in Holders(trs, keysOf, key)
    ensures exists i :: 0 <= i < |trs| && trs[i].id == id
  {
    var front := trs[..|trs| - 1];
    if id in Holders(front, keysOf, key) {
      HoldersAreAmong(front, keysOf, key, id);
    }
  }

  /** When ids are distinct, counting interviews and counting transcripts is the same. */
  lemma {:induction false} HoldersCount(trs: seq<Transcript>, keysOf: Transcript -> set<string>, key: string)
    requires DistinctIds(trs)
    ensures |Holders(trs, keysOf, key)| == Presence(trs, keysOf)[key]
  {
    if trs != [] {
      var front, tr := trs[..|trs| - 1], trs[|trs| - 1];
      HoldersCount(front, keysOf, key);
      if tr.id in Holders(front, keysOf, key) {
        HoldersAreAmong(front, keysOf, key, tr.id);
      }
    }
  }

  /** `r` is `a` out of `n`. */
  predicate IsShare(r: real, a: nat, n: nat) {
    r * n as real == a as real
  }

  function Ratio(a: nat, n: nat): (r: real)
    requires n > 0
    ensures IsShare(r, a, n)
  {
    a as real / n as real
  }

  /** A map that holds each element of `bag` with its multiplicity. */
  ghost predicate Tallies(m: map<string, nat>, bag: multiset<string>) {
    (forall k :: k in m <==> k in bag) && (forall k :: k in m ==> m[k] == bag[k])
  }

  function Bumped(m: map<string, nat>, key: string): map<string, nat> {
    m[key := (if key in m then m[key] else 0) + 1]
  }

  lemma TalliesBump(m: map<string, nat>, bag: multiset<string>, key: string)
    requires Tallies(m, bag)
    ensures Tallies(Bumped(m, key), bag + multiset{key})
  {
  }

  // ----- What is counted

  /** The decision took the arm `name`: the class it matched, or what is said where it matched none. */
  predicate TookArm(d: Decision, name: string) {
    || (d.matched == Some(name) && name != "")
    || ((d.matched == None || d.matched == Some("")) && name == if d.usedDefault then "(otherwise)" else "(unmatched)")
  }

  lemma ArmOfIff(d: Decision, name: string)
    ensures ArmOf(d) == name <==> TookArm(d, name)
  {
  }

  lemma {:induction false} ArmsAreCounted(ds: seq<Decision>, node: string, name: string, taken: Decision -> bool)
    requires forall d :: taken(d) <==> d.nodeId == node && TookArm(d, name)
    ensures ArmsAt(ds, node)[name] == |IndicesOf(ds, taken)|
  {
    hide TookArm, ArmOf;
    if ds == [] {
      assert IndicesOf(ds, taken) == {};
    } else {
      var front, last := ds[..|ds| - 1], ds[|ds| - 1];
      assert ds == front + [last];
      ArmsAreCounted(front, node, name, taken);
      IndicesSnoc(front, last, taken);
      ArmOfIff(last, name);
    }
  }

  lemma {:induction false} TraversalsAreCounted(ds: seq<Decision>, node: string, here: Decision -> bool)
    requires forall d :: here(d) <==> d.nodeId == node
    ensures |ArmsAt(ds, node)| == |IndicesOf(ds, here)|
  {
    hide ArmOf;
    if ds == [] {
      assert IndicesOf(ds, here) == {};
    } else {
      var front, last := ds[..|ds| - 1], ds[|ds| - 1];
      assert ds == front + [last];
      TraversalsAreCounted(front, node, here);
      IndicesSnoc(front, last, here);
    }
  }

  lemma {:induction false} CountedAt(ds: seq<Decision>, node: string, p: Decision -> bool, both: Decision -> bool)
    requires forall d :: both(d) <==> d.nodeId == node && p(d)
    ensures CountAt(ds, node, p) == |IndicesOf(ds, both)|
  {
    if ds == [] {
      assert IndicesOf(ds, both) == {};
    } else {
      var front, last := ds[..|ds| - 1], ds[|ds| - 1];
      assert ds == front + [last];
      CountedAt(front, node, p, both);
      IndicesSnoc(front, last, both);
    }
  }

  lemma {:induction false} OfferedIff(ds: seq<Decision>, node: string, class_: string)
    ensures class_ in OfferedAt(ds, node) <==> exists d :: d in ds && d.nodeId == node && class_ in d.classes
  {
    if ds != [] {
      var front, last := ds[..|ds| - 1], ds[|ds| - 1];
      OfferedIff(front, node, class_);
      assert forall d :: d in ds <==> d in front || d == last;
    }
  }

  lemma {:induction false} NodesIff(nodes: seq<Option<string>>, node: string)
    ensures node in NodesIn(nodes) <==> node != "" && Some(node) in nodes
  {
    if nodes != [] {
      var front, last := nodes[..|nodes| - 1], nodes[|nodes| - 1];
      NodesIff(front, node);
      assert forall n :: n in nodes <==> n in front || n == last;
    }
  }

  lemma {:induction false} HoldersIff(trs: seq<Transcript>, keysOf: Transcript -> set<string>, key: string, id: string)
    ensures id in Holders(trs, keysOf, key) <==> exists tr :: tr in trs && tr.id == id && key in keysOf(tr)
  {
    if trs != [] {
      var front, last := trs[..|trs| - 1], trs[|trs| - 1];
      HoldersIff(front, keysOf, key, id);
      assert forall tr :: tr in trs <==> tr in front || tr == last;
    }
  }

  lemma {:induction false} PresenceIsCounted(
      trs: seq<Transcript>, keysOf: Transcript -> set<string>, key: string, has: Transcript -> bool)
    requires forall tr :: has(tr) <==> key in keysOf(tr)
    ensures Presence(trs, keysOf)[key] == |IndicesOf(trs, has)|
  {
    if trs == [] {
      assert IndicesOf(trs, has) == {};
    } else {
      var front, last := trs[..|trs| - 1], trs[|trs| - 1];
      assert trs == front + [last];
      PresenceIsCounted(front, keysOf, key, has);
      IndicesSnoc(front, last, has);
    }
  }

  /** An id the compiler makes up: an `n` and digits. */
  ghost predicate IsMadeUp(nodeId: string) {
    exists digits :: digits != "" && nodeId == "n" + digits && forall i :: 0 <= i < |digits| ==> '0' <= digits[i] <= '9'
  }

  lemma LooksCompiledIff(nodeId: string)
    ensures LooksCompiled(nodeId) <==> IsMadeUp(nodeId)
  {
    if digits :| digits != "" && nodeId == "n" + digits && forall i :: 0 <= i < |digits| ==> '0' <= digits[i] <= '9' {
      assert nodeId[1..] == digits;
    }
    if LooksCompiled(nodeId) {
      assert nodeId == "n" + nodeId[1..];
    }
  }

  /** How a step is shown: a made-up id is said to be one, and a missing one too. */
  lemma StepIsShown(nodeId: string)
    ensures nodeId == "" ==> StepLabel(nodeId) == "(unnamed step)"
    ensures nodeId != "" && !IsMadeUp(nodeId) ==> StepLabel(nodeId) == nodeId
    ensures IsMadeUp(nodeId) ==> StepLabel(nodeId) == nodeId + " (compiled id \U{2014} not an authored step name)"
  {
    LooksCompiledIff(nodeId);
    hide IsMadeUp;
  }
}

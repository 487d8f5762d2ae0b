/** The two-row edit distance and the "did you mean" suggestion built on it. */
module EditDistance {
  import opened Basics

  newtype Byte = x: int | 0 <= x < 256
  type Bytes = seq<Byte>

  /** One step of an edit script, read from left to right along the text being edited. */
  datatype Edit = Keep | Insert(b: Byte) | Delete | Substitute(b: Byte)

  function StepCost(e: Edit): nat {
    if e.Keep? then 0 else 1
  }

  function Cost(script: seq<Edit>): nat {
    if script == [] then 0 else Cost(script[..|script| - 1]) + StepCost(script[|script| - 1])
  }

  /** `script` rewrites `a` into `b`. */
  predicate Rewrites(script: seq<Edit>, a: Bytes, b: Bytes)
    decreases |script|
  {
    if script == [] then a == [] && b == []
    else
      var front := script[..|script| - 1];
      match script[|script| - 1]
      case Keep => a != [] && b != [] && Last(a) == Last(b) && Rewrites(front, Front(a), Front(b))
      case Insert(x) => b != [] && Last(b) == x && Rewrites(front, a, Front(b))
      case Delete => a != [] && Rewrites(front, Front(a), b)
      case Substitute(x) => a != [] && b != [] && Last(b) == x && Rewrites(front, Front(a), Front(b))
  }

  function Front<T>(s: seq<T>): seq<T>
    requires s != []
  {
    s[..|s| - 1]
  }

  function Last<T>(s: seq<T>): T
    requires s != []
  {
    s[|s| - 1]
  }

  /** `d` is the cost of the cheapest script from `a` to `b`. */
  ghost predicate IsEditDistance(d: int, a: Bytes, b: Bytes) {
    && (exists script :: Rewrites(script, a, b) && Cost(script) == d)
    && (forall script :: Rewrites(script, a, b) ==> d <= Cost(script))
  }

  function SubCost(x: Byte, y: Byte): nat {
    if x == y then 0 else 1
  }

  /** The recurrence the table is filled by. */
  function Distance(a: Bytes, b: Bytes): nat {
    if a == [] then |b|
    else if b == [] then |a|
    else
      Min(Min(Distance(a, Front(b)) + 1, Distance(Front(a), b) + 1),
          Distance(Front(a), Front(b)) + SubCost(Last(a), Last(b)))
  }

  // ----- The recurrence is the least cost of a script

  /** A cheapest script. */
  function Cheapest(a: Bytes, b: Bytes): (script: seq<Edit>)
    ensures Rewrites(script, a, b) && Cost(script) == Distance(a, b)
  {
    if a == [] && b == [] then []
    else if b != [] && (a == [] || Distance(a, b) == Distance(a, Front(b)) + 1) then
      var script := Cheapest(a, Front(b)) + [Insert(Last(b))];
      assert Front(script) == Cheapest(a, Front(b));
      script
    else if a != [] && (b == [] || Distance(a, b) == Distance(Front(a), b) + 1) then
      var script := Cheapest(Front(a), b) + [Delete];
      assert Front(script) == Cheapest(Front(a), b);
      script
    else
      var script := Cheapest(Front(a), Front(b)) + [if Last(a) == Last(b) then Keep else Substitute(Last(b))];
      assert Front(script) == Cheapest(Front(a), Front(b));
      script
  }

  lemma {:induction false} NoCheaper(script: seq<Edit>, a: Bytes, b: Bytes)
    requires Rewrites(script, a, b)
    ensures Distance(a, b) <= Cost(script)
    decreases |script|
  {
    if script != [] {
      var front := Front(script);
      match Last(script) {
        case Keep => NoCheaper(front, Front(a), Front(b));
        case Insert(_) => NoCheaper(front, a, Front(b));
        case Delete => NoCheaper(front, Front(a), b);
        case Substitute(_) => NoCheaper(front, Front(a), Front(b));
      }
    }
  }

  lemma DistanceIsEditDistance(a: Bytes, b: Bytes)
    ensures IsEditDistance(Distance(a, b), a, b)
  {
    var script := Cheapest(a, b);
    forall other | Rewrites(other, a, b)
      ensures Distance(a, b) <= Cost(other)
    {
      NoCheaper(other, a, b);
    }
  }

  lemma EditDistanceUnique(d: int, a: Bytes, b: Bytes)
    requires IsEditDistance(d, a, b)
    ensures d == Distance(a, b)
  {
    var script := Cheapest(a, b);
    var best :| Rewrites(best, a, b) && Cost(best) == d;
    NoCheaper(best, a, b);
  }

  // ----- Edit distance is a metric

  lemma {:induction false} DistanceSymmetric(a: Bytes, b: Bytes)
    ensures Distance(a, b) == Distance(b, a)
    decreases |a| + |b|
  {
    if a != [] && b != [] {
      DistanceSymmetric(a, Front(b));
      DistanceSymmetric(Front(a), b);
      DistanceSymmetric(Front(a), Front(b));
    }
  }

  lemma {:induction false} DistanceZeroIffEqual(a: Bytes, b: Bytes)
    ensures Distance(a, b) == 0 <==> a == b
    decreases |a| + |b|
  {
    if a != [] && b != [] {
      DistanceZeroIffEqual(Front(a), Front(b));
      assert a == Front(a) + [Last(a)] && b == Front(b) + [Last(b)];
    }
  }

  /** One byte more or less on either side moves the distance by at most one. */
  lemma DistanceStep(a: Bytes, b: Bytes)
    ensures a != [] ==> Distance(a, b) <= Distance(Front(a), b) + 1
    ensures b != [] ==> Distance(a, b) <= Distance(a, Front(b)) + 1
  {
  }

  lemma {:induction false} DistanceTriangle(a: Bytes, b: Bytes, c: Bytes)
    ensures Distance(a, c) <= Distance(a, b) + Distance(b, c)
    decreases |a| + |b| + |c|
  {
    DistanceStep(a, c);
    if a != [] && (b == [] || Distance(a, b) == Distance(Front(a), b) + 1) {
      DistanceTriangle(Front(a), b, c);
    } else if c != [] && (b == [] || Distance(b, c) == Distance(b, Front(c)) + 1) {
      DistanceTriangle(a, b, Front(c));
    } else if b != [] && (a == [] || Distance(a, b) == Distance(a, Front(b)) + 1) {
      if c == [] || Distance(b, c) == Distance(Front(b), c) + 1 {
        DistanceTriangle(a, Front(b), c);
      } else {
        DistanceTriangle(a, Front(b), Front(c));
      }
    } else if b != [] && (c == [] || Distance(b, c) == Distance(Front(b), c) + 1) {
      DistanceTriangle(Front(a), Front(b), c);
    } else if b != [] {
      DistanceTriangle(Front(a), Front(b), Front(c));
    }
  }

  // ----- The two-row table

  /** Cell (i, j) of the full table. */
  ghost function Cell(a: Bytes, b: Bytes, i: nat, j: nat): nat
    requires i <= |a| && j <= |b|
  {
    Distance(a[..i], b[..j])
  }

  lemma CellRecurrence(a: Bytes, b: Bytes, i: nat, j: nat)
    requires 0 < i <= |a| && 0 < j <= |b|
    ensures Cell(a, b, i, j)
         == Min(Min(Cell(a, b, i, j - 1) + 1, Cell(a, b, i - 1, j) + 1),
                Cell(a, b, i - 1, j - 1) + SubCost(a[i - 1], b[j - 1]))
  {
    assert Front(a[..i]) == a[..i - 1] && Front(b[..j]) == b[..j - 1];
  }

  lemma CellBorder(a: Bytes, b: Bytes)
    ensures forall j :: 0 <= j <= |b| ==> Cell(a, b, 0, j) == j
    ensures forall i :: 0 <= i <= |a| ==> Cell(a, b, i, 0) == i
    ensures Cell(a, b, |a|, |b|) == Distance(a, b)
  {
    assert a[..|a|] == a && b[..|b|] == b;
  }

  /** `levenshteinDistance`: the shorter string indexes the rows, and the two rows change places after each pass. */
  method LevenshteinDistance(a0: Bytes, b0: Bytes) returns (d: nat)
    ensures IsEditDistance(d, a0, b0)
    ensures d == Distance(a0, b0)
  {
    DistanceIsEditDistance(a0, b0);
    var a, b := a0, b0;
    if |a| == 0 {
      return |b|;
    }
    if |b| == 0 {
      return |a|;
    }
    if |a| < |b| {
      a, b := b, a;
      DistanceSymmetric(a, b);
    }
    d := FillTable(a, b);
  }

  /** The table for non-empty strings, keeping two rows of it. */
  method FillTable(a: Bytes, b: Bytes) returns (d: nat)
    ensures d == Distance(a, b)
  {
    CellBorder(a, b);
    var prev := new nat[|b| + 1];
    var curr := new nat[|b| + 1];
    for j := 0 to prev.Length
      invariant forall k :: 0 <= k < j ==> prev[k] == k
    {
      prev[j] := j;
    }
    for i := 1 to |a| + 1
      invariant prev != curr && prev.Length == curr.Length == |b| + 1
      invariant fresh(prev) && fresh(curr)
      invariant forall k :: 0 <= k <= |b| ==> prev[k] == Cell(a, b, i - 1, k)
    {
      curr[0] := i;
      for j := 1 to |b| + 1
        invariant forall k :: 0 <= k <= |b| ==> prev[k] == Cell(a, b, i - 1, k)
        invariant forall k :: 0 <= k < j ==> curr[k] == Cell(a, b, i, k)
      {
        var cost := 1;
        if a[i - 1] == b[j - 1] {
          cost := 0;
        }
        var ins := curr[j - 1] + 1;
        var del := prev[j] + 1;
        var sub := prev[j - 1] + cost;
        var min := ins;
        if del < min {
          min := del;
        }
        if sub < min {
          min := sub;
        }
        CellRecurrence(a, b, i, j);
        curr[j] := min;
      }
      prev, curr := curr, prev;
    }
    d := prev[|b|];
  }

  // ----- Suggesting a flag

  const DASH: Byte := 45

  function TrimDashes(s: Bytes): Bytes {
    if s != [] && s[0] == DASH then TrimDashes(s[1..]) else s
  }

  /** All the leading dashes go, and nothing else. */
  lemma {:induction false} TrimDashesIs(s: Bytes) returns (n: nat)
    ensures n <= |s| && TrimDashes(s) == s[n..] && (n < |s| ==> s[n] != DASH)
    ensures forall i :: 0 <= i < n ==> s[i] == DASH
  {
    n := 0;
    if s != [] && s[0] == DASH {
      var rest := TrimDashesIs(s[1..]);
      n := rest + 1;
    }
  }

  /** Near enough to be offered: at most three edits, and at most two fifths of the typed length. */
  predicate CloseEnough(unknown: Bytes, name: Bytes) {
    Distance(unknown, name) <= 3 && Distance(unknown, name) * 5 <= |unknown| * 2
  }

  /** `names[k]` is the first of the nearest names that are close enough. */
  ghost predicate FirstNearest(unknown: Bytes, names: seq<Bytes>, k: int) {
    && 0 <= k < |names| && CloseEnough(unknown, names[k])
    && (forall j :: 0 <= j < |names| && CloseEnough(unknown, names[j]) ==>
          Distance(unknown, names[k]) <= Distance(unknown, names[j]))
    && (forall j :: 0 <= j < k && CloseEnough(unknown, names[j]) ==>
          Distance(unknown, names[k]) < Distance(unknown, names[j]))
  }

  /** The best name and its distance after visiting `names`. */
  ghost predicate IsBest(unknown: Bytes, names: seq<Bytes>, best: Bytes, bestDist: nat) {
    if forall j :: 0 <= j < |names| ==> !CloseEnough(unknown, names[j]) then best == [] && bestDist == 4
    else exists k :: FirstNearest(unknown, names, k) && best == names[k] && bestDist == Distance(unknown, names[k])
  }

  /** The answer owed: the first of the names at the least distance, if that is at most three edits and at most two
      fifths of the typed length, and no name otherwise. */
  ghost predicate IsNearest(unknown: Bytes, names: seq<Bytes>, best: Bytes) {
    || (best == [] && forall j :: 0 <= j < |names| ==>
          Distance(unknown, names[j]) > 3 || Distance(unknown, names[j]) * 5 > |unknown| * 2)
    || exists k :: 0 <= k < |names| && best == names[k]
         && Distance(unknown, best) <= 3 && Distance(unknown, best) * 5 <= |unknown| * 2
         && (forall j :: 0 <= j < |names| ==> Distance(unknown, best) <= Distance(unknown, names[j]))
         && (forall j :: 0 <= j < k ==> Distance(unknown, best) < Distance(unknown, names[j]))
  }

  method Check(unknown: Bytes, name: Bytes, best: Bytes, bestDist: nat, ghost seen: seq<Bytes>)
      returns (best': Bytes, bestDist': nat)
    requires IsBest(unknown, seen, best, bestDist)
    ensures IsBest(unknown, seen + [name], best', bestDist')
  {
    hide Distance;
    var d := LevenshteinDistance(unknown, name);
    best', bestDist' := best, bestDist;
    if d < bestDist && d * 5 <= |unknown| * 2 {
      bestDist' := d;
      best' := name;
      assert FirstNearest(unknown, seen + [name], |seen|);
    } else if exists j :: 0 <= j < |seen| && CloseEnough(unknown, seen[j]) {
      var k :| FirstNearest(unknown, seen, k) && best == seen[k] && bestDist == Distance(unknown, seen[k]);
      assert FirstNearest(unknown, seen + [name], k);
      assert CloseEnough(unknown, (seen + [name])[k]);
    }
  }

  /** `suggestFlag` visits the command's own flags and then the inherited ones. */
  method SuggestFlag(typed: Bytes, own: seq<Bytes>, inherited: seq<Bytes>) returns (best: Bytes)
    ensures IsNearest(TrimDashes(typed), own + inherited, best)
    ensures best == [] <==>
      forall name :: name in own + inherited && CloseEnough(TrimDashes(typed), name) ==> name == []
  {
    hide IsBest, IsNearest, CloseEnough, TrimDashes;
    var unknown := TrimDashes(typed);
    best := [];
    var bestDist := 4;
    ghost var names := own + inherited;
    NothingSeen(unknown);
    for i := 0 to |own|
      invariant IsBest(unknown, own[..i], best, bestDist)
    {
      best, bestDist := Check(unknown, own[i], best, bestDist, own[..i]);
      assert own[..i + 1] == own[..i] + [own[i]];
    }
    assert own[..|own|] == own + inherited[..0];
    for i := 0 to |inherited|
      invariant IsBest(unknown, own + inherited[..i], best, bestDist)
    {
      best, bestDist := Check(unknown, inherited[i], best, bestDist, own + inherited[..i]);
      assert own + inherited[..i + 1] == own + inherited[..i] + [inherited[i]];
    }
    assert own + inherited[..|inherited|] == names;
    BestIsNearest(unknown, names, best, bestDist);
  }

  lemma NothingSeen(unknown: Bytes)
    ensures IsBest(unknown, [], [], 4)
  {
  }

  lemma BestIsNearest(unknown: Bytes, names: seq<Bytes>, best: Bytes, bestDist: nat)
    requires IsBest(unknown, names, best, bestDist)
    ensures IsNearest(unknown, names, best)
    ensures best == [] <==> forall name :: name in names && CloseEnough(unknown, name) ==> name == []
  {
    EmptyNameOnlyForEmpty(unknown, names);
    hide Distance;
    if j :| 0 <= j < |names| && CloseEnough(unknown, names[j]) {
      var k :| FirstNearest(unknown, names, k) && best == names[k];
      assert CloseEnough(unknown, names[k]);
    }
  }

  /** The empty name is close only to the empty text, to which nothing else is close. */
  lemma EmptyNameOnlyForEmpty(unknown: Bytes, names: seq<Bytes>)
    ensures forall k :: 0 <= k < |names| && CloseEnough(unknown, names[k]) ==> (names[k] == [] <==> unknown == [])
  {
  }
}

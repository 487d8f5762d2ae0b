/** Small shared types. */
module Basics {

  datatype Option<+T> = None | Some(value: T) {
    function GetOr(default: T): T {
      if Some? then value else default
    }
  }

  /** `min(a, b)`, used wherever a slice is capped by a length. */
  function Min(a: int, b: int): (m: int)
    ensures m <= a && m <= b && m in {a, b}
  {
    if a < b then a else b
  }

  /** The parts laid end to end. */
  function Concat<T>(parts: seq<seq<T>>): seq<T> {
    if parts == [] then [] else Concat(parts[..|parts| - 1]) + parts[|parts| - 1]
  }

  lemma ConcatSnoc<T>(parts: seq<seq<T>>, i: nat)
    requires i < |parts|
    ensures Concat(parts[..i + 1]) == Concat(parts[..i]) + parts[i]
  {
    assert parts[..i + 1][..i] == parts[..i];
  }

  lemma {:induction false} ConcatPrefix<T>(parts: seq<seq<T>>, n: nat)
    requires n <= |parts|
    ensures Concat(parts[..n]) <= Concat(parts)
  {
    if n < |parts| {
      ConcatPrefix(parts[..|parts| - 1], n);
      assert parts[..|parts| - 1][..n] == parts[..n];
    } else {
      assert parts[..n] == parts;
    }
  }

  /** The elements that satisfy `p`, in order. */
  function Where<T>(s: seq<T>, p: T -> bool): seq<T> {
    if s == [] then [] else Where(s[..|s| - 1], p) + if p(s[|s| - 1]) then [s[|s| - 1]] else []
  }

  lemma WhereSnoc<T>(s: seq<T>, x: T, p: T -> bool)
    ensures Where(s + [x], p) == Where(s, p) + if p(x) then [x] else []
    ensures Where([], p) == []
  {
    assert (s + [x])[..|s|] == s;
  }

  lemma {:induction false} WhereIs<T>(s: seq<T>, p: T -> bool, x: T)
    ensures x in Where(s, p) <==> x in s && p(x)
  {
    hide Where;
    WhereSnoc([], x, p);
    if s != [] {
      var front, last := s[..|s| - 1], s[|s| - 1];
      assert s == front + [last];
      WhereIs(front, p, x);
      WhereSnoc(front, last, p);
    }
  }

  /** They stand at increasing indices of `s`, and at every index whose element satisfies `p`. */
  lemma {:induction false} WhereInOrder<T>(s: seq<T>, p: T -> bool) returns (at: seq<nat>)
    ensures |at| == |Where(s, p)| && forall k :: 0 <= k < |at| ==> at[k] < |s| && Where(s, p)[k] == s[at[k]]
    ensures forall j, k :: 0 <= j < k < |at| ==> at[j] < at[k]
    ensures forall i :: 0 <= i < |s| ==> (i in at <==> p(s[i]))
  {
    at := [];
    if s == [] {
      assert Where(s, p) == [];
    } else {
      var front, last := s[..|s| - 1], s[|s| - 1];
      assert s == front + [last];
      WhereSnoc(front, last, p);
      at := WhereInOrder(front, p);
      hide Where;
      if p(last) {
        at := at + [|front|];
      }
    }
  }

  lemma {:induction false} WhereConcat<T>(a: seq<T>, b: seq<T>, p: T -> bool)
    ensures Where(a + b, p) == Where(a, p) + Where(b, p)
  {
    hide Where;
    if b == [] {
      assert a + b == a;
      WhereNone(p);
    } else {
      var front, last := b[..|b| - 1], b[|b| - 1];
      WhereConcat(a, front, p);
      assert a + b == (a + front) + [last] && b == front + [last];
      WhereSnoc(a + front, last, p);
      WhereSnoc(front, last, p);
    }
  }

  lemma WhereNone<T>(p: T -> bool)
    ensures Where([], p) == []
  {
  }

  lemma WhereCons<T>(x: T, s: seq<T>, p: T -> bool)
    ensures Where([x] + s, p) == (if p(x) then [x] else []) + Where(s, p)
  {
    hide Where;
    WhereConcat([x], s, p);
    WhereNone(p);
    WhereSnoc([], x, p);
    assert [] + [x] == [x];
  }

  lemma {:induction false} SameWhere<T>(s: seq<T>, p: T -> bool, q: T -> bool)
    requires forall x :: x in s ==> p(x) == q(x)
    ensures Where(s, p) == Where(s, q)
  {
    if s != [] {
      SameWhere(s[..|s| - 1], p, q);
    }
  }

  /** The indices whose element satisfies `p`. */
  ghost function IndicesOf<T>(s: seq<T>, p: T -> bool): set<nat> {
    set i: nat | i < |s| && p(s[i])
  }

  lemma IndicesSnoc<T>(s: seq<T>, x: T, p: T -> bool)
    ensures |IndicesOf(s + [x], p)| == |IndicesOf(s, p)| + if p(x) then 1 else 0
  {
    assert IndicesOf(s + [x], p) == IndicesOf(s, p) + if p(x) then {|s|} else {};
  }
}

/** Go's `sort.Strings` and `sort.SliceStable`, as functions. */
module Sorting {
  import opened Basics

  /** What a comparator must satisfy for sorting by it to make sense. */
  ghost predicate StrictWeak<T(!new)>(less: (T, T) -> bool) {
    && (forall a, b :: less(a, b) ==> !less(b, a))
    && (forall a, b, c :: !less(a, b) && !less(b, c) ==> !less(a, c))
  }

  ghost predicate Ordered<T>(s: seq<T>, less: (T, T) -> bool) {
    forall i, j :: 0 <= i < j < |s| ==> !less(s[j], s[i])
  }

  function Insert<T>(x: T, s: seq<T>, less: (T, T) -> bool): (r: seq<T>)
    ensures multiset(r) == multiset(s) + multiset{x}
  {
    if s == [] || !less(s[0], x) then [x] + s
    else
      assert s == [s[0]] + s[1..];
      [s[0]] + Insert(x, s[1..], less)
  }

  /** Insertion from the back, each element before its equals, so equals keep their order. */
  function StableSort<T>(s: seq<T>, less: (T, T) -> bool): (r: seq<T>)
    ensures multiset(r) == multiset(s)
  {
    if s == [] then []
    else
      assert s == [s[0]] + s[1..];
      Insert(s[0], StableSort(s[1..], less), less)
  }

  lemma SameElements<T>(a: seq<T>, b: seq<T>)
    requires multiset(a) == multiset(b)
    ensures |a| == |b|
    ensures forall x :: x in a <==> x in b
  {
    assert forall x :: x in a <==> x in multiset(a);
    assert forall x :: x in b <==> x in multiset(b);
    assert |multiset(a)| == |a| && |multiset(b)| == |b|;
  }

  /** A list of a set's elements holds none of them twice. */
  lemma DistinctList<T>(list: seq<T>, elements: set<T>)
    requires multiset(list) == multiset(elements)
    ensures forall i, j :: 0 <= i < j < |list| ==> list[i] != list[j]
  {
    forall i, j | 0 <= i < j < |list|
      ensures list[i] != list[j]
    {
      var a, b := list[..j], list[j..];
      assert list == a + b;
      assert list[i] == a[i] && list[j] == b[0];
      assert multiset(list) == multiset(a) + multiset(b);
      assert multiset(elements)[list[i]] <= 1;
    }
  }

  lemma {:induction false} DistinctIsSet<T>(s: seq<T>)
    requires forall i, j :: 0 <= i < j < |s| ==> s[i] != s[j]
    ensures multiset(s) == multiset(set x | x in s)
  {
    if s != [] {
      var rest := s[1..];
      DistinctIsSet(rest);
      assert s == [s[0]] + rest;
      assert s[0] !in rest;
      assert (set x | x in s) == (set x | x in rest) + {s[0]};
    }
  }

  lemma {:induction false} InsertOrdered<T(!new)>(x: T, s: seq<T>, less: (T, T) -> bool)
    requires StrictWeak(less) && Ordered(s, less)
    ensures Ordered(Insert(x, s, less), less)
  {
    if s != [] && less(s[0], x) {
      InsertOrdered(x, s[1..], less);
      var rest := Insert(x, s[1..], less);
      forall y | y in rest
        ensures !less(y, s[0])
      {
        assert y in multiset(rest);
        assert y == x || y in s[1..];
      }
    } else if s != [] {
      forall y | y in s
        ensures !less(y, x)
      {
      }
    }
  }

  lemma {:induction false} StableSortOrdered<T(!new)>(s: seq<T>, less: (T, T) -> bool)
    requires StrictWeak(less)
    ensures Ordered(StableSort(s, less), less)
  {
    if s != [] {
      StableSortOrdered(s[1..], less);
      InsertOrdered(s[0], StableSort(s[1..], less), less);
    }
  }

  /** By `less`, and by `tie` among equals. */
  predicate Before<T>(a: T, b: T, less: (T, T) -> bool, tie: (T, T) -> bool) {
    less(a, b) || (!less(b, a) && tie(a, b))
  }

  ghost predicate OrderedWithin<T>(s: seq<T>, less: (T, T) -> bool, tie: (T, T) -> bool) {
    forall i, j :: 0 <= i < j < |s| ==> Before(s[i], s[j], less, tie)
  }

  lemma {:induction false} InsertWithin<T(!new)>(x: T, s: seq<T>, less: (T, T) -> bool, tie: (T, T) -> bool)
    requires StrictWeak(less) && OrderedWithin(s, less, tie) && forall y :: y in s ==> tie(x, y)
    ensures OrderedWithin(Insert(x, s, less), less, tie)
  {
    var r := Insert(x, s, less);
    if s != [] && less(s[0], x) {
      InsertWithin(x, s[1..], less, tie);
      forall y | y in r[1..]
        ensures Before(s[0], y, less, tie)
      {
        assert y in multiset(r[1..]);
        assert y == x || y in s[1..];
      }
    } else if s != [] {
      forall y | y in s
        ensures Before(x, y, less, tie)
      {
        assert y == s[0] || Before(s[0], y, less, tie);
      }
    }
  }

  /** A stable sort leaves a list ordered by `tie` ordered by it among equals. */
  lemma {:induction false} StableSortWithin<T(!new)>(s: seq<T>, less: (T, T) -> bool, tie: (T, T) -> bool)
    requires StrictWeak(less) && forall i, j :: 0 <= i < j < |s| ==> tie(s[i], s[j])
    ensures OrderedWithin(StableSort(s, less), less, tie)
  {
    if s != [] {
      StableSortWithin(s[1..], less, tie);
      SameElements(StableSort(s[1..], less), s[1..]);
      InsertWithin(s[0], StableSort(s[1..], less), less, tie);
    }
  }

  /** No two different elements of `s` tie. */
  ghost predicate NoTies<T>(s: seq<T>, less: (T, T) -> bool) {
    forall x, y :: x in s && y in s && x != y ==> less(x, y) || less(y, x)
  }

  lemma SameLeast<T>(a: seq<T>, b: seq<T>, less: (T, T) -> bool)
    requires Ordered(a, less) && Ordered(b, less) && |a| == |b| > 0 && NoTies(a, less)
    requires forall x :: x in a <==> x in b
    ensures a[0] == b[0]
  {
    assert a[0] in b && b[0] in a;
    var i :| 0 <= i < |b| && b[i] == a[0];
    var j :| 0 <= j < |a| && a[j] == b[0];
  }

  lemma OrderedTail<T>(s: seq<T>, less: (T, T) -> bool)
    requires s != [] && Ordered(s, less)
    ensures Ordered(s[1..], less)
    ensures NoTies(s, less) ==> NoTies(s[1..], less)
  {
  }

  /** Without ties, an ordered list is determined by its elements. */
  lemma {:induction false} OrderedUnique<T>(a: seq<T>, b: seq<T>, less: (T, T) -> bool)
    requires Ordered(a, less) && Ordered(b, less) && multiset(a) == multiset(b) && NoTies(a, less)
    ensures a == b
  {
    hide Ordered, NoTies;
    SameElements(a, b);
    if a != [] {
      SameLeast(a, b, less);
      OrderedTail(a, less);
      OrderedTail(b, less);
      assert a == [a[0]] + a[1..] && b == [b[0]] + b[1..];
      assert multiset(a[1..]) == multiset(a) - multiset{a[0]};
      assert multiset(b[1..]) == multiset(b) - multiset{b[0]};
      OrderedUnique(a[1..], b[1..], less);
    }
  }

  // ----- Sorting what is shown of the elements

  function Shown<T, U>(s: seq<T>, f: T -> U): seq<U> {
    if s == [] then [] else [f(s[0])] + Shown(s[1..], f)
  }

  lemma {:induction false} ShownAt<T, U>(s: seq<T>, f: T -> U)
    ensures |Shown(s, f)| == |s| && forall i :: 0 <= i < |s| ==> Shown(s, f)[i] == f(s[i])
  {
    if s != [] {
      ShownAt(s[1..], f);
    }
  }

  lemma ShownCons<T, U>(x: T, s: seq<T>, f: T -> U)
    ensures Shown([x] + s, f) == [f(x)] + Shown(s, f)
  {
    assert ([x] + s)[1..] == s;
  }

  lemma {:induction false} InsertShown<T(!new), U>(
      x: T, s: seq<T>, f: T -> U, less: (T, T) -> bool, lessShown: (U, U) -> bool)
    requires forall a, b :: less(a, b) <==> lessShown(f(a), f(b))
    ensures Insert(f(x), Shown(s, f), lessShown) == Shown(Insert(x, s, less), f)
  {
    ShownCons(x, s, f);
    if s == [] {
      assert Shown(s, f) == [];
    } else {
      var head, tail := s[0], s[1..];
      InsertShown(x, tail, f, less, lessShown);
      hide Shown, Insert;
      assert s == [head] + tail;
      ShownCons(head, tail, f);
      InsertCons(x, head, tail, less);
      InsertCons(f(x), f(head), Shown(tail, f), lessShown);
      ShownCons(head, Insert(x, tail, less), f);
    }
  }

  lemma InsertCons<T>(x: T, head: T, tail: seq<T>, less: (T, T) -> bool)
    ensures Insert(x, [head] + tail, less) ==
      if less(head, x) then [head] + Insert(x, tail, less) else [x] + ([head] + tail)
  {
    assert ([head] + tail)[1..] == tail;
  }

  /** It makes no difference whether a list is sorted before or after it is shown. */
  lemma {:induction false} SortShown<T(!new), U>(
      s: seq<T>, f: T -> U, less: (T, T) -> bool, lessShown: (U, U) -> bool)
    requires forall a, b :: less(a, b) <==> lessShown(f(a), f(b))
    ensures StableSort(Shown(s, f), lessShown) == Shown(StableSort(s, less), f)
  {
    if s != [] {
      SortShown(s[1..], f, less, lessShown);
      assert Shown(s, f)[1..] == Shown(s[1..], f);
      hide Insert;
      InsertShown(s[0], StableSort(s[1..], less), f, less, lessShown);
    }
  }

  // ----- Stability

  lemma {:induction false} InsertKeepsTies<T(!new)>(x: T, s: seq<T>, less: (T, T) -> bool, same: T -> bool)
    requires forall a, b :: same(a) && same(b) ==> !less(a, b)
    ensures Where(Insert(x, s, less), same) == Where([x] + s, same)
  {
    hide Where;
    if s != [] && less(s[0], x) {
      InsertKeepsTies(x, s[1..], less, same);
      assert s == [s[0]] + s[1..];
      WhereCons(x, s, same);
      WhereCons(x, s[1..], same);
      WhereCons(s[0], s[1..], same);
      WhereCons(s[0], Insert(x, s[1..], less), same);
    }
  }

  /** Elements no two of which are told apart keep the order in which they came. */
  lemma {:induction false} StableSortKeepsTies<T(!new)>(s: seq<T>, less: (T, T) -> bool, same: T -> bool)
    requires forall a, b :: same(a) && same(b) ==> !less(a, b)
    ensures Where(StableSort(s, less), same) == Where(s, same)
  {
    hide Where;
    if s != [] {
      StableSortKeepsTies(s[1..], less, same);
      InsertKeepsTies(s[0], StableSort(s[1..], less), less, same);
      WhereCons(s[0], StableSort(s[1..], less), same);
      WhereCons(s[0], s[1..], same);
      assert s == [s[0]] + s[1..];
    }
  }

  // ----- Strings

  /** Lexicographic order, as Go's `<` on strings. */
  predicate StringLess(a: string, b: string) {
    b != "" && (a == "" || a[0] < b[0] || (a[0] == b[0] && StringLess(a[1..], b[1..])))
  }

  /** `a` comes first where the two first differ, or ends first. */
  lemma {:induction false} StringLessIff(a: string, b: string)
    ensures StringLess(a, b) <==>
      exists k: nat :: k <= |a| && k < |b| && a[..k] == b[..k] && (k == |a| || a[k] < b[k])
  {
    if a != "" && b != "" && a[0] == b[0] {
      StringLessIff(a[1..], b[1..]);
      if StringLess(a, b) {
        var k: nat :| k <= |a| - 1 && k < |b| - 1 && a[1..][..k] == b[1..][..k]
          && (k == |a| - 1 || a[1..][k] < b[1..][k]);
        assert a[..k + 1] == [a[0]] + a[1..][..k] && b[..k + 1] == [b[0]] + b[1..][..k];
        assert k + 1 == |a| || a[k + 1] < b[k + 1];
      }
      if k: nat :| k <= |a| && k < |b| && a[..k] == b[..k] && (k == |a| || a[k] < b[k]) {
        assert k > 0;
        assert a[1..][..k - 1] == a[..k][1..] && b[1..][..k - 1] == b[..k][1..];
        assert k - 1 == |a[1..]| || a[1..][k - 1] < b[1..][k - 1];
      }
    } else if a == "" && b != "" {
      assert a[..0] == b[..0];
    } else if a != "" && b != "" {
      assert a[..0] == b[..0];
      forall k: nat | 0 < k <= |a| && k < |b|
        ensures a[..k] == b[..k] ==> a[0] == b[0]
      {
        assert a[..k][0] == a[0] && b[..k][0] == b[0];
      }
    }
  }

  lemma {:induction false} StringLessTotal(a: string, b: string)
    ensures a == b || StringLess(a, b) || StringLess(b, a)
    ensures !(StringLess(a, b) && StringLess(b, a))
    ensures !StringLess(a, a)
  {
    if a != "" && b != "" && a[0] == b[0] {
      StringLessTotal(a[1..], b[1..]);
      assert a == [a[0]] + a[1..] && b == [b[0]] + b[1..];
    }
    if a != "" {
      StringLessTotal(a[1..], a[1..]);
    }
  }

  lemma {:induction false} StringLessTransitive(a: string, b: string, c: string)
    requires StringLess(a, b) && StringLess(b, c)
    ensures StringLess(a, c)
  {
    if a != "" && a[0] == b[0] == c[0] {
      StringLessTransitive(a[1..], b[1..], c[1..]);
    }
  }

  lemma StringLessStrictWeak()
    ensures StrictWeak(StringLess)
  {
    forall a, b
      ensures StringLess(a, b) ==> !StringLess(b, a)
    {
      StringLessTotal(a, b);
    }
    forall a, b, c | !StringLess(a, b) && !StringLess(b, c)
      ensures !StringLess(a, c)
    {
      StringLessTotal(a, b);
      StringLessTotal(b, c);
      StringLessTotal(a, c);
      if StringLess(a, c) && a != b && b != c {
        StringLessTransitive(b, a, c);
      }
    }
  }

  function SortStrings(s: seq<string>): (r: seq<string>)
    ensures multiset(r) == multiset(s)
  {
    StableSort(s, StringLess)
  }

  lemma OrderedStringsUnique(a: seq<string>, b: seq<string>)
    requires Ordered(a, StringLess) && Ordered(b, StringLess) && multiset(a) == multiset(b)
    ensures a == b
  {
    forall x, y | x in a && y in a && x != y
      ensures StringLess(x, y) || StringLess(y, x)
    {
      StringLessTotal(x, y);
    }
    OrderedUnique(a, b, StringLess);
  }

  /** The elements of a set of strings, in order. */
  method SortedKeys(keys: set<string>) returns (list: seq<string>)
    ensures Ordered(list, StringLess) && multiset(list) == multiset(keys)
    ensures forall k :: k in list <==> k in keys
    ensures forall i, j :: 0 <= i < j < |list| ==> StringLess(list[i], list[j])
  {
    hide StringLess;
    list := [];
    var pending := keys;
    ghost var listed: set<string> := {};
    while pending != {}
      invariant listed + pending == keys && listed !! pending
      invariant multiset(list) == multiset(listed)
      decreases pending
    {
      var k :| k in pending;
      pending, listed := pending - {k}, listed + {k};
      list := list + [k];
    }
    assert listed == keys;
    StringLessStrictWeak();
    StableSortOrdered(list, StringLess);
    list := SortStrings(list);
    DistinctList(list, keys);
    assert forall k :: k in list <==> k in multiset(list);
    forall i, j | 0 <= i < j < |list|
      ensures StringLess(list[i], list[j])
    {
      StringLessTotal(list[i], list[j]);
    }
  }
}

/** The older batch form of the same query, and how the two agree. */
module LocalListBatch {
  import opened Basics
  import opened Numerals
  import opened Sorting
  import opened LocalListQuery
  import opened LocalList

  // ----- The batch form

  /** The records that pass the equality conditions, in order. */
  function Filtered(env: Env, equality: map<string, string>, raws: seq<Raw>): seq<Raw> {
    if raws == [] then []
    else
      var last := raws[|raws| - 1];
      Filtered(env, equality, raws[..|raws| - 1]) + if Keeps(env, equality, last) then [last] else []
  }

  ghost predicate OccursRaw(env: Env, raws: seq<Raw>, key: string) {
    exists i :: 0 <= i < |raws| && env.parses(raws[i]) && env.has(raws[i], key)
  }

  ghost function AbsentRaw(env: Env, raws: seq<Raw>, equality: map<string, string>): set<string> {
    set k | k in equality && !OccursRaw(env, raws, k)
  }

  /** What the batch form is to return over the records it is given. */
  ghost predicate IsBatch(env: Env, raws: seq<Raw>, q: Query, items: seq<Raw>, unsupported: seq<string>) {
    var absent := AbsentRaw(env, raws, q.equality);
    && items == Window(Filtered(env, q.equality - absent, raws), q.offset, q.limit)
    && Ordered(unsupported, StringLess)
    && multiset(unsupported) == multiset(q.unsupported) + multiset(absent)
  }

  /** `applyLocalListFilters`. Its copy of the parameter switch is `ReadParam`. */
  method ApplyLocalListFilters(env: Env, raws: seq<Raw>, params: seq<(string, string)>)
      returns (items: seq<Raw>, unsupported: seq<string>)
    ensures IsBatch(env, raws, ParsedQuery(env, params), items, unsupported)
  {
    var q := NO_QUERY;
    for i := 0 to |params|
      invariant q == ReadParams(env, params[..i])
    {
      assert params[..i + 1][..i] == params[..i];
      var (key, text) := params[i];
      q := ReadParam(env, q, key, text);
    }
    assert params[..|params|] == params;
    items, unsupported := ApplyFilters(env, raws, q);
  }

  /** The rest of it: page without limit, conditions, and only then the page's offset. */
  method ApplyFilters(env: Env, raws: seq<Raw>, q: Query) returns (items: seq<Raw>, unsupported: seq<string>)
    ensures IsBatch(env, raws, ApplyPage(q), items, unsupported)
  {
    hide Wrap, Ordered, AbsentRaw, Filtered, Window, StableSort, StringLess;
    var offset, page := q.offset, q.page;
    unsupported := q.unsupported;
    if page > 1 && q.limit < 0 {
      unsupported := unsupported + ["page"];
      page := 0;
    }
    var dropped;
    items, dropped := ApplyConditions(env, raws, q.equality);
    unsupported := unsupported + dropped;
    if page > 1 && q.limit >= 0 {
      offset := Wrap(offset + Wrap((page - 1) * q.limit));
    }
    items := Slice(items, offset, q.limit);
    StringLessStrictWeak();
    StableSortOrdered(unsupported, StringLess);
    unsupported := SortStrings(unsupported);
  }

  method Slice(all: seq<Raw>, offset: int, limit: int) returns (items: seq<Raw>)
    ensures items == Window(all, offset, limit)
  {
    items := all;
    if offset > 0 {
      if offset >= |items| {
        items := [];
      } else {
        items := items[offset..];
      }
    }
    if limit >= 0 && |items| > limit {
      items := items[..limit];
    }
  }

  method ApplyConditions(env: Env, raws: seq<Raw>, conditions: map<string, string>)
      returns (items: seq<Raw>, dropped: seq<string>)
    ensures items == Filtered(env, conditions - AbsentRaw(env, raws, conditions), raws)
    ensures multiset(dropped) == multiset(AbsentRaw(env, raws, conditions))
  {
    items, dropped := raws, [];
    var equality := conditions;
    if equality != map[] {
      equality, dropped := DropAbsent(env, raws, equality);
      if equality != map[] {
        items := KeepMatching(env, raws, equality);
      }
    }
    NoConditionKeepsAll(env, raws);
  }

  method DropAbsent(env: Env, raws: seq<Raw>, equality: map<string, string>)
      returns (left: map<string, string>, dropped: seq<string>)
    ensures left == equality - AbsentRaw(env, raws, equality)
    ensures multiset(dropped) == multiset(AbsentRaw(env, raws, equality))
  {
    var presentKeys: set<string> := {};
    for i := 0 to |raws|
      invariant presentKeys == set k | k in equality && OccursRaw(env, raws[..i], k)
    {
      ghost var before := presentKeys;
      if env.parses(raws[i]) {
        presentKeys := presentKeys + set k | k in equality && env.has(raws[i], k);
      }
      OccursRawSnoc(env, raws[..i], raws[i]);
      assert raws[..i + 1] == raws[..i] + [raws[i]];
    }
    assert raws[..|raws|] == raws;
    left, dropped := DeleteAbsent(equality, presentKeys);
    assert equality.Keys - presentKeys == AbsentRaw(env, raws, equality);
  }

  method DeleteAbsent(equality: map<string, string>, presentKeys: set<string>)
      returns (left: map<string, string>, dropped: seq<string>)
    ensures left == equality - (equality.Keys - presentKeys)
    ensures multiset(dropped) == multiset(equality.Keys - presentKeys)
  {
    left, dropped := equality, [];
    var pending := equality.Keys;
    ghost var gone: set<string> := {};
    while pending != {}
      invariant pending <= equality.Keys && gone == equality.Keys - pending - presentKeys
      invariant left == equality - gone
      invariant multiset(dropped) == multiset(gone)
      decreases pending
    {
      var k :| k in pending;
      pending := pending - {k};
      if k !in presentKeys {
        gone := gone + {k};
        dropped := dropped + [k];
        left := left - {k};
      }
    }
    assert gone == equality.Keys - presentKeys;
  }

  lemma OccursRawSnoc(env: Env, raws: seq<Raw>, raw: Raw)
    ensures forall k :: OccursRaw(env, raws + [raw], k) <==>
      (OccursRaw(env, raws, k) || (env.parses(raw) && env.has(raw, k)))
  {
    var all := raws + [raw];
    assert all[|raws|] == raw && forall i :: 0 <= i < |raws| ==> all[i] == raws[i];
  }

  method KeepMatching(env: Env, raws: seq<Raw>, equality: map<string, string>) returns (kept: seq<Raw>)
    requires equality != map[]
    ensures kept == Filtered(env, equality, raws)
  {
    kept := [];
    for i := 0 to |raws|
      invariant kept == Filtered(env, equality, raws[..i])
    {
      assert raws[..i + 1][..i] == raws[..i];
      if env.parses(raws[i]) {
        if forall k :: k in equality ==> env.has(raws[i], k) && env.equals(raws[i], k, equality[k]) {
          kept := kept + [raws[i]];
        }
      }
    }
    assert raws[..|raws|] == raws;
  }

  lemma {:induction false} NoConditionKeepsAll(env: Env, raws: seq<Raw>)
    ensures Filtered(env, map[], raws) == raws
  {
    if raws != [] {
      NoConditionKeepsAll(env, raws[..|raws| - 1]);
    }
  }

  // ----- The streaming load against the batch form

  /** The records of the non-empty rows in scope: what the batch form would be handed. */
  function ScopedRaws(env: Env, parent: Option<Parent>, rows: seq<Row>): seq<Raw> {
    Selected(env, parent, map[], rows)
  }

  lemma FilteredSnoc(env: Env, equality: map<string, string>, raws: seq<Raw>, raw: Raw)
    ensures Filtered(env, equality, raws + [raw])
         == Filtered(env, equality, raws) + if Keeps(env, equality, raw) then [raw] else []
  {
    assert (raws + [raw])[..|raws|] == raws;
  }

  lemma ScopedSnoc(env: Env, parent: Option<Parent>, rows: seq<Row>)
    requires rows != []
    ensures var last := rows[|rows| - 1];
            var front := ScopedRaws(env, parent, rows[..|rows| - 1]);
            ScopedRaws(env, parent, rows)
              == if !env.isEmpty(last.raw) && InScope(env, parent, last) then front + [last.raw] else front
  {
    assert Keeps(env, map[], rows[|rows| - 1].raw);
  }

  lemma {:induction false} SelectedIsFilteredScope(
      env: Env, parent: Option<Parent>, equality: map<string, string>, rows: seq<Row>)
    ensures Selected(env, parent, equality, rows) == Filtered(env, equality, ScopedRaws(env, parent, rows))
  {
    if rows != [] {
      var front, last := rows[..|rows| - 1], rows[|rows| - 1];
      SelectedIsFilteredScope(env, parent, equality, front);
      ScopedSnoc(env, parent, rows);
      FilteredSnoc(env, equality, ScopedRaws(env, parent, front), last.raw);
    }
  }

  predicate CarriesInScope(env: Env, parent: Option<Parent>, row: Row, key: string) {
    Carries(env, row, key) && InScope(env, parent, row)
  }

  lemma {:induction false} ScopedOccurs(env: Env, parent: Option<Parent>, rows: seq<Row>, key: string)
    ensures OccursRaw(env, ScopedRaws(env, parent, rows), key)
       <==> exists i :: 0 <= i < |rows| && CarriesInScope(env, parent, rows[i], key)
  {
    if rows != [] {
      var front, last := rows[..|rows| - 1], rows[|rows| - 1];
      ScopedOccurs(env, parent, front, key);
      ScopedSnoc(env, parent, rows);
      OccursRawSnoc(env, ScopedRaws(env, parent, front), last.raw);
      assert forall i :: 0 <= i < |front| ==> front[i] == rows[i];
      if CarriesInScope(env, parent, last, key) {
        assert CarriesInScope(env, parent, rows[|front|], key);
      }
    }
  }

  /** Every key asked about that some record has is a key some record in scope has. */
  ghost predicate ScopeSeesAllKeys(env: Env, rows: seq<Row>, parent: Option<Parent>, equality: map<string, string>) {
    forall k :: k in equality && Occurs(env, rows, k) ==>
      exists i :: 0 <= i < |rows| && CarriesInScope(env, parent, rows[i], k)
  }

  lemma AbsentScoped(env: Env, rows: seq<Row>, parent: Option<Parent>, equality: map<string, string>)
    ensures Absent(env, rows, equality) <= AbsentRaw(env, ScopedRaws(env, parent, rows), equality)
    ensures ScopeSeesAllKeys(env, rows, parent, equality)
       <==> Absent(env, rows, equality) == AbsentRaw(env, ScopedRaws(env, parent, rows), equality)
  {
    forall k
      ensures OccursRaw(env, ScopedRaws(env, parent, rows), k)
         <==> exists i :: 0 <= i < |rows| && CarriesInScope(env, parent, rows[i], k)
      ensures OccursRaw(env, ScopedRaws(env, parent, rows), k) ==> Occurs(env, rows, k)
    {
      ScopedOccurs(env, parent, rows, k);
    }
    forall k | k in equality && ScopeSeesAllKeys(env, rows, parent, equality)
      ensures Occurs(env, rows, k) <==> OccursRaw(env, ScopedRaws(env, parent, rows), k)
    {
    }
    if Absent(env, rows, equality) == AbsentRaw(env, ScopedRaws(env, parent, rows), equality) {
      forall k | k in equality && Occurs(env, rows, k)
        ensures OccursRaw(env, ScopedRaws(env, parent, rows), k)
      {
        assert k !in Absent(env, rows, equality);
      }
    }
  }

  /** The two forms agree exactly when scoping hides no key: only then do they drop the same conditions. */
  lemma LoadAgreesWithBatchIff(
      env: Env, rows: seq<Row>, parent: Option<Parent>, q: Query,
      items: seq<Raw>, unsupported: seq<string>, batchItems: seq<Raw>, batchUnsupported: seq<string>)
    requires IsLoad(env, rows, parent, q, items, unsupported)
    requires IsBatch(env, ScopedRaws(env, parent, rows), q, batchItems, batchUnsupported)
    ensures (items == batchItems && unsupported == batchUnsupported)
       <==> ScopeSeesAllKeys(env, rows, parent, q.equality)
  {
    var absent, absentRaw := Absent(env, rows, q.equality), AbsentRaw(env, ScopedRaws(env, parent, rows), q.equality);
    AbsentScoped(env, rows, parent, q.equality);
    if absent == absentRaw {
      SelectedIsFilteredScope(env, parent, q.equality - absent, rows);
      OrderedStringsUnique(unsupported, batchUnsupported);
    } else if unsupported == batchUnsupported {
      MultisetOfSet(absent, absentRaw, multiset(q.unsupported));
    }
  }

  lemma MultisetOfSet(a: set<string>, b: set<string>, base: multiset<string>)
    requires base + multiset(a) == base + multiset(b)
    ensures a == b
  {
    forall k
      ensures k in a <==> k in b
    {
      assert (base + multiset(a))[k] == base[k] + multiset(a)[k];
      assert (base + multiset(b))[k] == base[k] + multiset(b)[k];
    }
  }

  /** With no parent scope and no empty records, the streaming load is the batch form over all the records. */
  lemma LoadRefinesBatch(
      env: Env, rows: seq<Row>, q: Query,
      items: seq<Raw>, unsupported: seq<string>, batchItems: seq<Raw>, batchUnsupported: seq<string>)
    requires forall i :: 0 <= i < |rows| ==> !env.isEmpty(rows[i].raw)
    requires IsLoad(env, rows, None, q, items, unsupported)
    requires IsBatch(env, seq(|rows|, i requires 0 <= i < |rows| => rows[i].raw), q, batchItems, batchUnsupported)
    ensures items == batchItems && unsupported == batchUnsupported
  {
    AllInScope(env, rows);
    LoadAgreesWithBatchIff(env, rows, None, q, items, unsupported, batchItems, batchUnsupported);
    forall k | k in q.equality && Occurs(env, rows, k)
      ensures exists i :: 0 <= i < |rows| && CarriesInScope(env, None, rows[i], k)
    {
      var i :| 0 <= i < |rows| && Carries(env, rows[i], k);
      assert CarriesInScope(env, None, rows[i], k);
    }
  }

  lemma {:induction false} AllInScope(env: Env, rows: seq<Row>)
    requires forall i :: 0 <= i < |rows| ==> !env.isEmpty(rows[i].raw)
    ensures ScopedRaws(env, None, rows) == seq(|rows|, i requires 0 <= i < |rows| => rows[i].raw)
  {
    if rows != [] {
      AllInScope(env, rows[..|rows| - 1]);
    }
  }

  // ----- Pages

  /** The records of page `p` when `n` are asked for at a time. */
  function PageOf(s: seq<Raw>, p: nat, n: nat): seq<Raw>
    requires p >= 1
  {
    var q := ApplyPage(NO_QUERY.(limit := n, page := p));
    Window(s, q.offset, q.limit)
  }

  function FirstPages(s: seq<Raw>, pages: nat, n: nat): seq<Raw> {
    if pages == 0 then [] else FirstPages(s, pages - 1, n) + PageOf(s, pages, n)
  }

  /** Pages 1 to `k` laid end to end are the first `k * n` matches, as long as the offsets fit Go's int. */
  lemma {:induction false} PagesTile(s: seq<Raw>, k: nat, n: nat)
    requires IsInt(k * n)
    ensures FirstPages(s, k, n) == s[..Min(|s|, k * n)]
  {
    hide PageOf;
    if k > 0 {
      PagesFit(k, n);
      PagesTile(s, k - 1, n);
      PageIs(s, k, n, (k - 1) * n);
    }
  }

  lemma PagesFit(k: nat, n: nat)
    requires k > 0
    ensures k * n == (k - 1) * n + n && 0 <= (k - 1) * n
  {
  }

  lemma PageIs(s: seq<Raw>, k: nat, n: nat, before: nat)
    requires k > 0 && before == (k - 1) * n && IsInt(before + n)
    ensures PageOf(s, k, n) == s[Min(|s|, before)..Min(|s|, before + n)]
  {
    hide Wrap;
  }

  /** The parameters ask for page `p` of `n` records, in whatever order, and for nothing else about paging. */
  ghost predicate AsksForPage(
      env: Env, params: seq<(string, string)>, pageKey: string, limitKey: string, p: nat, n: nat)
  {
    && DistinctKeys(params) && (pageKey, Itoa(p)) in params && (limitKey, Itoa(n)) in params
    && KindOf(env.canon(pageKey)) == Page && KindOf(env.canon(limitKey)) == Limit
    && env.trim(Itoa(p)) == Itoa(p) && env.trim(Itoa(n)) == Itoa(n)
    && forall kv :: kv in params && kv.0 !in {pageKey, limitKey} ==> FateOf(env, kv.0, kv.1) != Pages
  }

  lemma {:induction false} ReadsPageSoFar(
      env: Env, params: seq<(string, string)>, pageKey: string, limitKey: string, p: nat, n: nat, j: nat)
    requires AsksForPage(env, params, pageKey, limitKey, p, n) && p > 0 && IsInt(p) && IsInt(n) && j <= |params|
    ensures var q := ReadParams(env, params[..j]);
            && q.page == (if (pageKey, Itoa(p)) in params[..j] then p else 0) && q.offset == 0
            && q.limit == (if (limitKey, Itoa(n)) in params[..j] then n else -1)
  {
    hide ReadParam, FateOf, KindOf;
    if j > 0 {
      ReadsPageSoFar(env, params, pageKey, limitKey, p, n, j - 1);
      var front, kv := params[..j - 1], params[j - 1];
      assert params[..j][..j - 1] == front && params[..j] == front + [kv];
      ReadParamEffect(env, ReadParams(env, front), kv.0, kv.1);
      KeyOnce(params, j - 1, pageKey, Itoa(p));
      KeyOnce(params, j - 1, limitKey, Itoa(n));
      if kv.0 in {pageKey, limitKey} {
        ReadsNumber(env, ReadParams(env, front), kv.0, if kv.0 == pageKey then p else n);
      }
    }
  }

  lemma KeyOnce(params: seq<(string, string)>, j: nat, key: string, text: string)
    requires DistinctKeys(params) && (key, text) in params && j < |params|
    ensures params[j].0 == key <==> params[j] == (key, text)
  {
  }

  lemma ReadsNumber(env: Env, q: Query, key: string, n: nat)
    requires IsInt(n) && env.trim(Itoa(n)) == Itoa(n)
    ensures KindOf(env.canon(key)) == Limit ==> ReadParam(env, q, key, Itoa(n)) == q.(limit := n)
    ensures KindOf(env.canon(key)) == Page && n > 0 ==> ReadParam(env, q, key, Itoa(n)) == q.(page := n)
  {
    hide KindOf;
    AtoiOfItoa(n);
  }

  /** The query of such parameters. */
  lemma ReadsPage(env: Env, params: seq<(string, string)>, pageKey: string, limitKey: string, p: nat, n: nat)
    requires AsksForPage(env, params, pageKey, limitKey, p, n) && p > 0 && IsInt(p) && IsInt(n)
    ensures var q := ReadParams(env, params); q.page == p && q.limit == n && q.offset == 0
  {
    ReadsPageSoFar(env, params, pageKey, limitKey, p, n, |params|);
    assert params[..|params|] == params;
  }

  /** Apart from the page number they are the same parameters, not necessarily in the same order. */
  ghost predicate SameBut(a: seq<(string, string)>, b: seq<(string, string)>, pageKey: string) {
    forall kv: (string, string) :: kv.0 != pageKey ==> (kv in a <==> kv in b)
  }

  lemma FiltersIncluded(
      env: Env, a: seq<(string, string)>, b: seq<(string, string)>, pageKey: string)
    requires DistinctKeys(a) && DistinctKeys(b) && SameBut(a, b, pageKey) && KindOf(env.canon(pageKey)) == Page
    ensures var p, q := ReadParams(env, a).equality, ReadParams(env, b).equality;
            forall k :: k in p ==> k in q && q[k] == p[k]
  {
    hide ReadParams, KindOf;
    forall k | k in ReadParams(env, a).equality
      ensures k in ReadParams(env, b).equality && ReadParams(env, b).equality[k] == ReadParams(env, a).equality[k]
    {
      if forall i :: 0 <= i < |a| ==> a[i].0 != k {
        ForeignKey(env, a, k);
        assert false;
      }
      var i :| 0 <= i < |a| && a[i].0 == k;
      NoParamDropped(env, a, i);
      assert a[i] in b;
      var j :| 0 <= j < |b| && b[j] == a[i];
      NoParamDropped(env, b, j);
    }
  }

  /** The matches of a query: what the list would be without paging. */
  ghost function Matches(env: Env, rows: seq<Row>, parent: Option<Parent>, params: seq<(string, string)>): seq<Raw> {
    var equality := ReadParams(env, params).equality;
    Selected(env, parent, equality - Absent(env, rows, equality), rows)
  }

  /** Loading pages 1 to `k` of `n` records gives, laid end to end, the first `k * n` matches. */
  lemma {:induction false} LoadedPagesTile(
      env: Env, rows: seq<Row>, parent: Option<Parent>, pageKey: string, limitKey: string, n: nat,
      queries: seq<seq<(string, string)>>, pages: seq<seq<Raw>>, unsupported: seq<seq<string>>)
    requires |queries| == |pages| == |unsupported| > 0
    requires IsInt(|pages|) && IsInt(n) && IsInt(|pages| * n)
    requires forall i :: 0 <= i < |pages| ==>
      && AsksForPage(env, queries[i], pageKey, limitKey, i + 1, n) && SameBut(queries[i], queries[0], pageKey)
      && IsLoad(env, rows, parent, ParsedQuery(env, queries[i]), pages[i], unsupported[i])
    ensures var matches := Matches(env, rows, parent, queries[0]);
            Concat(pages) == matches[..Min(|matches|, |pages| * n)]
  {
    var matches := Matches(env, rows, parent, queries[0]);
    forall i | 0 <= i < |pages|
      ensures pages[i] == PageOf(matches, i + 1, n)
    {
      LoadedPage(env, rows, parent, pageKey, limitKey, n, i + 1, queries[i], queries[0], pages[i], unsupported[i]);
    }
    ConcatIsFirstPages(matches, pages, n);
    PagesTile(matches, |pages|, n);
  }

  lemma LoadedPage(
      env: Env, rows: seq<Row>, parent: Option<Parent>, pageKey: string, limitKey: string, n: nat, p: nat,
      params: seq<(string, string)>, first: seq<(string, string)>, page: seq<Raw>, unsupported: seq<string>)
    requires p > 0 && IsInt(p) && IsInt(n) && AsksForPage(env, params, pageKey, limitKey, p, n)
    requires DistinctKeys(first) && SameBut(params, first, pageKey)
    requires IsLoad(env, rows, parent, ParsedQuery(env, params), page, unsupported)
    ensures page == PageOf(Matches(env, rows, parent, first), p, n)
  {
    hide ReadParams, KindOf, Wrap, Absent, Selected;
    ReadsPage(env, params, pageKey, limitKey, p, n);
    FiltersIncluded(env, params, first, pageKey);
    FiltersIncluded(env, first, params, pageKey);
    assert ReadParams(env, params).equality == ReadParams(env, first).equality;
  }

  lemma {:induction false} ConcatIsFirstPages(s: seq<Raw>, pages: seq<seq<Raw>>, n: nat)
    requires forall i :: 0 <= i < |pages| ==> pages[i] == PageOf(s, i + 1, n)
    ensures Concat(pages) == FirstPages(s, |pages|, n)
  {
    hide PageOf;
    if pages != [] {
      ConcatIsFirstPages(s, pages[..|pages| - 1], n);
    }
  }
}

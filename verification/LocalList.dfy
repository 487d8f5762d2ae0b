/** Reading a list from the local store. */
module LocalList {
  import opened Basics
  import opened Sorting
  import opened LocalListQuery

  // ----- What the answer is

  /** The record meets every equality condition. */
  predicate Keeps(env: Env, equality: map<string, string>, raw: Raw) {
    equality == map[] ||
    (env.parses(raw) && forall k :: k in equality ==> env.has(raw, k) && env.equals(raw, k, equality[k]))
  }

  /** A row whose id carries its parent is judged by the id, any other by the fields of its record. */
  function ParentInId(id: string): Option<string> {
    var i := IndexOfNul(id);
    if i <= 0 || i == |id| - 1 then None else Some(id[i + 1..])
  }

  function IndexOfNul(id: string, from: nat := 0): (i: int)
    requires from <= |id|
    ensures i == -1 || (from <= i < |id| && id[i] == '\0')
    ensures forall j :: from <= j < (if i == -1 then |id| else i) ==> id[j] != '\0'
    decreases |id| - from
  {
    if from == |id| then -1 else if id[from] == '\0' then from else IndexOfNul(id, from + 1)
  }

  predicate InScope(env: Env, parent: Option<Parent>, row: Row) {
    match parent
    case None => true
    case Some(p) =>
      match ParentInId(row.id)
      case Some(id) => id == p.id
      case None => env.parses(row.raw) && env.storedParentMatches(row.raw, p)
  }

  predicate Accepts(env: Env, parent: Option<Parent>, equality: map<string, string>, row: Row) {
    !env.isEmpty(row.raw) && InScope(env, parent, row) && Keeps(env, equality, row.raw)
  }

  /** The records of the accepted rows, in order. */
  function Selected(env: Env, parent: Option<Parent>, equality: map<string, string>, rows: seq<Row>): (raws: seq<Raw>)
    ensures |raws| <= |rows|
  {
    if rows == [] then []
    else
      var last := rows[|rows| - 1];
      Selected(env, parent, equality, rows[..|rows| - 1])
        + if Accepts(env, parent, equality, last) then [last.raw] else []
  }

  function Max(a: int, b: int): int {
    if a < b then b else a
  }

  /** `s` from `offset` on, at most `limit` of it; a negative limit is none. */
  function Window<T>(s: seq<T>, offset: int, limit: int): (w: seq<T>)
    ensures limit >= 0 ==> |w| <= limit
  {
    var d := s[Min(|s|, Max(0, offset))..];
    if limit >= 0 && |d| > limit then d[..limit] else d
  }

  predicate Carries(env: Env, row: Row, key: string) {
    !env.isEmpty(row.raw) && env.parses(row.raw) && env.has(row.raw, key)
  }

  /** Some record that decodes carries the key. */
  ghost predicate Occurs(env: Env, rows: seq<Row>, key: string) {
    exists i :: 0 <= i < |rows| && Carries(env, rows[i], key)
  }

  ghost predicate AnyRecord(env: Env, rows: seq<Row>) {
    exists i :: 0 <= i < |rows| && !env.isEmpty(rows[i].raw)
  }

  ghost function Absent(env: Env, rows: seq<Row>, equality: map<string, string>): set<string> {
    set k | k in equality && !Occurs(env, rows, k)
  }

  /** What a local list is to return: conditions on keys no record has are dropped and reported. */
  ghost predicate IsLoad(
      env: Env, rows: seq<Row>, parent: Option<Parent>, q: Query, items: seq<Raw>, unsupported: seq<string>)
  {
    var absent := Absent(env, rows, q.equality);
    && items == Window(Selected(env, parent, q.equality - absent, rows), q.offset, q.limit)
    && Ordered(unsupported, StringLess)
    && multiset(unsupported) == multiset(q.unsupported) + multiset(absent)
  }

  // ----- What that means

  /** The first zero byte of the id is at `i`, with something on both sides of it. */
  ghost predicate SplitsAt(id: string, i: int) {
    0 < i < |id| - 1 && id[i] == '\0' && forall j :: 0 <= j < i ==> id[j] != '\0'
  }

  /** A row stored under a parent is in scope of that parent and of no other. */
  lemma StoredUnder(env: Env, bare: string, owner: string, raw: Raw, p: Parent)
    requires bare != "" && owner != "" && '\0' !in bare
    ensures InScope(env, Some(p), Row(bare + "\0" + owner, raw)) <==> owner == p.id
  {
    var id := bare + "\0" + owner;
    assert id[|bare|] == '\0' && id[|bare| + 1..] == owner;
    forall j | 0 <= j < |bare|
      ensures id[j] != '\0'
    {
      assert id[j] == bare[j];
    }
    assert IndexOfNul(id) == |bare|;
  }

  /** A row whose id does not say is in scope if its record decodes and names the parent. */
  lemma JudgedByRecord(env: Env, row: Row, p: Parent)
    requires forall i :: !SplitsAt(row.id, i)
    ensures InScope(env, Some(p), row) <==> env.parses(row.raw) && env.storedParentMatches(row.raw, p)
  {
    assert !SplitsAt(row.id, IndexOfNul(row.id));
  }

  /** The row belongs to the parent, by its id or, where that does not say, by its record. */
  ghost predicate BelongsTo(env: Env, parent: Option<Parent>, row: Row) {
    || parent.None?
    || (exists bare :: bare != "" && '\0' !in bare && parent.value.id != "" && row.id == bare + "\0" + parent.value.id)
    || ((forall i :: !SplitsAt(row.id, i)) && env.parses(row.raw) && env.storedParentMatches(row.raw, parent.value))
  }

  lemma InScopeIff(env: Env, parent: Option<Parent>, row: Row)
    ensures InScope(env, parent, row) <==> BelongsTo(env, parent, row)
  {
    if parent.Some? {
      var p, id := parent.value, row.id;
      if i :| SplitsAt(id, i) {
        var bare, owner := id[..i], id[i + 1..];
        assert id == bare + "\0" + owner;
        StoredUnder(env, bare, owner, row.raw, p);
        forall other | other != "" && '\0' !in other && p.id != "" && id == other + "\0" + p.id
          ensures owner == p.id
        {
          SplitOnce(bare, owner, other, p.id);
        }
      } else {
        JudgedByRecord(env, row, p);
        forall bare | bare != "" && '\0' !in bare && p.id != ""
          ensures id != bare + "\0" + p.id
        {
          if id == bare + "\0" + p.id {
            assert forall j :: 0 <= j < |bare| ==> id[j] == bare[j];
            assert SplitsAt(id, |bare|);
          }
        }
      }
    }
  }

  lemma SplitOnce(a: string, x: string, b: string, y: string)
    requires '\0' !in a && '\0' !in b && a + "\0" + x == b + "\0" + y
    ensures a == b && x == y
  {
    FirstNul(a, x);
    FirstNul(b, y);
  }

  lemma FirstNul(a: string, x: string)
    requires '\0' !in a
    ensures var s := a + "\0" + x; IndexOfNul(s) == |a| && s[..|a|] == a && s[|a| + 1..] == x
  {
    var s := a + "\0" + x;
    assert s[|a|] == '\0';
    forall j | 0 <= j < |a|
      ensures s[j] != '\0'
    {
      assert s[j] == a[j];
    }
  }

  /** A row is wanted if it is not empty, belongs to the parent, and decodes to a record that meets every condition on a
      key some record has. */
  ghost predicate IsWanted(env: Env, rows: seq<Row>, parent: Option<Parent>, equality: map<string, string>, row: Row) {
    && !env.isEmpty(row.raw) && BelongsTo(env, parent, row)
    && forall k :: k in equality && SomeRecordHas(env, rows, k) ==>
         env.parses(row.raw) && env.has(row.raw, k) && env.equals(row.raw, k, equality[k])
  }

  ghost predicate SomeRecordHas(env: Env, rows: seq<Row>, key: string) {
    exists row :: row in rows && !env.isEmpty(row.raw) && env.parses(row.raw) && env.has(row.raw, key)
  }

  lemma AbsentIff(env: Env, rows: seq<Row>, equality: map<string, string>, k: string)
    ensures k in Absent(env, rows, equality) <==> k in equality && !SomeRecordHas(env, rows, k)
  {
    if row :| row in rows && !env.isEmpty(row.raw) && env.parses(row.raw) && env.has(row.raw, k) {
      var i :| 0 <= i < |rows| && rows[i] == row;
      assert Carries(env, rows[i], k);
    }
    if i :| 0 <= i < |rows| && Carries(env, rows[i], k) {
      assert rows[i] in rows;
    }
  }

  function RawsOf(rows: seq<Row>): seq<Raw> {
    if rows == [] then [] else RawsOf(rows[..|rows| - 1]) + [rows[|rows| - 1].raw]
  }

  lemma {:induction false} SelectedIs(
      env: Env, parent: Option<Parent>, equality: map<string, string>, rows: seq<Row>, wanted: Row -> bool)
    requires forall row :: wanted(row) <==> Accepts(env, parent, equality, row)
    ensures Selected(env, parent, equality, rows) == RawsOf(Where(rows, wanted))
  {
    hide Accepts, Where;
    if rows == [] {
      WhereNone(wanted);
      assert RawsOf(Where(rows, wanted)) == [];
    } else {
      var front, last := rows[..|rows| - 1], rows[|rows| - 1];
      SelectedIs(env, parent, equality, front, wanted);
      WhereSnoc(front, last, wanted);
      assert rows == front + [last];
      var kept := Where(front, wanted);
      assert RawsOf(kept + [last]) == RawsOf(kept) + [last.raw] by {
        assert (kept + [last])[..|kept|] == kept;
      }
      assert kept + [] == kept;
    }
  }

  lemma WantedIsAccepted(
      env: Env, rows: seq<Row>, parent: Option<Parent>, equality: map<string, string>, row: Row)
    ensures IsWanted(env, rows, parent, equality, row)
       <==> Accepts(env, parent, equality - Absent(env, rows, equality), row)
  {
    hide InScope, BelongsTo, Absent, SomeRecordHas;
    InScopeIff(env, parent, row);
    var left := equality - Absent(env, rows, equality);
    forall k
      ensures k in left <==> k in equality && SomeRecordHas(env, rows, k)
    {
      AbsentIff(env, rows, equality, k);
    }
    if left != map[] {
      var k :| k in left;
      assert k in equality && SomeRecordHas(env, rows, k);
    }
  }

  /** A load returns the wanted rows' records in order, from the offset on and up to the limit, and reports the
      conditions on keys no record has. */
  lemma LoadedExactly(
      env: Env, rows: seq<Row>, parent: Option<Parent>, q: Query, items: seq<Raw>, unsupported: seq<string>,
      wanted: Row -> bool)
    requires IsLoad(env, rows, parent, q, items, unsupported)
    requires forall row :: wanted(row) <==> IsWanted(env, rows, parent, q.equality, row)
    ensures
      var all := RawsOf(Where(rows, wanted));
      var from := if q.offset < 0 then 0 else if q.offset > |all| then |all| else q.offset;
      items == if 0 <= q.limit < |all| - from then all[from..from + q.limit] else all[from..]
    ensures forall k :: k in unsupported <==> k in q.unsupported || (k in q.equality && !SomeRecordHas(env, rows, k))
  {
    hide Accepts, IsWanted, SomeRecordHas, Selected, Where, RawsOf, Absent, StringLess;
    var left := q.equality - Absent(env, rows, q.equality);
    forall row
      ensures wanted(row) <==> Accepts(env, parent, left, row)
    {
      WantedIsAccepted(env, rows, parent, q.equality, row);
    }
    SelectedIs(env, parent, left, rows, wanted);
    forall k
      ensures k in unsupported <==> k in q.unsupported || (k in q.equality && !SomeRecordHas(env, rows, k))
    {
      AbsentIff(env, rows, q.equality, k);
      assert k in unsupported <==> k in multiset(unsupported);
      assert k in q.unsupported <==> k in multiset(q.unsupported);
    }
  }

  /** Under a parent and without conditions or paging, a load returns the records stored under that parent, in order. */
  lemma LoadsChildren(
      env: Env, rows: seq<Row>, p: Parent, q: Query, items: seq<Raw>, unsupported: seq<string>, bareOf: Row -> string,
      ownerOf: Row -> string)
    requires IsLoad(env, rows, Some(p), q, items, unsupported) && q.equality == map[] && q.limit < 0 && q.offset <= 0
    requires forall row :: row in rows ==>
      && !env.isEmpty(row.raw) && row.id == bareOf(row) + "\0" + ownerOf(row)
      && bareOf(row) != "" && '\0' !in bareOf(row) && ownerOf(row) != ""
    ensures items == RawsOf(Where(rows, (row: Row) => ownerOf(row) == p.id))
  {
    hide IsLoad, BelongsTo, Where, RawsOf, InScope;
    ghost var wanted := (row: Row) => IsWanted(env, rows, Some(p), q.equality, row);
    forall row | row in rows
      ensures wanted(row) <==> ownerOf(row) == p.id
    {
      StoredUnder(env, bareOf(row), ownerOf(row), row.raw, p);
      InScopeIff(env, Some(p), row);
      assert row == Row(bareOf(row) + "\0" + ownerOf(row), row.raw);
    }
    SameWhere(rows, wanted, (row: Row) => ownerOf(row) == p.id);
    LoadedExactly(env, rows, Some(p), q, items, unsupported, wanted);
  }

  // ----- The streaming scan

  /** Everything a row can add once `n` accepted rows have been counted is beyond the window. */
  predicate WindowFull(n: nat, offset: int, limit: int) {
    limit >= 0 && n >= Max(0, offset) + Max(1, limit)
  }

  /** What the visitor has gathered. */
  datatype Tally = Tally(items: seq<Raw>, skipped: nat, sawValid: bool, present: map<string, bool>)

  /** The tally is that of `rows`: it holds the window over the accepted ones and notes what was seen in any. */
  ghost predicate IsTally(env: Env, parent: Option<Parent>, q: Query, rows: seq<Row>, t: Tally) {
    var accepted := Selected(env, parent, q.equality, rows);
    && t.items == Window(accepted, q.offset, q.limit)
    && t.skipped == Min(|accepted|, Max(0, q.offset))
    && (t.sawValid <==> AnyRecord(env, rows))
    && t.present.Keys == q.equality.Keys
    && forall k :: k in t.present ==> (t.present[k] <==> Occurs(env, rows, k))
  }

  predicate AllPresent(t: Tally) {
    forall k :: k in t.present ==> t.present[k]
  }

  /** One visit: every row leaves its notes, and an accepted one is skipped, discarded or collected. */
  ghost predicate Visited(env: Env, parent: Option<Parent>, q: Query, row: Row, t: Tally, t': Tally, more: bool) {
    && t'.sawValid == (t.sawValid || !env.isEmpty(row.raw))
    && t'.present == (map k | k in t.present :: t.present[k] || Carries(env, row, k))
    && if !Accepts(env, parent, q.equality, row) then
         more && t'.items == t.items && t'.skipped == t.skipped
       else if t.skipped < q.offset then
         more && t'.items == t.items && t'.skipped == t.skipped + 1
       else
         && t'.items == (if q.limit == 0 then t.items else t.items + [row.raw]) && t'.skipped == t.skipped
         && (more <==> q.limit < 0 || |t'.items| < q.limit || !AllPresent(t'))
  }

  /** The variables `scanLocalList`'s visitor closes over. */
  class LocalScan {
    const env: Env
    const parent: Option<Parent>
    const q: Query
    var items: seq<Raw>
    var skipped: nat
    var sawValid: bool
    var present: map<string, bool>

    function Tallied(): Tally reads this { Tally(items, skipped, sawValid, present) }

    constructor (env: Env, parent: Option<Parent>, q: Query)
      ensures IsTally(env, parent, q, [], Tallied()) && this.env == env && this.parent == parent && this.q == q
    {
      this.env, this.parent, this.q := env, parent, q;
      items, skipped, sawValid := [], 0, false;
      present := map k | k in q.equality :: false;
    }

    /** The visitor; a row that is not accepted only leaves its notes. */
    method Visit(row: Row) returns (more: bool)
      modifies this
      ensures Visited(env, parent, q, row, old(Tallied()), Tallied(), more)
    {
      hide InScope, Keeps;
      if env.isEmpty(row.raw) {
        return true;
      }
      sawValid := true;
      if env.parses(row.raw) {
        present := map k | k in present :: present[k] || env.has(row.raw, k);
      }
      if !InScope(env, parent, row) {
        return true;
      }
      if !Keeps(env, q.equality, row.raw) {
        return true;
      }
      if q.offset > 0 && skipped < q.offset {
        skipped := skipped + 1;
        return true;
      }
      var unknown := exists k :: k in present && !present[k];
      if q.limit == 0 {
        return unknown;
      }
      items := items + [row.raw];
      if q.limit > 0 && |items| >= q.limit && !unknown {
        return false;
      }
      more := true;
    }
  }

  lemma SelectedSnoc(env: Env, parent: Option<Parent>, equality: map<string, string>, rows: seq<Row>, row: Row)
    ensures Selected(env, parent, equality, rows + [row])
         == Selected(env, parent, equality, rows) + if Accepts(env, parent, equality, row) then [row.raw] else []
  {
    assert (rows + [row])[..|rows|] == rows;
  }

  lemma OccursSnoc(env: Env, rows: seq<Row>, row: Row)
    ensures forall k :: Occurs(env, rows + [row], k) <==> (Occurs(env, rows, k) || Carries(env, row, k))
    ensures AnyRecord(env, rows + [row]) <==> (AnyRecord(env, rows) || !env.isEmpty(row.raw))
  {
    var all := rows + [row];
    assert all[|rows|] == row && forall i :: 0 <= i < |rows| ==> all[i] == rows[i];
  }

  /** One more accepted record either still falls before the window, or is added to it. */
  lemma WindowSnoc<T>(s: seq<T>, x: T, offset: int, limit: int)
    requires !WindowFull(|s|, offset, limit)
    ensures Window(s + [x], offset, limit) == Window(s, offset, limit) + if |s| < offset || limit == 0 then [] else [x]
    ensures |s| < offset || limit == 0 ==> Window(s, offset, limit) == []
    ensures |s| >= offset && limit != 0 ==> |Window(s, offset, limit)| == |s| - Max(0, offset)
  {
  }

  lemma WindowStable<T>(s: seq<T>, t: seq<T>, offset: int, limit: int)
    requires WindowFull(|s|, offset, limit)
    ensures Window(s + t, offset, limit) == Window(s, offset, limit)
  {
  }

  /** A visit keeps the tally right; and it asks to stop exactly when the window is full, all keys being known then. */
  lemma VisitTallies(
      env: Env, parent: Option<Parent>, q: Query, rows: seq<Row>, row: Row, t: Tally, t': Tally, more: bool)
    requires IsTally(env, parent, q, rows, t)
      && !WindowFull(|Selected(env, parent, q.equality, rows)|, q.offset, q.limit)
    requires Visited(env, parent, q, row, t, t', more)
    ensures IsTally(env, parent, q, rows + [row], t')
    ensures more <==> !WindowFull(|Selected(env, parent, q.equality, rows + [row])|, q.offset, q.limit)
    ensures !more ==> AllPresent(t')
  {
    SelectedSnoc(env, parent, q.equality, rows, row);
    OccursSnoc(env, rows, row);
    var s := Selected(env, parent, q.equality, rows);
    if Accepts(env, parent, q.equality, row) {
      WindowSnoc(s, row.raw, q.offset, q.limit);
      assert AllPresent(t') by {
        assert forall k :: k in q.equality ==> Carries(env, row, k);
      }
    }
  }

  /** `scanLocalList`: stopping early changes neither the items nor the reported keys. */
  method Scan(env: Env, parent: Option<Parent>, q: Query, rows: seq<Row>)
      returns (t: Tally, unmatched: seq<string>, visits: nat)
    ensures IsTally(env, parent, q, rows, t)
    ensures Ordered(unmatched, StringLess) && multiset(unmatched) == multiset(Absent(env, rows, q.equality))
    ensures q.limit >= 0 ==> |t.items| <= q.limit
    ensures visits <= |rows|
    ensures visits < |rows| ==> WindowFull(|Selected(env, parent, q.equality, rows[..visits])|, q.offset, q.limit)
    ensures forall j :: 0 <= j < visits ==>
      !WindowFull(|Selected(env, parent, q.equality, rows[..j])|, q.offset, q.limit)
  {
    hide Selected, Window, Occurs, AnyRecord, Visited;
    var scan := new LocalScan(env, parent, q);
    var more := true;
    var i := 0;
    while i < |rows| && more
      invariant 0 <= i <= |rows|
      invariant scan.env == env && scan.parent == parent && scan.q == q
      invariant IsTally(env, parent, q, rows[..i], scan.Tallied())
      invariant more <==> !WindowFull(|Selected(env, parent, q.equality, rows[..i])|, q.offset, q.limit)
      invariant !more ==> AllPresent(scan.Tallied())
      invariant forall j :: 0 <= j < i ==>
        !WindowFull(|Selected(env, parent, q.equality, rows[..j])|, q.offset, q.limit)
    {
      ghost var before := scan.Tallied();
      more := scan.Visit(rows[i]);
      VisitTallies(env, parent, q, rows[..i], rows[i], before, scan.Tallied(), more);
      assert rows[..i + 1] == rows[..i] + [rows[i]];
      i := i + 1;
    }
    t, visits := scan.Tallied(), i;
    RestAddsNothing(env, parent, q, rows, i, t);
    unmatched := UnmatchedEqualityKeys(t.present);
    assert Absent(env, rows, q.equality) == set k | k in t.present && !t.present[k];
  }

  /** Nothing after the row at which the visitor stopped could have changed the tally. */
  lemma RestAddsNothing(env: Env, parent: Option<Parent>, q: Query, rows: seq<Row>, n: nat, t: Tally)
    requires n <= |rows| && IsTally(env, parent, q, rows[..n], t)
    requires n == |rows| ||
      (AllPresent(t) && WindowFull(|Selected(env, parent, q.equality, rows[..n])|, q.offset, q.limit))
    ensures IsTally(env, parent, q, rows, t)
  {
    if n == |rows| {
      assert rows[..n] == rows;
    } else {
      SelectedPrefix(env, parent, q.equality, rows, n);
      var some := Selected(env, parent, q.equality, rows[..n]);
      var all := Selected(env, parent, q.equality, rows);
      WindowStable(some, all[|some|..], q.offset, q.limit);
      SomeRecordSelected(env, parent, q.equality, rows[..n]);
      SeenInMore(env, rows, n);
    }
  }

  lemma SeenInMore(env: Env, rows: seq<Row>, n: nat)
    requires n <= |rows|
    ensures forall k :: Occurs(env, rows[..n], k) ==> Occurs(env, rows, k)
    ensures AnyRecord(env, rows[..n]) ==> AnyRecord(env, rows)
  {
    forall k | Occurs(env, rows[..n], k)
      ensures Occurs(env, rows, k)
    {
      var i :| 0 <= i < n && Carries(env, rows[..n][i], k);
      assert Carries(env, rows[i], k);
    }
    if AnyRecord(env, rows[..n]) {
      var i :| 0 <= i < n && !env.isEmpty(rows[..n][i].raw);
      assert !env.isEmpty(rows[i].raw);
    }
  }

  lemma {:induction false} SelectedPrefix(
      env: Env, parent: Option<Parent>, equality: map<string, string>, rows: seq<Row>, n: nat)
    requires n <= |rows|
    ensures Selected(env, parent, equality, rows[..n]) <= Selected(env, parent, equality, rows)
    decreases |rows|
  {
    if n < |rows| {
      var front := rows[..|rows| - 1];
      SelectedPrefix(env, parent, equality, front, n);
      assert front[..n] == rows[..n];
    } else {
      assert rows[..n] == rows;
    }
  }

  lemma {:induction false} SomeRecordSelected(
      env: Env, parent: Option<Parent>, equality: map<string, string>, rows: seq<Row>)
    requires Selected(env, parent, equality, rows) != []
    ensures AnyRecord(env, rows)
  {
    var front := rows[..|rows| - 1];
    if !Accepts(env, parent, equality, rows[|rows| - 1]) {
      SomeRecordSelected(env, parent, equality, front);
    }
  }

  method UnmatchedEqualityKeys(present: map<string, bool>) returns (out: seq<string>)
    ensures Ordered(out, StringLess) && multiset(out) == multiset(set k | k in present && !present[k])
  {
    out := SortedKeys(set k | k in present && !present[k]);
  }

  // ----- The whole load

  method DropUnmatched(q0: Query, unmatched: seq<string>) returns (q: Query)
    ensures q.unsupported == q0.unsupported + unmatched
    ensures q.equality == q0.equality - set k | k in unmatched
    ensures q.limit == q0.limit && q.offset == q0.offset
  {
    q := q0;
    for i := 0 to |unmatched|
      invariant q.unsupported == q0.unsupported + unmatched[..i]
      invariant q.equality == q0.equality - set k | k in unmatched[..i]
      invariant q.limit == q0.limit && q.offset == q0.offset
    {
      assert unmatched[..i + 1] == unmatched[..i] + [unmatched[i]];
      q := q.(unsupported := q.unsupported + [unmatched[i]], equality := q.equality - {unmatched[i]});
    }
    assert unmatched[..|unmatched|] == unmatched;
  }

  lemma ListsSet(list: seq<string>, s: set<string>)
    requires multiset(list) == multiset(s)
    ensures (set k | k in list) == s
  {
    assert forall k :: k in list <==> k in multiset(list);
  }

  /** Once the absent keys are dropped, every condition left names a key some record has. */
  lemma SecondScanMatchesAll(env: Env, rows: seq<Row>, equality: map<string, string>)
    ensures Absent(env, rows, equality - Absent(env, rows, equality)) == {}
  {
  }

  /** Scan, and if some condition names a key no record has, drop it, report it and scan again. */
  method LoadQuery(env: Env, rows: seq<Row>, parent: Option<Parent>, q0: Query)
      returns (items: seq<Raw>, unsupported: seq<string>, sawValid: bool)
    ensures IsLoad(env, rows, parent, q0, items, unsupported)
    ensures sawValid <==> AnyRecord(env, rows)
  {
    var q := q0;
    var t, unmatched, visits := Scan(env, parent, q, rows);
    ListsSet(unmatched, Absent(env, rows, q0.equality));
    if |unmatched| > 0 {
      q := DropUnmatched(q, unmatched);
      var again;
      t, again, visits := Scan(env, parent, q, rows);
      SecondScanMatchesAll(env, rows, q0.equality);
      assert |multiset(again)| == 0;
    } else {
      assert q.equality - Absent(env, rows, q0.equality) == q.equality;
    }
    StringLessStrictWeak();
    StableSortOrdered(q.unsupported, StringLess);
    items, unsupported, sawValid := t.items, SortStrings(q.unsupported), t.sawValid;
  }

  /** `loadLocalList`. */
  method LoadLocalList(env: Env, rows: seq<Row>, parent: Option<Parent>, params: seq<(string, string)>)
      returns (items: seq<Raw>, unsupported: seq<string>, sawValid: bool)
    ensures IsLoad(env, rows, parent, ParsedQuery(env, params), items, unsupported)
    ensures sawValid <==> AnyRecord(env, rows)
  {
    var q := ParseLocalListQuery(env, params);
    items, unsupported, sawValid := LoadQuery(env, rows, parent, q);
  }
}

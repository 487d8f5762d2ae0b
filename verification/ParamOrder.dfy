/** What becomes of several parameters that page: Go visits a map in any order, and the last one of a kind wins. */
module ParamOrder {
  import opened Basics
  import opened Numerals
  import opened Sorting
  import opened LocalListQuery

  type Param = (string, string)

  /** The parameter is a well-formed one of a kind that pages. */
  predicate Accepted(env: Env, kv: Param, kind: ParamKind) {
    FateOf(env, kv.0, kv.1) == Pages && KindOf(env.canon(kv.0)) == kind
  }

  function ValueOf(env: Env, kv: Param): (n: int)
    requires FateOf(env, kv.0, kv.1) == Pages
    ensures IsInt(n)
  {
    Atoi(env.trim(kv.1)).value
  }

  predicate Paging(kind: ParamKind) {
    kind in {Limit, Offset, Page}
  }

  /** What a query holds of a kind, and what it holds when nothing was said. */
  function FieldOf(q: Query, kind: ParamKind): int
    requires Paging(kind)
  {
    if kind == Limit then q.limit else if kind == Offset then q.offset else q.page
  }

  function LastAccepted(env: Env, params: seq<Param>, kind: ParamKind): Option<int> {
    if params == [] then None
    else
      var last := params[|params| - 1];
      if Accepted(env, last, kind) then Some(ValueOf(env, last)) else LastAccepted(env, params[..|params| - 1], kind)
  }

  /** The query holds the value of the last accepted parameter of each kind. */
  lemma {:induction false} FieldIsLast(env: Env, params: seq<Param>, kind: ParamKind)
    requires Paging(kind)
    ensures FieldOf(ReadParams(env, params), kind) == LastAccepted(env, params, kind).GetOr(FieldOf(NO_QUERY, kind))
  {
    hide KindOf;
    if params != [] {
      FieldIsLast(env, params[..|params| - 1], kind);
    }
  }

  /** No accepted parameter of its kind comes after it. */
  ghost predicate Governs(env: Env, params: seq<Param>, j: int, kind: ParamKind) {
    && 0 <= j < |params| && Accepted(env, params[j], kind)
    && forall k :: j < k < |params| ==> !Accepted(env, params[k], kind)
  }

  lemma {:induction false} LastGoverns(env: Env, params: seq<Param>, kind: ParamKind)
    ensures LastAccepted(env, params, kind).None? ==> forall kv :: kv in params ==> !Accepted(env, kv, kind)
    ensures LastAccepted(env, params, kind).Some? ==>
      exists j :: Governs(env, params, j, kind) && ValueOf(env, params[j]) == LastAccepted(env, params, kind).value
  {
    hide FateOf, KindOf;
    if params != [] {
      var front, last := params[..|params| - 1], params[|params| - 1];
      if Accepted(env, last, kind) {
        assert Governs(env, params, |params| - 1, kind);
      } else {
        LastGoverns(env, front, kind);
        if LastAccepted(env, front, kind).Some? {
          var j :| Governs(env, front, j, kind) && ValueOf(env, front[j]) == LastAccepted(env, front, kind).value;
          assert Governs(env, params, j, kind) && params[j] == front[j];
        }
      }
    }
  }

  /** An accepted parameter takes effect exactly when none of its kind comes after it, or the last of those has the same
      value. */
  lemma PagingParamTakesEffectIff(env: Env, params: seq<Param>, i: nat, kind: ParamKind)
    requires i < |params| && Paging(kind) && Accepted(env, params[i], kind)
    ensures FieldOf(ReadParams(env, params), kind) == ValueOf(env, params[i])
       <==> forall j | i < j && Governs(env, params, j, kind) :: ValueOf(env, params[j]) == ValueOf(env, params[i])
  {
    hide FateOf, KindOf, ReadParams;
    FieldIsLast(env, params, kind);
    LastGoverns(env, params, kind);
    assert params[i] in params;
    var j :| Governs(env, params, j, kind) && ValueOf(env, params[j]) == LastAccepted(env, params, kind).value;
    assert forall k | Governs(env, params, k, kind) :: k == j;
  }

  /** Of two limits the later one wins; the other is neither honoured nor reported. */
  lemma LaterLimitWins(env: Env, first: string, second: string, a: nat, b: nat)
    requires KindOf(env.canon(first)) == Limit && KindOf(env.canon(second)) == Limit && IsInt(a) && IsInt(b)
    requires env.trim(Itoa(a)) == Itoa(a) && env.trim(Itoa(b)) == Itoa(b)
    ensures ReadParams(env, [(first, Itoa(a)), (second, Itoa(b))]) == NO_QUERY.(limit := b)
    ensures ReadParams(env, [(second, Itoa(b)), (first, Itoa(a))]) == NO_QUERY.(limit := a)
  {
    AtoiOfItoa(a);
    AtoiOfItoa(b);
    TwoParams(env, (first, Itoa(a)), (second, Itoa(b)));
    TwoParams(env, (second, Itoa(b)), (first, Itoa(a)));
    hide KindOf, Itoa, Atoi, ReadParams;
  }

  lemma TwoParams(env: Env, x: Param, y: Param)
    ensures ReadParams(env, [x, y]) == ReadParam(env, ReadParam(env, NO_QUERY, x.0, x.1), y.0, y.1)
  {
    hide ReadParam;
    assert [x, y][..1] == [x] && [x][..0] == [];
    assert ReadParams(env, [x]) == ReadParam(env, ReadParams(env, []), x.0, x.1);
    assert ReadParams(env, [x, y]) == ReadParam(env, ReadParams(env, [x]), y.0, y.1);
  }

  // ----- The order of the parameters

  /** The queries ask for the same, and report the same, in whatever order. */
  predicate SameQuery(a: Query, b: Query) {
    && a.equality == b.equality && multiset(a.unsupported) == multiset(b.unsupported)
    && a.limit == b.limit && a.offset == b.offset
  }

  /** What a page number comes to: it is reported, or it moves the offset. */
  function PageEffect(limit: int, page: int): (e: (bool, int))
    ensures IsInt(e.1)
  {
    (page > 1 && limit < 0, if page > 1 && limit >= 0 then Wrap((page - 1) * limit) else 0)
  }

  function EffectOf(q: Query): (e: (bool, int))
    ensures IsInt(e.1)
  {
    PageEffect(q.limit, q.page)
  }

  lemma ParsedIs(env: Env, params: seq<Param>)
    ensures
      var q, p := ReadParams(env, params), ParsedQuery(env, params);
      && IsInt(q.offset) && p.equality == q.equality && p.limit == q.limit && p.offset == Wrap(q.offset + EffectOf(q).1)
      && p.unsupported == q.unsupported + if EffectOf(q).0 then ["page"] else []
  {
    hide *;
    OffsetIsInt(env, params);
    ApplyPageIs(ReadParams(env, params));
    assert ParsedQuery(env, params) == ApplyPage(ReadParams(env, params)) by {
      ParsedApplies(env, params);
    }
  }

  lemma ParsedApplies(env: Env, params: seq<Param>)
    ensures ParsedQuery(env, params) == ApplyPage(ReadParams(env, params))
  {
    hide ReadParams, ApplyPage;
  }

  lemma OffsetIsInt(env: Env, params: seq<Param>)
    ensures IsInt(ReadParams(env, params).offset)
  {
    hide ReadParams, LastAccepted, KindOf, FateOf;
    FieldIsLast(env, params, Offset);
    LastGoverns(env, params, Offset);
  }

  lemma ApplyPageIs(q: Query)
    requires IsInt(q.offset)
    ensures
      var p := ApplyPage(q);
      && p.equality == q.equality && p.limit == q.limit && p.offset == Wrap(q.offset + EffectOf(q).1)
      && p.unsupported == q.unsupported + if EffectOf(q).0 then ["page"] else []
  {
    hide Wrap;
    assert q.offset + 0 == q.offset;
  }

  /** No two accepted parameters ask for different things of one kind. */
  ghost predicate Settled(env: Env, params: seq<Param>) {
    && (forall x, y | x in params && y in params && Accepted(env, x, Limit) && Accepted(env, y, Limit) ::
          ValueOf(env, x) == ValueOf(env, y))
    && (forall x, y | x in params && y in params && Accepted(env, x, Offset) && Accepted(env, y, Offset) ::
          ValueOf(env, x) == ValueOf(env, y))
    && (forall x, y | x in params && y in params && Accepted(env, x, Page) && Accepted(env, y, Page) ::
          SamePages(env, params, x, y))
  }

  predicate SamePages(env: Env, params: seq<Param>, x: Param, y: Param)
    requires FateOf(env, x.0, x.1) == Pages && FateOf(env, y.0, y.1) == Pages
  {
    var limit := ReadParams(env, params).limit;
    PageEffect(limit, ValueOf(env, x)) == PageEffect(limit, ValueOf(env, y))
  }

  // What does not depend on the order in any case.

  lemma DistinctEitherWay(params: seq<Param>, other: seq<Param>)
    requires DistinctKeys(params) && multiset(other) == multiset(params)
    ensures DistinctKeys(other) && forall kv :: kv in other <==> kv in params
  {
    SameElements(other, params);
    DistinctIsSet(params);
    DistinctList(other, set kv | kv in params);
    forall i, j | 0 <= i < j < |other|
      ensures other[i].0 != other[j].0
    {
      assert other[i] in params && other[j] in params;
    }
  }

  function Rejects(env: Env, params: seq<Param>): set<string> {
    set kv | kv in params && FateOf(env, kv.0, kv.1) == Rejected :: kv.0
  }

  lemma {:induction false} ReportsRejected(env: Env, params: seq<Param>)
    requires DistinctKeys(params)
    ensures multiset(ReadParams(env, params).unsupported) == multiset(Rejects(env, params))
  {
    hide ReadParam, FateOf;
    if params != [] {
      var front, last := params[..|params| - 1], params[|params| - 1];
      ReportsRejected(env, front);
      ReadParamEffect(env, ReadParams(env, front), last.0, last.1);
      RejectsSnoc(env, front, last);
      assert params == front + [last];
      hide Rejects, ReadParams;
    }
  }

  lemma RejectsSnoc(env: Env, front: seq<Param>, last: Param)
    requires DistinctKeys(front + [last])
    ensures multiset(Rejects(env, front + [last]))
         == multiset(Rejects(env, front))
            + if FateOf(env, last.0, last.1) == Rejected then multiset{last.0} else multiset{}
  {
    hide FateOf;
    assert (front + [last])[|front|] == last;
    assert forall kv :: kv in front + [last] <==> kv in front || kv == last;
    forall kv | kv in front
      ensures kv.0 != last.0
    {
      var i :| 0 <= i < |front| && front[i] == kv;
      assert (front + [last])[i] == kv;
    }
    assert Rejects(env, front + [last])
        == Rejects(env, front) + if FateOf(env, last.0, last.1) == Rejected then {last.0} else {};
  }

  lemma FiltersAmong(env: Env, params: seq<Param>, other: seq<Param>)
    requires DistinctKeys(params) && DistinctKeys(other) && forall kv :: kv in other <==> kv in params
    ensures
      var p, q := ReadParams(env, params).equality, ReadParams(env, other).equality;
      forall k :: k in p ==> k in q && q[k] == p[k]
  {
    hide ReadParams, FateOf;
    forall k | k in ReadParams(env, params).equality
      ensures k in ReadParams(env, other).equality
      ensures ReadParams(env, other).equality[k] == ReadParams(env, params).equality[k]
    {
      if forall i :: 0 <= i < |params| ==> params[i].0 != k {
        ForeignKey(env, params, k);
        assert false;
      }
      var i :| 0 <= i < |params| && params[i].0 == k;
      NoParamDropped(env, params, i);
      assert params[i] in other;
      var j :| 0 <= j < |other| && other[j] == params[i];
      NoParamDropped(env, other, j);
    }
  }

  /** Filters and reports do not depend on the order. */
  lemma SameRest(env: Env, params: seq<Param>, other: seq<Param>)
    requires DistinctKeys(params) && multiset(other) == multiset(params)
    ensures ReadParams(env, other).equality == ReadParams(env, params).equality
    ensures multiset(ReadParams(env, other).unsupported) == multiset(ReadParams(env, params).unsupported)
  {
    hide ReadParams, FateOf;
    DistinctEitherWay(params, other);
    FiltersAmong(env, params, other);
    FiltersAmong(env, other, params);
    ReportsRejected(env, params);
    ReportsRejected(env, other);
    assert Rejects(env, params) == Rejects(env, other);
  }

  // If nothing is contradicted, the order does not matter.

  lemma SameField(env: Env, params: seq<Param>, other: seq<Param>, kind: ParamKind)
    requires Paging(kind) && forall kv :: kv in other <==> kv in params
    ensures var a, b := LastAccepted(env, params, kind), LastAccepted(env, other, kind);
            (a.Some? <==> b.Some?)
            && (a.Some? ==>
                  exists x, y :: x in params && y in params && Accepted(env, x, kind) && Accepted(env, y, kind)
                    && ValueOf(env, x) == a.value && ValueOf(env, y) == b.value)
  {
    hide FateOf, KindOf, LastAccepted;
    LastGoverns(env, params, kind);
    LastGoverns(env, other, kind);
    var a, b := LastAccepted(env, params, kind), LastAccepted(env, other, kind);
    if a.Some? {
      var i :| Governs(env, params, i, kind) && ValueOf(env, params[i]) == a.value;
      assert params[i] in other;
    }
    if b.Some? {
      var j :| Governs(env, other, j, kind) && ValueOf(env, other[j]) == b.value;
      assert other[j] in params;
    }
  }

  lemma SettledSame(env: Env, params: seq<Param>, other: seq<Param>)
    requires DistinctKeys(params) && multiset(other) == multiset(params) && Settled(env, params)
    ensures SameQuery(ParsedQuery(env, params), ParsedQuery(env, other))
  {
    hide FateOf, KindOf, LastAccepted, ReadParams, ParsedQuery;
    DistinctEitherWay(params, other);
    SameRest(env, params, other);
    ParsedIs(env, params);
    ParsedIs(env, other);
    FieldsAgree(env, params, other);
  }

  lemma FieldsAgree(env: Env, params: seq<Param>, other: seq<Param>)
    requires Settled(env, params) && forall kv :: kv in other <==> kv in params
    ensures
      var p, q := ReadParams(env, params), ReadParams(env, other);
      p.limit == q.limit && p.offset == q.offset && EffectOf(p) == EffectOf(q)
  {
    hide FateOf, KindOf, LastAccepted, ReadParams, PageEffect;
    FieldIsLast(env, params, Limit);
    FieldIsLast(env, other, Limit);
    SameField(env, params, other, Limit);
    FieldIsLast(env, params, Offset);
    FieldIsLast(env, other, Offset);
    SameField(env, params, other, Offset);
    FieldIsLast(env, params, Page);
    FieldIsLast(env, other, Page);
    SameField(env, params, other, Page);
  }

  // If something is, two orders differ.

  function MovedLast(params: seq<Param>, i: nat): seq<Param>
    requires i < |params|
  {
    params[..i] + params[i + 1..] + [params[i]]
  }

  lemma {:induction false} LastOfConcat(env: Env, a: seq<Param>, b: seq<Param>, kind: ParamKind)
    ensures LastAccepted(env, a + b, kind)
         == if LastAccepted(env, b, kind).Some? then LastAccepted(env, b, kind) else LastAccepted(env, a, kind)
  {
    hide Accepted;
    if b == [] {
      assert a + b == a;
    } else {
      LastOfConcat(env, a, b[..|b| - 1], kind);
      assert (a + b)[..|a + b| - 1] == a + b[..|b| - 1];
    }
  }

  lemma LastOfOne(env: Env, kv: Param, kind: ParamKind)
    ensures LastAccepted(env, [kv], kind) == if Accepted(env, kv, kind) then Some(ValueOf(env, kv)) else None
  {
    hide Accepted;
    assert [kv][..0] == [];
  }

  lemma MovedLastWins(env: Env, params: seq<Param>, i: nat, kind: ParamKind)
    requires i < |params|
    ensures multiset(MovedLast(params, i)) == multiset(params)
    ensures LastAccepted(env, MovedLast(params, i), kind)
         == if Accepted(env, params[i], kind) then Some(ValueOf(env, params[i])) else LastAccepted(env, params, kind)
  {
    hide Accepted, LastAccepted;
    var a, x, b := params[..i], [params[i]], params[i + 1..];
    assert params == a + x + b;
    LastOfConcat(env, a + b, x, kind);
    LastOfConcat(env, a, b, kind);
    LastOfConcat(env, a + x, b, kind);
    LastOfConcat(env, a, x, kind);
    LastOfOne(env, params[i], kind);
  }

  /** What the query holds when a parameter is read last. */
  lemma ReadLast(env: Env, params: seq<Param>, i: nat, kind: ParamKind)
    requires i < |params| && Paging(kind) && Accepted(env, params[i], kind)
    ensures
      var p, q := ReadParams(env, params), ReadParams(env, MovedLast(params, i));
      && FieldOf(q, kind) == ValueOf(env, params[i])
      && forall k | Paging(k) && k != kind :: FieldOf(q, k) == FieldOf(p, k)
  {
    hide ReadParams, LastAccepted, FateOf, KindOf, MovedLast;
    forall k | Paging(k)
      ensures FieldOf(ReadParams(env, MovedLast(params, i)), k)
           == if k == kind then ValueOf(env, params[i]) else FieldOf(ReadParams(env, params), k)
    {
      MovedLastWins(env, params, i, k);
      FieldIsLast(env, params, k);
      FieldIsLast(env, MovedLast(params, i), k);
    }
  }

  lemma WrapKeepsApart(a: int, b: int, shift: int)
    requires IsInt(a) && IsInt(b) && Wrap(shift + a) == Wrap(shift + b)
    ensures a == b
  {
  }

  lemma FlagShows(u: seq<string>, v: seq<string>, f: bool, g: bool)
    requires multiset(u) == multiset(v)
    requires multiset(u + if f then ["page"] else []) == multiset(v + if g then ["page"] else [])
    ensures f == g
  {
    SameElements(u, v);
    SameElements(u + if f then ["page"] else [], v + if g then ["page"] else []);
  }

  /** The order matters to two accepted parameters of a kind that ask for different things. */
  lemma OrderShows(env: Env, params: seq<Param>, i: nat, j: nat, kind: ParamKind)
    requires DistinctKeys(params) && Paging(kind) && i < |params| && j < |params|
    requires Accepted(env, params[i], kind) && Accepted(env, params[j], kind)
    requires SameQuery(ParsedQuery(env, MovedLast(params, i)), ParsedQuery(env, MovedLast(params, j)))
    ensures if kind == Page then SamePages(env, params, params[i], params[j])
            else ValueOf(env, params[i]) == ValueOf(env, params[j])
  {
    hide ReadParams, ParsedQuery, FateOf, KindOf, MovedLast, PageEffect, Wrap;
    var a, b := MovedLast(params, i), MovedLast(params, j);
    MovedLastWins(env, params, i, kind);
    MovedLastWins(env, params, j, kind);
    ReadLast(env, params, i, kind);
    ReadLast(env, params, j, kind);
    ParsedIs(env, a);
    ParsedIs(env, b);
    SameRest(env, params, a);
    SameRest(env, params, b);
    var p, q := ReadParams(env, a), ReadParams(env, b);
    assert FieldOf(p, kind) == ValueOf(env, params[i]) && FieldOf(q, kind) == ValueOf(env, params[j]);
    if kind == Offset {
      assert p.limit == FieldOf(p, Limit) == FieldOf(q, Limit) == q.limit;
      assert p.page == FieldOf(p, Page) == FieldOf(q, Page) == q.page;
      WrapKeepsApart(p.offset, q.offset, EffectOf(p).1);
    } else if kind == Page {
      assert p.limit == FieldOf(p, Limit) == FieldOf(q, Limit) == q.limit;
      assert p.limit == ReadParams(env, params).limit;
      assert p.offset == FieldOf(p, Offset) == FieldOf(q, Offset) == q.offset;
      WrapKeepsApart(EffectOf(p).1, EffectOf(q).1, p.offset);
      FlagShows(p.unsupported, q.unsupported, EffectOf(p).0, EffectOf(q).0);
    }
  }

  /** The query is the same for every order of the parameters exactly when no two accepted ones of a kind ask for
      different things: different limits, different offsets, or pages that come to different things. */
  lemma OrderIsIrrelevantIff(env: Env, params: seq<Param>)
    requires DistinctKeys(params)
    ensures (forall other :: multiset(other) == multiset(params) ==>
               SameQuery(ParsedQuery(env, params), ParsedQuery(env, other)))
       <==> Settled(env, params)
  {
    hide ReadParams, ParsedQuery, FateOf, KindOf, MovedLast;
    if Settled(env, params) {
      forall other | multiset(other) == multiset(params)
        ensures SameQuery(ParsedQuery(env, params), ParsedQuery(env, other))
      {
        SettledSame(env, params, other);
      }
    }
    if forall other :: multiset(other) == multiset(params) ==>
         SameQuery(ParsedQuery(env, params), ParsedQuery(env, other)) {
      forall x, y, kind | x in params && y in params && Paging(kind) && Accepted(env, x, kind) && Accepted(env, y, kind)
        ensures if kind == Page then SamePages(env, params, x, y) else ValueOf(env, x) == ValueOf(env, y)
      {
        var i :| 0 <= i < |params| && params[i] == x;
        var j :| 0 <= j < |params| && params[j] == y;
        MovedLastWins(env, params, i, kind);
        MovedLastWins(env, params, j, kind);
        OrderShows(env, params, i, j, kind);
      }
    }
  }

  /** In particular when no kind has two accepted parameters with different values. */
  lemma OneValueOfAKindIsSettled(env: Env, params: seq<Param>)
    requires forall x, y, kind | x in params && y in params && Accepted(env, x, kind) && Accepted(env, y, kind) ::
               ValueOf(env, x) == ValueOf(env, y)
    ensures Settled(env, params)
  {
    hide FateOf, KindOf, ReadParams, PageEffect;
  }
}

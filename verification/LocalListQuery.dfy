/** What a local list reads and what it is asked. */
module LocalListQuery {
  import opened Basics
  import opened Numerals

  type Raw = string

  /** A stored row: its id and its undecoded record. */
  datatype Row = Row(id: string, raw: Raw)

  datatype Parent = Parent(kind: string, id: string)

  /** Text folding and JSON decoding, of which only these answers matter. */
  datatype Env = Env(
    trim: string -> string,
    canon: string -> string,
    isEmpty: Raw -> bool,
    parses: Raw -> bool,
    has: (Raw, string) -> bool,
    equals: (Raw, string, string) -> bool,
    storedParentMatches: (Raw, Parent) -> bool)

  const LIMIT_PARAMS: set<string> :=
    {"limit", "per_page", "perpage", "page_size", "pagesize", "take", "first", "count", "max_results", "maxresults"}
  const OFFSET_PARAMS: set<string> := {"offset", "skip"}
  const PAGE_PARAMS: set<string> := {"page", "page_number", "pagenumber"}
  const CURSOR_PARAMS: set<string> :=
    {"cursor", "after", "before", "page_token", "pagetoken", "starting_after", "ending_before",
     "next_cursor", "start_cursor", "next"}
  const CONTROL_PARAMS: set<string> :=
    {"sort", "order", "order_by", "orderby", "fields", "field", "select", "include", "expand", "q", "query", "search"}

  function WithoutUnderscores(s: string): string {
    if s == "" then "" else (if s[0] == '_' then "" else [s[0]]) + WithoutUnderscores(s[1..])
  }

  lemma {:induction false} WithoutUnderscoresIs(s: string)
    ensures WithoutUnderscores(s) == Where(s, (c: char) => c != '_')
  {
    hide Where;
    WhereNone((c: char) => c != '_');
    if s != "" {
      WithoutUnderscoresIs(s[1..]);
      WhereCons(s[0], s[1..], (c: char) => c != '_');
      assert s == [s[0]] + s[1..];
    }
  }

  predicate IsControlParam(canon: string) {
    canon in CONTROL_PARAMS || WithoutUnderscores(canon) in CONTROL_PARAMS
  }

  /** The query as read so far; -1 stands for no limit. */
  datatype Query = Query(equality: map<string, string>, unsupported: seq<string>, limit: int, offset: int, page: int)

  const NO_QUERY := Query(map[], [], -1, 0, 0)

  datatype ParamKind = Cursor | Control | Limit | Offset | Page | Filter

  function KindOf(canon: string): ParamKind {
    if canon in CURSOR_PARAMS then Cursor
    else if IsControlParam(canon) then Control
    else if canon in LIMIT_PARAMS then Limit
    else if canon in OFFSET_PARAMS then Offset
    else if canon in PAGE_PARAMS then Page
    else Filter
  }

  /** One parameter; the switch both readers of a query share. */
  function ReadParam(env: Env, q: Query, key: string, text: string): Query {
    var val := env.trim(text);
    var n := Atoi(val);
    var rejected := q.(unsupported := q.unsupported + [key]);
    if val == "" then q
    else match KindOf(env.canon(key))
      case Cursor => rejected
      case Control => rejected
      case Limit => if n.None? || n.value < 0 then rejected else q.(limit := n.value)
      case Offset => if n.None? || n.value < 0 then rejected else q.(offset := n.value)
      case Page => if n.None? || n.value < 1 then rejected else q.(page := n.value)
      case Filter => q.(equality := q.equality[key := val])
  }

  function ReadParams(env: Env, params: seq<(string, string)>): Query {
    if params == [] then NO_QUERY
    else
      var (key, text) := params[|params| - 1];
      ReadParam(env, ReadParams(env, params[..|params| - 1]), key, text)
  }

  /** A page number means nothing without a page size; with one it moves the offset, in 64-bit arithmetic. */
  function ApplyPage(q: Query): Query {
    if q.page > 1 && q.limit < 0 then q.(unsupported := q.unsupported + ["page"], page := 0)
    else if q.page > 1 then q.(offset := Wrap(q.offset + Wrap((q.page - 1) * q.limit)))
    else q
  }

  function ParsedQuery(env: Env, params: seq<(string, string)>): Query {
    ApplyPage(ReadParams(env, params))
  }

  /** `parseLocalListQuery`; the order of `params` stands for Go's map iteration order. */
  method ParseLocalListQuery(env: Env, params: seq<(string, string)>) returns (q: Query)
    ensures q == ParsedQuery(env, params)
  {
    q := NO_QUERY;
    for i := 0 to |params|
      invariant q == ReadParams(env, params[..i])
    {
      assert params[..i + 1][..i] == params[..i];
      var (key, text) := params[i];
      q := ReadParam(env, q, key, text);
    }
    assert params[..|params|] == params;
    if q.page > 1 && q.limit < 0 {
      q := q.(unsupported := q.unsupported + ["page"], page := 0);
    }
    if q.page > 1 && q.limit >= 0 {
      q := q.(offset := Wrap(q.offset + Wrap((q.page - 1) * q.limit)));
    }
  }

  datatype Fate = Blank | Pages | Filters | Rejected

  /** What becomes of a parameter: cursors, controls and malformed numbers cannot be honoured locally. */
  function FateOf(env: Env, key: string, text: string): Fate {
    var val := env.trim(text);
    var kind := KindOf(env.canon(key));
    if val == "" then Blank
    else if kind == Filter then Filters
    else if kind == Cursor || kind == Control then Rejected
    else if Atoi(val).Some? && Atoi(val).value >= (if kind == Page then 1 else 0) then Pages
    else Rejected
  }

  ghost predicate DistinctKeys(params: seq<(string, string)>) {
    forall i, j :: 0 <= i < j < |params| ==> params[i].0 != params[j].0
  }

  lemma ReadParamEffect(env: Env, q: Query, key: string, text: string)
    ensures var r, fate := ReadParam(env, q, key, text), FateOf(env, key, text);
            && r.unsupported == q.unsupported + (if fate == Rejected then [key] else [])
            && r.equality == (if fate == Filters then q.equality[key := env.trim(text)] else q.equality)
            && (fate != Pages ==> r.limit == q.limit && r.offset == q.offset && r.page == q.page)
  {
    hide Atoi, KindOf;
  }

  /** A non-blank parameter is reported, or filters by its value, or pages, and only one of these; those that page can
      still lose out to one another. */
  lemma {:induction false} NoParamDropped(env: Env, params: seq<(string, string)>, i: nat)
    requires DistinctKeys(params) && i < |params|
    ensures var q := ReadParams(env, params);
            var (key, text) := params[i];
            var fate := FateOf(env, key, text);
            && (key in q.unsupported <==> fate == Rejected)
            && (key in q.equality <==> fate == Filters)
            && (fate == Filters ==> q.equality[key] == env.trim(text))
  {
    hide ReadParam, FateOf;
    var front := params[..|params| - 1];
    var (key, text) := params[|params| - 1];
    ReadParamEffect(env, ReadParams(env, front), key, text);
    if i < |front| {
      NoParamDropped(env, front, i);
      assert params[i].0 != key;
    } else {
      ForeignKey(env, front, key);
    }
  }

  /** The names decide: a cursor or a control is reported whatever it says, a number of the wrong form or sign too, and
      what has no name of its own filters. */
  lemma ParamFates(env: Env, params: seq<(string, string)>, i: nat)
    requires DistinctKeys(params) && i < |params| && env.trim(params[i].1) != ""
    ensures
      var q, key, val, canon := ReadParams(env, params), params[i].0, env.trim(params[i].1), env.canon(params[i].0);
      var number := Atoi(val).GetOr(-1);
      if canon in CURSOR_PARAMS || canon in CONTROL_PARAMS || WithoutUnderscores(canon) in CONTROL_PARAMS then
        key in q.unsupported && key !in q.equality
      else if canon in LIMIT_PARAMS + OFFSET_PARAMS then
        (key in q.unsupported <==> number < 0) && key !in q.equality
      else if canon in PAGE_PARAMS then
        (key in q.unsupported <==> number < 1) && key !in q.equality
      else
        key !in q.unsupported && key in q.equality && q.equality[key] == val
  {
    hide ReadParams, Atoi, WithoutUnderscores;
    NoParamDropped(env, params, i);
  }

  lemma BlankIsDropped(env: Env, params: seq<(string, string)>, i: nat)
    requires DistinctKeys(params) && i < |params| && env.trim(params[i].1) == ""
    ensures var q := ReadParams(env, params); params[i].0 !in q.unsupported && params[i].0 !in q.equality
  {
    hide ReadParams, KindOf;
    NoParamDropped(env, params, i);
  }

  lemma {:induction false} ForeignKey(env: Env, params: seq<(string, string)>, key: string)
    requires forall i :: 0 <= i < |params| ==> params[i].0 != key
    ensures key !in ReadParams(env, params).equality && key !in ReadParams(env, params).unsupported
  {
    hide ReadParam, FateOf;
    if params != [] {
      var front := params[..|params| - 1];
      var (last, text) := params[|params| - 1];
      ForeignKey(env, front, key);
      ReadParamEffect(env, ReadParams(env, front), last, text);
    }
  }
}

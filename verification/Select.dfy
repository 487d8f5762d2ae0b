/** JSON values as the selectors see them after decoding. */
module Json {

  /** Objects are maps, as Go decodes them; numbers and strings stay opaque text. */
  datatype Json =
    | Null
    | Bool(b: bool)
    | Num(text: string)
    | Str(s: string)
    | Arr(items: seq<Json>)
    | Obj(fields: map<string, Json>)
}

/** The `--select` projector. */
module Select {
  import opened Json

  /** A dotted selector, split into lower-case segments. */
  type Path = seq<string>

  /** How the characters of a field name fold; which characters have case is left open. */
  datatype Folding = Folding(lower: char -> char, isUpper: char -> bool, isLower: char -> bool)

  function ToLower(c: Folding, name: string): (r: string)
    ensures |r| == |name|
  {
    seq(|name|, i requires 0 <= i < |name| => c.lower(name[i]))
  }

  /** The lower-case form of `name[i..]` with a hyphen wherever an upper-case letter follows a lower-case one. */
  function CamelToKebab(c: Folding, name: string, i: nat := 0): (r: string)
    requires i <= |name|
    ensures |name| - i <= |r| && (r == "" <==> i == |name|)
    decreases |name| - i
  {
    if i == |name| then ""
    else
      var hyphen := if i > 0 && c.isUpper(name[i]) && c.isLower(name[i - 1]) then "-" else "";
      hyphen + [c.lower(name[i])] + CamelToKebab(c, name, i + 1)
  }

  datatype MatchState = MatchState(matched: bool, anchored: bool, fallback: bool) {
    predicate Indeterminate() { anchored || fallback }
    predicate Silent() { !matched && !anchored && !fallback }
  }

  const NO_MATCH := MatchState(false, false, false)
  const MAX_ENVELOPE_DEPTH := 32

  const METADATA_ARRAY_KEYS: set<string> :=
    {"errors", "Errors", "warnings", "Warnings", "fetch_failures", "FetchFailures"}

  const METADATA_KEYS: set<string> :=
    {"paging", "pagination", "_links", "links", "meta", "metadata", "total", "totalCount", "total_count",
     "hasMore", "has_more", "offset", "nextPage", "next_page", "cursor"}

  predicate IsMetadata(key: string) {
    key in METADATA_ARRAY_KEYS || key in METADATA_KEYS
  }

  datatype Filtered = Filtered(json: Json, state: MatchState)

  /** The result of looking inside a list envelope: `found` says whether it held an array. */
  datatype Pending = Pending(json: Json, found: bool, state: MatchState)

  predicate IsHead(segment: string, paths: seq<Path>) {
    exists p :: p in paths && p != [] && p[0] == segment
  }

  predicate IsWhole(segment: string, paths: seq<Path>) {
    [segment] in paths
  }

  /** What is left of the paths that start with `segment` and go on. */
  function Tails(segment: string, paths: seq<Path>): (tails: seq<Path>)
    ensures forall q :: q in tails <==> q != [] && [segment] + q in paths
  {
    if paths == [] then []
    else
      var p := paths[0];
      var rest := Tails(segment, paths[1..]);
      assert forall q :: q in paths <==> q == p || q in paths[1..];
      if |p| > 1 && p[0] == segment then
        assert p == [segment] + p[1..];
        assert forall q: Path :: p == [segment] + q ==> q == p[1..];
        [p[1..]] + rest
      else rest
  }

  /** The segment a field name answers to, or "" if it answers to none. */
  function MatchSegment(c: Folding, name: string, paths: seq<Path>): string {
    var lower := ToLower(c, name);
    var kebab := CamelToKebab(c, name);
    if IsHead(lower, paths) then lower
    else if kebab != lower && IsHead(kebab, paths) then kebab
    else ""
  }

  predicate Hit(c: Folding, name: string, paths: seq<Path>) {
    MatchSegment(c, name, paths) != ""
  }

  function MergeSeq(outs: seq<Filtered>): MatchState {
    MatchState(
      exists i :: 0 <= i < |outs| && outs[i].state.matched,
      exists i :: 0 <= i < |outs| && outs[i].state.anchored,
      exists i :: 0 <= i < |outs| && outs[i].state.fallback)
  }

  function MergeMap(outs: map<string, Filtered>): MatchState {
    MatchState(
      exists k :: k in outs && outs[k].state.matched,
      exists k :: k in outs && outs[k].state.anchored,
      exists k :: k in outs && outs[k].state.fallback)
  }

  function MergePending(outs: map<string, Pending>): MatchState {
    MatchState(
      exists k :: k in outs && outs[k].state.matched,
      exists k :: k in outs && outs[k].state.anchored,
      exists k :: k in outs && outs[k].state.fallback)
  }

  function EmptyArray(anchored: bool): Filtered {
    Filtered(Arr([]), MatchState(false, anchored, !anchored))
  }

  function ItemJsons(outs: seq<Filtered>): seq<Json> {
    seq(|outs|, i requires 0 <= i < |outs| => outs[i].json)
  }

  function MemberJsons(outs: map<string, Filtered>): map<string, Json> {
    map k | k in outs :: outs[k].json
  }

  function SiblingJsons(outs: map<string, Pending>): map<string, Json> {
    map k | k in outs :: outs[k].json
  }

  predicate HasHead(c: Folding, x: Json, paths: seq<Path>)
    requires x.Obj?
  {
    exists k :: k in x.fields && Hit(c, k, paths)
  }

  /** The selector proper; a JSON null decodes as an empty array, so it is treated as one. */
  function Filter(c: Folding, x: Json, paths: seq<Path>, anchored: bool, depth: nat): Filtered
    decreases x, 2
  {
    match x
    case Null => EmptyArray(anchored)
    case Arr(items) =>
      if items == [] then EmptyArray(anchored)
      else
        var outs := FilterItems(c, x, paths, anchored, depth);
        Filtered(Arr(ItemJsons(outs)), MergeSeq(outs))
    case Obj(_) =>
      if HasHead(c, x, paths) then
        var outs := FilterHeads(c, x, paths, depth);
        Filtered(Obj(MemberJsons(outs)), MergeMap(outs))
      else
        var pending := FilterEnvelope(c, x, paths, depth);
        if pending.found then Filtered(pending.json, pending.state)
        else Filtered(Obj(map[]), NO_MATCH)
    case _ => Filtered(x, NO_MATCH)
  }

  function FilterItems(c: Folding, x: Json, paths: seq<Path>, anchored: bool, depth: nat): (outs: seq<Filtered>)
    requires x.Arr?
    ensures |outs| == |x.items|
    ensures forall i :: 0 <= i < |outs| ==> outs[i] == Filter(c, x.items[i], paths, anchored, depth)
    decreases x, 1
  {
    seq(|x.items|, i requires 0 <= i < |x.items| => Filter(c, x.items[i], paths, anchored, depth))
  }

  /** The members some selector names. */
  function FilterHeads(c: Folding, x: Json, paths: seq<Path>, depth: nat): (outs: map<string, Filtered>)
    requires x.Obj?
    ensures forall k :: k in outs <==> k in x.fields && Hit(c, k, paths)
    ensures forall k :: k in outs ==>
      outs[k] == FilterMember(c, x.fields[k], MatchSegment(c, k, paths), paths, depth)
    decreases x, 1
  {
    map k | k in x.fields && Hit(c, k, paths) ::
      FilterMember(c, x.fields[k], MatchSegment(c, k, paths), paths, depth)
  }

  function FilterMember(c: Folding, v: Json, segment: string, paths: seq<Path>, depth: nat): Filtered
    decreases v, 3
  {
    if IsWhole(segment, paths) then Filtered(v, MatchState(true, false, false))
    else Filter(c, v, Tails(segment, paths), true, depth)
  }

  /** No key of `x` matched: look for arrays among its values, in this object or one nested deeper. */
  function FilterEnvelope(c: Folding, x: Json, paths: seq<Path>, depth: nat): Pending
    requires x.Obj?
    decreases x, 1
  {
    var outs := FilterSiblings(c, x, paths, depth);
    Pending(Obj(SiblingJsons(outs)), exists k :: k in outs && outs[k].found, MergePending(outs))
  }

  function FilterSiblings(c: Folding, x: Json, paths: seq<Path>, depth: nat): (outs: map<string, Pending>)
    requires x.Obj?
    ensures outs.Keys == x.fields.Keys
    ensures forall k :: k in outs ==> outs[k] == FilterSibling(c, k, x.fields[k], paths, depth)
    decreases x, 0
  {
    map k | k in x.fields :: FilterSibling(c, k, x.fields[k], paths, depth)
  }

  function FilterSibling(c: Folding, k: string, v: Json, paths: seq<Path>, depth: nat): Pending
    decreases v, 3
  {
    if IsMetadata(k) then Pending(v, false, NO_MATCH)
    else if v.Arr? then
      var out := Filter(c, v, paths, false, depth);
      Pending(out.json, true, out.state)
    else if v.Obj? && depth < MAX_ENVELOPE_DEPTH then
      var nested := FilterEnvelope(c, v, paths, depth + 1);
      if nested.found then nested else Pending(v, false, NO_MATCH)
    else Pending(v, false, NO_MATCH)
  }
}

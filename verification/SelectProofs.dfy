/** What selecting does to a document: it is idempotent, it only removes, and it keeps what was asked for. */
module SelectProofs {
  import opened Basics
  import opened Json
  import opened Select

  // ----- What a field name answers to

  lemma {:induction false} KebabAfter(c: Folding, a: string, b: string, i: nat)
    requires 0 < i <= |b|
    ensures CamelToKebab(c, a + b, |a| + i) == CamelToKebab(c, b, i)
    decreases |b| - i
  {
    if i < |b| {
      KebabAfter(c, a, b, i + 1);
      assert (a + b)[|a| + i] == b[i] && (a + b)[|a| + i - 1] == b[i - 1];
    }
  }

  lemma {:induction false} KebabUpTo(c: Folding, a: string, b: string, i: nat)
    requires i <= |a|
    ensures CamelToKebab(c, a + b, i) == CamelToKebab(c, a, i) + CamelToKebab(c, a + b, |a|)
    decreases |a| - i
  {
    if i < |a| {
      KebabUpTo(c, a, b, i + 1);
      assert (a + b)[i] == a[i] && (i > 0 ==> (a + b)[i - 1] == a[i - 1]);
    }
  }

  /** A name in kebab case is its characters in lower case, with a hyphen between two exactly where the first is a
      lower-case letter and the second an upper-case one. */
  lemma KebabSplits(c: Folding, a: string, b: string)
    requires a != "" && b != ""
    ensures CamelToKebab(c, a + b)
         == CamelToKebab(c, a) + (if c.isLower(a[|a| - 1]) && c.isUpper(b[0]) then "-" else "") + CamelToKebab(c, b)
  {
    KebabUpTo(c, a, b, 0);
    KebabAfter(c, a, b, 1);
    assert (a + b)[|a|] == b[0] && (a + b)[|a| - 1] == a[|a| - 1];
  }

  lemma KebabOfOne(c: Folding, ch: char)
    ensures CamelToKebab(c, [ch]) == [c.lower(ch)]
  {
    assert CamelToKebab(c, [ch], 1) == "";
  }

  /** A field answers to a selector by its name in lower case, or, failing that, in kebab case. */
  lemma AnswersTo(c: Folding, name: string, paths: seq<Path>, lower: string)
    requires |lower| == |name| && forall i :: 0 <= i < |name| ==> lower[i] == c.lower(name[i])
    ensures
      var kebab := CamelToKebab(c, name);
      MatchSegment(c, name, paths)
        == if exists p :: p in paths && p != [] && p[0] == lower then lower
           else if exists p :: p in paths && p != [] && p[0] == kebab then kebab
           else ""
  {
    assert lower == ToLower(c, name);
    hide CamelToKebab, ToLower;
  }

  // ----- Selecting twice is selecting once

  lemma {:induction false} FilterIdempotent(c: Folding, x: Json, paths: seq<Path>, anchored: bool, depth: nat)
    ensures Filter(c, Filter(c, x, paths, anchored, depth).json, paths, anchored, depth)
         == Filter(c, x, paths, anchored, depth)
    decreases x, 2
  {
    hide HasHead, FilterItems, FilterHeads, FilterEnvelope, MergeSeq, MergeMap, MemberJsons;
    if x.Arr? && x.items != [] {
      ItemsIdempotent(c, x, paths, anchored, depth);
    } else if x.Obj? && HasHead(c, x, paths) {
      HeadsIdempotent(c, x, paths, depth);
    } else if x.Obj? && FilterEnvelope(c, x, paths, depth).found {
      EnvelopeIdempotent(c, x, paths, depth);
      EnvelopeKeepsHeads(c, x, paths, depth);
    } else if x.Obj? {
      EmptyObject(c, paths, depth);
    }
  }

  lemma EnvelopeKeepsHeads(c: Folding, x: Json, paths: seq<Path>, depth: nat)
    requires x.Obj?
    ensures
      var y := FilterEnvelope(c, x, paths, depth).json;
      y.Obj? && y.fields.Keys == x.fields.Keys && (HasHead(c, y, paths) <==> HasHead(c, x, paths))
  {
    hide Hit, FilterSibling, MergePending;
    var outs := FilterSiblings(c, x, paths, depth);
    assert SiblingJsons(outs).Keys == x.fields.Keys;
  }

  lemma EmptyObject(c: Folding, paths: seq<Path>, depth: nat)
    ensures !HasHead(c, Obj(map[]), paths) && !FilterEnvelope(c, Obj(map[]), paths, depth).found
  {
    hide Hit, FilterSibling, MergePending;
  }

  lemma {:induction false} ItemsIdempotent(c: Folding, x: Json, paths: seq<Path>, anchored: bool, depth: nat)
    requires x.Arr?
    ensures var outs := FilterItems(c, x, paths, anchored, depth);
            FilterItems(c, Arr(ItemJsons(outs)), paths, anchored, depth) == outs
    decreases x, 1
  {
    var outs := FilterItems(c, x, paths, anchored, depth);
    forall i | 0 <= i < |outs|
      ensures Filter(c, outs[i].json, paths, anchored, depth) == outs[i]
    {
      FilterIdempotent(c, x.items[i], paths, anchored, depth);
    }
  }

  lemma {:induction false} HeadsIdempotent(c: Folding, x: Json, paths: seq<Path>, depth: nat)
    requires x.Obj? && HasHead(c, x, paths)
    ensures var outs := FilterHeads(c, x, paths, depth);
            var kept := Obj(MemberJsons(outs));
            HasHead(c, kept, paths) && FilterHeads(c, kept, paths, depth) == outs
    decreases x, 1
  {
    hide Filter, MatchSegment, FilterHeads, Tails, IsWhole;
    var outs := FilterHeads(c, x, paths, depth);
    var kept := Obj(MemberJsons(outs));
    var k0 :| k0 in x.fields && Hit(c, k0, paths);
    assert k0 in kept.fields;
    forall k | k in outs
      ensures FilterMember(c, kept.fields[k], MatchSegment(c, k, paths), paths, depth) == outs[k]
    {
      var segment := MatchSegment(c, k, paths);
      if !IsWhole(segment, paths) {
        FilterIdempotent(c, x.fields[k], Tails(segment, paths), true, depth);
      }
    }
    assert FilterHeads(c, kept, paths, depth) == outs;
  }

  lemma {:induction false} EnvelopeIdempotent(c: Folding, x: Json, paths: seq<Path>, depth: nat)
    requires x.Obj?
    ensures FilterEnvelope(c, FilterEnvelope(c, x, paths, depth).json, paths, depth) ==
      FilterEnvelope(c, x, paths, depth)
    decreases x, 1
  {
    var outs := FilterSiblings(c, x, paths, depth);
    var kept := Obj(SiblingJsons(outs));
    forall k | k in outs
      ensures FilterSibling(c, k, kept.fields[k], paths, depth) == outs[k]
    {
      var v := x.fields[k];
      if !IsMetadata(k) && v.Arr? {
        FilterIdempotent(c, v, paths, false, depth);
      } else if !IsMetadata(k) && v.Obj? && depth < MAX_ENVELOPE_DEPTH {
        EnvelopeIdempotent(c, v, paths, depth + 1);
      }
    }
    assert FilterSiblings(c, kept, paths, depth) == outs;
  }

  // ----- The output is a projection of the input

  /** `y` is `x` with object keys left out; a null that was entered may have become an empty array. */
  ghost predicate IsProjection(x: Json, y: Json)
    decreases x
  {
    || y == x
    || (x.Null? && y == Arr([]))
    || (x.Arr? && y.Arr? && |y.items| == |x.items| && forall i :: 0 <= i < |x.items| ==>
        IsProjection(x.items[i], y.items[i]))
    || (x.Obj? && y.Obj? && y.fields.Keys <= x.fields.Keys && forall k :: k in y.fields ==>
        IsProjection(x.fields[k], y.fields[k]))
  }

  lemma {:induction false} FilterProjects(c: Folding, x: Json, paths: seq<Path>, anchored: bool, depth: nat)
    ensures IsProjection(x, Filter(c, x, paths, anchored, depth).json)
    decreases x, 2
  {
    match x {
      case Arr(items) =>
        forall i | 0 <= i < |items|
          ensures IsProjection(items[i], Filter(c, items[i], paths, anchored, depth).json)
        {
          FilterProjects(c, items[i], paths, anchored, depth);
        }
      case Obj(fields) =>
        if HasHead(c, x, paths) {
          forall k | k in fields && Hit(c, k, paths)
            ensures IsProjection(fields[k], FilterMember(c, fields[k], MatchSegment(c, k, paths), paths, depth).json)
          {
            FilterProjects(c, fields[k], Tails(MatchSegment(c, k, paths), paths), true, depth);
          }
        } else {
          EnvelopeProjects(c, x, paths, depth);
        }
      case _ =>
    }
  }

  lemma {:induction false} EnvelopeProjects(c: Folding, x: Json, paths: seq<Path>, depth: nat)
    requires x.Obj?
    ensures IsProjection(x, FilterEnvelope(c, x, paths, depth).json)
    ensures FilterEnvelope(c, x, paths, depth).json.fields.Keys == x.fields.Keys
    decreases x, 1
  {
    forall k | k in x.fields
      ensures IsProjection(x.fields[k], FilterSibling(c, k, x.fields[k], paths, depth).json)
    {
      var v := x.fields[k];
      if !IsMetadata(k) && v.Arr? {
        FilterProjects(c, v, paths, false, depth);
      } else if !IsMetadata(k) && v.Obj? && depth < MAX_ENVELOPE_DEPTH {
        EnvelopeProjects(c, v, paths, depth + 1);
      }
    }
  }

  // ----- Addresses: what is kept, and what is not

  datatype Move = Key(name: string) | Index(i: nat)

  /** The value at an address, if there is one. */
  ghost function At(x: Json, address: seq<Move>): Option<Json>
    decreases |address|
  {
    if address == [] then Some(x)
    else match address[0]
      case Key(name) =>
        if x.Obj? && name in x.fields then At(x.fields[name], address[1..]) else None
      case Index(i) =>
        if x.Arr? && i < |x.items| then At(x.items[i], address[1..]) else None
  }

  /** Following the keys of `address`, some selector is used up: the value there was asked for by name. */
  ghost predicate Selected(c: Folding, address: seq<Move>, paths: seq<Path>)
    decreases |address|
  {
    if address == [] then false
    else match address[0]
      case Index(_) => Selected(c, address[1..], paths)
      case Key(name) =>
        var segment := MatchSegment(c, name, paths);
        && segment != ""
        && (IsWhole(segment, paths) || Selected(c, address[1..], Tails(segment, paths)))
  }

  /** Every key of `address` lies along a selector, or beyond the end of one. */
  ghost predicate Requested(c: Folding, address: seq<Move>, paths: seq<Path>)
    decreases |address|
  {
    if address == [] then true
    else match address[0]
      case Index(_) => Requested(c, address[1..], paths)
      case Key(name) =>
        var segment := MatchSegment(c, name, paths);
        && segment != ""
        && (IsWhole(segment, paths) || Requested(c, address[1..], Tails(segment, paths)))
  }

  /** The walk along `address` passes an object none of whose keys the selectors name. */
  ghost predicate PassesEnvelope(c: Folding, x: Json, address: seq<Move>, paths: seq<Path>)
    decreases |address|
  {
    if address == [] then false
    else match address[0]
      case Index(i) =>
        x.Arr? && i < |x.items| && PassesEnvelope(c, x.items[i], address[1..], paths)
      case Key(name) =>
        && x.Obj?
        && (|| !HasHead(c, x, paths)
            || (var segment := MatchSegment(c, name, paths);
                && segment != "" && name in x.fields && !IsWhole(segment, paths)
                && PassesEnvelope(c, x.fields[name], address[1..], Tails(segment, paths))))
  }

  /** A value asked for by name is kept verbatim, and it is reported as matched. */
  lemma {:induction false} SelectedIsKept(
      c: Folding, x: Json, address: seq<Move>, paths: seq<Path>, anchored: bool, depth: nat)
    requires Selected(c, address, paths) && At(x, address).Some?
    ensures At(Filter(c, x, paths, anchored, depth).json, address) == At(x, address)
    ensures Filter(c, x, paths, anchored, depth).state.matched
    decreases |address|
  {
    var out := Filter(c, x, paths, anchored, depth);
    match address[0] {
      case Index(i) =>
        SelectedIsKept(c, x.items[i], address[1..], paths, anchored, depth);
        var outs := FilterItems(c, x, paths, anchored, depth);
        assert outs[i].state.matched;
      case Key(name) =>
        var segment := MatchSegment(c, name, paths);
        assert name in x.fields && Hit(c, name, paths);
        if !IsWhole(segment, paths) {
          SelectedIsKept(c, x.fields[name], address[1..], Tails(segment, paths), true, depth);
        }
        var outs := FilterHeads(c, x, paths, depth);
        assert outs[name].state.matched;
        assert out.json.fields[name] == outs[name].json;
    }
  }

  /** Away from list envelopes nothing survives but what lies along a selector. */
  lemma {:induction false} OnlyRequestedSurvives(
      c: Folding, x: Json, address: seq<Move>, paths: seq<Path>, anchored: bool, depth: nat)
    requires At(Filter(c, x, paths, anchored, depth).json, address).Some?
    ensures Requested(c, address, paths) || PassesEnvelope(c, x, address, paths)
    decreases |address|
  {
    if address != [] {
      match address[0] {
        case Index(i) =>
          OnlyRequestedSurvives(c, x.items[i], address[1..], paths, anchored, depth);
        case Key(name) =>
          var segment := MatchSegment(c, name, paths);
          if HasHead(c, x, paths) && !IsWhole(segment, paths) {
            OnlyRequestedSurvives(c, x.fields[name], address[1..], Tails(segment, paths), true, depth);
          }
      }
    }
  }

  // ----- List envelopes

  /** An object no selector names is either emptied or kept as an envelope, key for key: metadata and scalars
      verbatim, and the selectors applied inside its arrays. */
  lemma EnvelopeKeepsEveryKey(c: Folding, x: Json, paths: seq<Path>, anchored: bool, depth: nat)
    requires x.Obj? && !HasHead(c, x, paths)
    ensures var out := Filter(c, x, paths, anchored, depth).json;
            || (out == Obj(map[]) && forall k :: k in x.fields && x.fields[k].Arr? ==> IsMetadata(k))
            || (&& out.Obj? && out.fields.Keys == x.fields.Keys
                && forall k :: k in x.fields ==>
                     var v := x.fields[k];
                     if IsMetadata(k) || !(v.Arr? || v.Obj?) then out.fields[k] == v
                     else v.Arr? ==> out.fields[k] == Filter(c, v, paths, false, depth).json)
  {
    FilterWithoutHeads(c, x, paths, anchored, depth);
    var outs := FilterSiblings(c, x, paths, depth);
    forall k | k in x.fields && x.fields[k].Arr? && !IsMetadata(k)
      ensures outs[k].found
    {
    }
  }

  function Nest(name: string, x: Json, levels: nat): (r: Json)
    ensures levels > 0 ==> r.Obj?
  {
    if levels == 0 then x else Obj(map[name := Nest(name, x, levels - 1)])
  }

  /** An array is looked for through at most 32 objects nested inside the envelope, and through all of those. */
  lemma {:induction false} EnvelopeDepthCap(
      c: Folding, name: string, items: seq<Json>, paths: seq<Path>, levels: nat, depth: nat)
    requires levels > 0 && !IsMetadata(name)
    ensures FilterEnvelope(c, Nest(name, Arr(items), levels), paths, depth).found
       <==> levels == 1 || depth + levels - 1 <= 32
    decreases levels
  {
    var x := Nest(name, Arr(items), levels);
    var outs := FilterSiblings(c, x, paths, depth);
    assert name in outs && forall k :: k in outs ==> k == name;
    if levels > 1 {
      EnvelopeDepthCap(c, name, items, paths, levels - 1, depth + 1);
      assert x.fields[name] == Nest(name, Arr(items), levels - 1);
    }
  }

  // ----- A joint match is some selector's own match

  lemma TailsOfOne(segment: string, p: Path)
    requires |p| > 1 && p[0] == segment
    ensures Tails(segment, [p]) == [p[1..]]
  {
  }

  /** If `segment` is what `name` answers to among all the paths, it still is for one path that starts with it. */
  lemma SameSegmentAlone(c: Folding, name: string, paths: seq<Path>, p: Path)
    requires p in paths && p != [] && p[0] == MatchSegment(c, name, paths)
    ensures MatchSegment(c, name, [p]) == p[0]
  {
    assert IsHead(p[0], [p]);
    assert forall s :: IsHead(s, [p]) ==> s == p[0];
    if MatchSegment(c, name, paths) != "" && MatchSegment(c, name, paths) != ToLower(c, name) {
      assert !IsHead(ToLower(c, name), paths);
    }
  }

  lemma {:induction false} JointMatchIsSingle(c: Folding, x: Json, paths: seq<Path>, anchored: bool, depth: nat)
      returns (p: Path)
    requires Filter(c, x, paths, anchored, depth).state.matched
    ensures p in paths && Filter(c, x, [p], anchored, depth).state.matched
    decreases x, 2
  {
    if x.Arr? {
      p := JointItemMatchIsSingle(c, x, paths, anchored, depth);
    } else if HasHead(c, x, paths) {
      p := JointHeadMatchIsSingle(c, x, paths, anchored, depth);
    } else {
      FilterWithoutHeads(c, x, paths, anchored, depth);
      p := JointEnvelopeMatchIsSingle(c, x, paths, depth);
      FewerHits(c, x, paths, p);
      FilterWithoutHeads(c, x, [p], anchored, depth);
    }
  }

  lemma FewerHits(c: Folding, x: Json, paths: seq<Path>, p: Path)
    requires x.Obj? && p in paths && !HasHead(c, x, paths)
    ensures !HasHead(c, x, [p])
  {
    assert forall s :: IsHead(s, [p]) ==> IsHead(s, paths);
  }

  lemma FilterWithoutHeads(c: Folding, x: Json, paths: seq<Path>, anchored: bool, depth: nat)
    requires x.Obj? && !HasHead(c, x, paths)
    ensures Filter(c, x, paths, anchored, depth)
         == (var pending := FilterEnvelope(c, x, paths, depth);
             if pending.found then Filtered(pending.json, pending.state) else Filtered(Obj(map[]), NO_MATCH))
  {
  }

  lemma {:induction false} JointItemMatchIsSingle(c: Folding, x: Json, paths: seq<Path>, anchored: bool, depth: nat)
      returns (p: Path)
    requires x.Arr? && Filter(c, x, paths, anchored, depth).state.matched
    ensures p in paths && Filter(c, x, [p], anchored, depth).state.matched
    decreases x, 1
  {
    var outs := FilterItems(c, x, paths, anchored, depth);
    var i :| 0 <= i < |outs| && outs[i].state.matched;
    p := JointMatchIsSingle(c, x.items[i], paths, anchored, depth);
    assert FilterItems(c, x, [p], anchored, depth)[i].state.matched;
  }

  lemma {:induction false} JointHeadMatchIsSingle(c: Folding, x: Json, paths: seq<Path>, anchored: bool, depth: nat)
      returns (p: Path)
    requires x.Obj? && HasHead(c, x, paths)
    requires Filter(c, x, paths, anchored, depth).state.matched
    ensures p in paths && Filter(c, x, [p], anchored, depth).state.matched
    decreases x, 1
  {
    hide MatchSegment;
    var outs := FilterHeads(c, x, paths, depth);
    var k :| k in outs && outs[k].state.matched;
    var segment := MatchSegment(c, k, paths);
    if IsWhole(segment, paths) {
      p := [segment];
    } else {
      var q := JointMatchIsSingle(c, x.fields[k], Tails(segment, paths), true, depth);
      p := [segment] + q;
      TailsOfOne(segment, p);
      assert p[1..] == q;
    }
    SameSegmentAlone(c, k, paths, p);
    var alone := FilterHeads(c, x, [p], depth);
    assert k in alone && alone[k].state.matched;
  }

  lemma {:induction false} JointEnvelopeMatchIsSingle(c: Folding, x: Json, paths: seq<Path>, depth: nat)
      returns (p: Path)
    requires x.Obj? && FilterEnvelope(c, x, paths, depth).state.matched
    ensures p in paths
    ensures FilterEnvelope(c, x, [p], depth).found && FilterEnvelope(c, x, [p], depth).state.matched
    decreases x, 1
  {
    var outs := FilterSiblings(c, x, paths, depth);
    var k :| k in outs && outs[k].state.matched;
    var v := x.fields[k];
    if v.Arr? {
      p := JointMatchIsSingle(c, v, paths, false, depth);
    } else {
      p := JointEnvelopeMatchIsSingle(c, v, paths, depth + 1);
    }
    var alone := FilterSiblings(c, x, [p], depth);
    assert alone[k].found && alone[k].state.matched;
  }

  // ----- The checked entry point

  /** The result of one `--select`: the output, the selectors warned about, and whether the call is refused. */
  datatype Checked = Checked(out: Json, unmatched: seq<Path>, refused: bool)

  function FilterTop(c: Folding, data: Json, paths: seq<Path>): Filtered {
    Filter(c, data, paths, true, 0)
  }

  predicate MatchesNothing(c: Folding, data: Json, p: Path) {
    FilterTop(c, data, [p]).state.Silent()
  }

  function Unmatched(c: Folding, data: Json, paths: seq<Path>): (u: seq<Path>)
    ensures |u| <= |paths|
    ensures |u| == |paths| <==> forall p :: p in paths ==> MatchesNothing(c, data, p)
  {
    if paths == [] then []
    else
      var rest := Unmatched(c, data, paths[1..]);
      assert forall p :: p in paths <==> p == paths[0] || p in paths[1..];
      if MatchesNothing(c, data, paths[0]) then [paths[0]] + rest else rest
  }

  function Check(c: Folding, data: Json, paths: seq<Path>): Checked {
    if paths == [] then Checked(data, [], false)
    else
      var joint := FilterTop(c, data, paths);
      var unmatched := Unmatched(c, data, paths);
      Checked(
        if joint.state.Silent() then data else joint.json,
        unmatched,
        unmatched != [] && |unmatched| == |paths| && !joint.state.Indeterminate())
  }

  lemma UnmatchedAppend(c: Folding, data: Json, a: seq<Path>, p: Path)
    ensures Unmatched(c, data, a + [p])
         == Unmatched(c, data, a) + (if MatchesNothing(c, data, p) then [p] else [])
  {
    if a == [] {
      assert a + [p] == [p];
    } else {
      assert (a + [p])[1..] == a[1..] + [p];
      UnmatchedAppend(c, data, a[1..], p);
    }
  }

  /** `filterFieldsChecked`, after the comma list has been split. */
  method FilterFieldsChecked(c: Folding, data: Json, paths: seq<Path>) returns (r: Checked, ghost at: seq<nat>)
    ensures r == Check(c, data, paths)
    // The call is refused exactly when there are selectors and none finds anything, not even an empty array.
    ensures r.refused <==>
      && paths != []
      && (forall p :: p in paths ==> Filter(c, data, [p], true, 0).state == MatchState(false, false, false))
      && !Filter(c, data, paths, true, 0).state.anchored && !Filter(c, data, paths, true, 0).state.fallback
    // The input comes back whole when the selectors together find nothing, and their selection otherwise.
    ensures
      var joint := Filter(c, data, paths, true, 0);
      r.out == if paths == [] || joint.state == MatchState(false, false, false) then data else joint.json
    // Warned about are the selectors that find nothing alone, in the order given.
    ensures |at| == |r.unmatched| && forall k :: 0 <= k < |at| ==> at[k] < |paths| && r.unmatched[k] == paths[at[k]]
    ensures forall j, k :: 0 <= j < k < |at| ==> at[j] < at[k]
    ensures forall i :: 0 <= i < |paths| ==>
      (i in at <==> Filter(c, data, [paths[i]], true, 0).state == MatchState(false, false, false))
  {
    hide Filter, Check, FilterTop;
    CheckIs(c, data, paths);
    at := UnmatchedInOrder(c, data, paths);
    r := RunCheck(c, data, paths);
  }

  method RunCheck(c: Folding, data: Json, paths: seq<Path>) returns (r: Checked)
    ensures r == Check(c, data, paths)
  {
    hide Filter;
    if |paths| == 0 {
      return Checked(data, [], false);
    }
    var joint := FilterTop(c, data, paths);
    var unmatched: seq<Path> := [];
    for i := 0 to |paths|
      invariant unmatched == Unmatched(c, data, paths[..i])
    {
      var state := FilterTop(c, data, [paths[i]]).state;
      UnmatchedAppend(c, data, paths[..i], paths[i]);
      assert paths[..i + 1] == paths[..i] + [paths[i]];
      if state.matched || state.anchored || state.fallback {
        continue;
      }
      unmatched := unmatched + [paths[i]];
    }
    assert paths[..|paths|] == paths;
    var out := joint.json;
    if !joint.state.matched && !joint.state.anchored && !joint.state.fallback {
      out := data;
    }
    r := Checked(out, unmatched, |unmatched| > 0 && |unmatched| == |paths| && !joint.state.Indeterminate());
  }

  /** What a check comes to. */
  lemma CheckIs(c: Folding, data: Json, paths: seq<Path>)
    ensures Check(c, data, paths).refused <==>
      && paths != []
      && (forall p :: p in paths ==> Filter(c, data, [p], true, 0).state == MatchState(false, false, false))
      && !Filter(c, data, paths, true, 0).state.anchored && !Filter(c, data, paths, true, 0).state.fallback
    ensures
      var joint := Filter(c, data, paths, true, 0);
      Check(c, data, paths).out
        == if paths == [] || joint.state == MatchState(false, false, false) then data else joint.json
    ensures Check(c, data, paths).unmatched == Unmatched(c, data, paths)
  {
    hide Filter, Unmatched;
  }

  lemma {:induction false} UnmatchedInOrder(c: Folding, data: Json, paths: seq<Path>) returns (at: seq<nat>)
    ensures
      var u := Unmatched(c, data, paths);
      |at| == |u| && forall k :: 0 <= k < |at| ==> at[k] < |paths| && u[k] == paths[at[k]]
    ensures forall j, k :: 0 <= j < k < |at| ==> at[j] < at[k]
    ensures forall i :: 0 <= i < |paths| ==>
      (i in at <==> Filter(c, data, [paths[i]], true, 0).state == MatchState(false, false, false))
  {
    hide Filter;
    at := [];
    if paths != [] {
      var front, last := paths[..|paths| - 1], paths[|paths| - 1];
      assert paths == front + [last];
      UnmatchedAppend(c, data, front, last);
      at := UnmatchedInOrder(c, data, front);
      var silent := Filter(c, data, [last], true, 0).state == MatchState(false, false, false);
      assert MatchesNothing(c, data, last) <==> silent;
      hide Unmatched, MatchesNothing;
      if silent {
        at := at + [|front|];
      }
    }
  }

  /** A call whose joint selection found something, or an empty array, is never refused. */
  lemma FoundIsNotRefused(c: Folding, data: Json, paths: seq<Path>)
    requires !FilterTop(c, data, paths).state.Silent()
    ensures !Check(c, data, paths).refused
  {
    if FilterTop(c, data, paths).state.matched {
      var p := JointMatchIsSingle(c, data, paths, true, 0);
      assert !MatchesNothing(c, data, p);
    }
  }

  /** A refused call hands its input back whole. */
  lemma RefusedReturnsInput(c: Folding, data: Json, paths: seq<Path>)
    requires Check(c, data, paths).refused
    ensures Check(c, data, paths).out == data
  {
    if !FilterTop(c, data, paths).state.Silent() {
      FoundIsNotRefused(c, data, paths);
    }
  }

  /** Running the same `--select` over its own output changes neither the output nor the verdict. */
  lemma CheckIdempotent(c: Folding, data: Json, paths: seq<Path>)
    ensures var once := Check(c, data, paths);
            var twice := Check(c, once.out, paths);
            twice.out == once.out && twice.refused == once.refused
  {
    if !FilterTop(c, data, paths).state.Silent() {
      FilterIdempotent(c, data, paths, true, 0);
      FoundIsNotRefused(c, data, paths);
      FoundIsNotRefused(c, Check(c, data, paths).out, paths);
    }
  }
}

/** When a second `--select` warns about the same selectors as the first. */
module SelectWarnings {
  import opened Json
  import opened Select
  import opened SelectProofs

  // ----- Parts of a document as the selectors leave them

  /** A part `x` of a document: left whole, sifted by selectors, or kept inside a list envelope. */
  datatype View =
    | Whole(x: Json)
    | Sifted(x: Json, paths: seq<Path>, anchored: bool, depth: nat)
    | Listed(x: Json, paths: seq<Path>, depth: nat)

  /** An array lies among the values of `x`, or of an object not nested too deep. */
  predicate HoldsList(x: Json, depth: nat)
    requires x.Obj?
    decreases x, 0
  {
    exists k :: k in x.fields && !IsMetadata(k) && LeadsToList(x.fields[k], depth)
  }

  predicate LeadsToList(v: Json, depth: nat)
    decreases v, 1
  {
    v.Arr? || (v.Obj? && depth < MAX_ENVELOPE_DEPTH && HoldsList(v, depth + 1))
  }

  /** A null that is entered has become an array. */
  predicate IsList(v: View) {
    v.x.Arr? || (v.Sifted? && v.x.Null?)
  }

  function Element(v: View, i: nat): (w: View)
    requires v.x.Arr? && i < |v.x.items| && !v.Listed?
    ensures w.x == v.x.items[i] && !w.Listed?
  {
    if v.Sifted? then Sifted(v.x.items[i], v.paths, v.anchored, v.depth) else Whole(v.x.items[i])
  }

  /** The names that are left. */
  function Names(c: Folding, v: View): (names: set<string>)
    requires v.x.Obj?
    ensures names <= v.x.fields.Keys
  {
    if !v.Sifted? then v.x.fields.Keys
    else if HasHead(c, v.x, v.paths) then set k | k in v.x.fields && Hit(c, k, v.paths)
    else if HoldsList(v.x, v.depth) then v.x.fields.Keys
    else {}
  }

  /** What is left under a name. */
  function Member(c: Folding, v: View, k: string): (w: View)
    requires v.x.Obj? && k in Names(c, v)
    ensures w.x == v.x.fields[k] && (w.Listed? ==> w.x.Obj?)
  {
    var m := v.x.fields[k];
    if v.Whole? then Whole(m)
    else if v.Sifted? && HasHead(c, v.x, v.paths) then
      var segment := MatchSegment(c, k, v.paths);
      if IsWhole(segment, v.paths) then Whole(m) else Sifted(m, Tails(segment, v.paths), true, v.depth)
    else Sibling(k, m, v.paths, v.depth)
  }

  /** What is left of a value in a list envelope. */
  function Sibling(k: string, m: Json, paths: seq<Path>, depth: nat): (w: View)
    ensures w.x == m && (w.Listed? ==> m.Obj?)
  {
    if IsMetadata(k) || !LeadsToList(m, depth) then Whole(m)
    else if m.Arr? then Sifted(m, paths, false, depth)
    else Listed(m, paths, depth + 1)
  }

  /** Some name left answers to the selector. */
  predicate HasKey(c: Folding, v: View, p: Path)
    requires v.x.Obj?
  {
    exists k :: k in Names(c, v) && Hit(c, k, [p])
  }

  /** The selector finds something in what is left: its target, or an array with nothing in it. */
  predicate Finds(c: Folding, v: View, p: Path, depth: nat)
    requires v.Listed? ==> v.x.Obj?
    decreases v.x, 1
  {
    match v.x
    case Null => true
    case Arr(items) => items == [] || exists i :: 0 <= i < |items| && Finds(c, Element(v, i), p, depth)
    case Obj(_) =>
      if HasKey(c, v, p) then
        exists k :: k in Names(c, v) && Hit(c, k, [p]) && (|p| <= 1 || Finds(c, Member(c, v, k), p[1..], depth))
      else FindsInside(c, v, p, depth)
    case _ => false
  }

  /** The same, where none of the names answers: among the arrays of a list envelope. */
  predicate FindsInside(c: Folding, v: View, p: Path, depth: nat)
    requires v.x.Obj?
    decreases v.x, 0
  {
    exists k :: k in Names(c, v) && !IsMetadata(k) && FindsAmong(c, Member(c, v, k), p, depth)
  }

  predicate FindsAmong(c: Folding, w: View, p: Path, depth: nat)
    requires w.Listed? ==> w.x.Obj?
    decreases w.x, 2
  {
    if w.x.Obj? then depth < MAX_ENVELOPE_DEPTH && FindsInside(c, w, p, depth + 1)
    else IsList(w) && Finds(c, w, p, depth)
  }

  // ----- The views are what the selector leaves

  function Realise(c: Folding, v: View): (y: Json)
    requires v.Listed? ==> v.x.Obj?
    ensures y.Obj? <==> v.x.Obj?
    ensures y.Arr? <==> IsList(v)
    ensures y.Null? ==> v.Whole?
  {
    match v
    case Whole(x) => x
    case Sifted(x, paths, anchored, depth) =>
      KeepsKind(c, x, paths, anchored, depth);
      Filter(c, x, paths, anchored, depth).json
    case Listed(x, paths, depth) => FilterEnvelope(c, x, paths, depth).json
  }

  lemma KeepsKind(c: Folding, x: Json, paths: seq<Path>, anchored: bool, depth: nat)
    ensures var y := Filter(c, x, paths, anchored, depth).json;
            (y.Obj? <==> x.Obj?) && (y.Arr? <==> x.Arr? || x.Null?) && !y.Null?
  {
    hide MatchSegment, IsMetadata, HasHead;
    if x.Obj? && !HasHead(c, x, paths) {
      FilterWithoutHeads(c, x, paths, anchored, depth);
    }
  }

  lemma {:induction false} FoundIffHoldsList(c: Folding, x: Json, paths: seq<Path>, depth: nat)
    requires x.Obj?
    ensures FilterEnvelope(c, x, paths, depth).found <==> HoldsList(x, depth)
    decreases x
  {
    var outs := FilterSiblings(c, x, paths, depth);
    forall k | k in x.fields
      ensures outs[k].found <==> !IsMetadata(k) && LeadsToList(x.fields[k], depth)
    {
      var v := x.fields[k];
      if v.Obj? && depth < MAX_ENVELOPE_DEPTH {
        FoundIffHoldsList(c, v, paths, depth + 1);
      }
    }
  }

  lemma RealisesSibling(c: Folding, k: string, m: Json, paths: seq<Path>, depth: nat)
    ensures FilterSibling(c, k, m, paths, depth).json == Realise(c, Sibling(k, m, paths, depth))
  {
    hide Filter, FilterEnvelope, IsMetadata, HoldsList;
    if m.Obj? && depth < MAX_ENVELOPE_DEPTH {
      FoundIffHoldsList(c, m, paths, depth + 1);
    }
  }

  /** The members of what a view stands for are what its members stand for. */
  lemma RealisesMembers(c: Folding, v: View)
    requires v.x.Obj?
    ensures var y := Realise(c, v);
            && y.Obj? && y.fields.Keys == Names(c, v)
            && forall k :: k in y.fields ==> y.fields[k] == Realise(c, Member(c, v, k))
  {
    if v.Sifted? && HasHead(c, v.x, v.paths) {
      RealisesHeads(c, v);
    } else if !v.Whole? {
      RealisesSiblings(c, v);
    }
  }

  lemma RealisesHeads(c: Folding, v: View)
    requires v.x.Obj? && v.Sifted? && HasHead(c, v.x, v.paths)
    ensures var y := Realise(c, v);
            && y.Obj? && y.fields.Keys == Names(c, v)
            && forall k :: k in y.fields ==> y.fields[k] == Realise(c, Member(c, v, k))
  {
    hide MatchSegment, IsMetadata, HoldsList, FilterEnvelope;
    var outs := FilterHeads(c, v.x, v.paths, v.depth);
    assert Realise(c, v) == Obj(MemberJsons(outs));
  }

  lemma RealisesSiblings(c: Folding, v: View)
    requires v.x.Obj? && !v.Whole? && (v.Sifted? ==> !HasHead(c, v.x, v.paths))
    ensures var y := Realise(c, v);
            && y.Obj? && y.fields.Keys == Names(c, v)
            && forall k :: k in y.fields ==> y.fields[k] == Realise(c, Member(c, v, k))
  {
    hide MatchSegment, IsMetadata, HoldsList, Sibling, HasHead, FilterSibling;
    FoundIffHoldsList(c, v.x, v.paths, v.depth);
    var outs := FilterSiblings(c, v.x, v.paths, v.depth);
    if v.Sifted? {
      FilterWithoutHeads(c, v.x, v.paths, v.anchored, v.depth);
    }
    hide Filter, FilterSiblings;
    forall k | k in v.x.fields
      ensures outs[k].json == Realise(c, Sibling(k, v.x.fields[k], v.paths, v.depth))
    {
      RealisesSibling(c, k, v.x.fields[k], v.paths, v.depth);
    }
  }

  /** A selector alone finds something in what a view stands for exactly when it finds something in the view. */
  lemma {:induction false} FindsIff(c: Folding, v: View, p: Path, anchored: bool, depth: nat)
    requires v.Listed? ==> v.x.Obj?
    ensures !Filter(c, Realise(c, v), [p], anchored, depth).state.Silent() <==> Finds(c, v, p, depth)
    decreases v.x, 1
  {
    hide Names, Member, IsMetadata, FindsInside, FilterEnvelope;
    if v.x.Arr? && v.x.items != [] {
      var y := Realise(c, v);
      var outs := FilterItems(c, y, [p], anchored, depth);
      forall i | 0 <= i < |v.x.items|
        ensures !outs[i].state.Silent() <==> Finds(c, Element(v, i), p, depth)
      {
        FindsIff(c, Element(v, i), p, anchored, depth);
      }
    } else if v.x.Obj? {
      RealisesMembers(c, v);
      assert HasHead(c, Realise(c, v), [p]) <==> HasKey(c, v, p);
      if HasKey(c, v, p) {
        FindsKeyIff(c, v, p, anchored, depth);
      } else {
        FindsInsideIff(c, v, p, depth);
        FilterWithoutHeads(c, Realise(c, v), [p], anchored, depth);
      }
    }
  }

  lemma {:induction false} FindsKeyIff(c: Folding, v: View, p: Path, anchored: bool, depth: nat)
    requires v.x.Obj? && HasKey(c, v, p)
    ensures !Filter(c, Realise(c, v), [p], anchored, depth).state.Silent() <==> Finds(c, v, p, depth)
    decreases v.x, 0
  {
    hide Names, Member, IsMetadata, FindsInside, FilterEnvelope, MatchSegment, Realise;
    RealisesMembers(c, v);
    var y := Realise(c, v);
    var outs := FilterHeads(c, y, [p], depth);
    assert HasHead(c, y, [p]);
    forall k | k in outs
      ensures !outs[k].state.Silent() <==> |p| <= 1 || Finds(c, Member(c, v, k), p[1..], depth)
    {
      OnlyHead(c, k, p);
      if |p| > 1 {
        FindsIff(c, Member(c, v, k), p[1..], true, depth);
      }
    }
  }

  lemma OnlyHead(c: Folding, name: string, p: Path)
    requires Hit(c, name, [p])
    ensures p != [] && MatchSegment(c, name, [p]) == p[0]
    ensures IsWhole(p[0], [p]) <==> |p| == 1
    ensures |p| > 1 ==> Tails(p[0], [p]) == [p[1..]]
  {
    assert forall s :: IsHead(s, [p]) ==> p != [] && s == p[0];
    assert |p| == 1 ==> p == [p[0]];
    if |p| > 1 {
      TailsOfOne(p[0], p);
    }
  }

  lemma {:induction false} FindsInsideIff(c: Folding, v: View, p: Path, depth: nat)
    requires v.x.Obj?
    ensures var pending := FilterEnvelope(c, Realise(c, v), [p], depth);
            (!pending.state.Silent() <==> FindsInside(c, v, p, depth)) && (!pending.state.Silent() ==> pending.found)
    decreases v.x, 0
  {
    hide Filter, FilterSibling, Names, Member, IsMetadata, Realise, FindsAmong;
    RealisesMembers(c, v);
    var y := Realise(c, v);
    var outs := FilterSiblings(c, y, [p], depth);
    forall k | k in outs
      ensures !outs[k].state.Silent() <==> !IsMetadata(k) && FindsAmong(c, Member(c, v, k), p, depth)
      ensures !outs[k].state.Silent() ==> outs[k].found
    {
      FindsAmongIff(c, k, Member(c, v, k), p, depth);
      assert outs[k] == FilterSibling(c, k, Realise(c, Member(c, v, k)), [p], depth);
    }
  }

  lemma {:induction false} FindsAmongIff(c: Folding, k: string, w: View, p: Path, depth: nat)
    requires w.Listed? ==> w.x.Obj?
    ensures var pending := FilterSibling(c, k, Realise(c, w), [p], depth);
            && (!pending.state.Silent() <==> !IsMetadata(k) && FindsAmong(c, w, p, depth))
            && (!pending.state.Silent() ==> pending.found)
    decreases w.x, 2
  {
    hide IsMetadata, Filter, FilterEnvelope, Finds, FindsInside, Names, Member;
    if w.x.Obj? {
      RealisesMembers(c, w);
      if depth < MAX_ENVELOPE_DEPTH {
        FindsInsideIff(c, w, p, depth + 1);
      }
    } else if IsList(w) {
      FindsIff(c, w, p, false, depth);
    }
  }

  // ----- Where another selector gets in the way

  /** Among all of `paths`, `p` finds something without another selector getting in its way: no object is passed where
      `p` has no key but another selector has one, and no key that answers to another spelling. */
  ghost predicate FindsApart(c: Folding, x: Json, paths: seq<Path>, p: Path, depth: nat)
    decreases x, 1
  {
    match x
    case Null => true
    case Arr(items) => items == [] || exists i :: 0 <= i < |items| && FindsApart(c, items[i], paths, p, depth)
    case Obj(fields) =>
      if HasKey(c, Whole(x), p) then
        exists k :: k in fields && Hit(c, k, [p]) &&
          (|p| <= 1 || (MatchSegment(c, k, paths) == p[0] &&
             (if IsWhole(p[0], paths) then Finds(c, Whole(fields[k]), p[1..], depth)
              else FindsApart(c, fields[k], Tails(p[0], paths), p[1..], depth))))
      else !HasHead(c, x, paths) && FindsApartInside(c, x, paths, p, depth)
    case _ => false
  }

  ghost predicate FindsApartInside(c: Folding, x: Json, paths: seq<Path>, p: Path, depth: nat)
    requires x.Obj?
    decreases x, 0
  {
    exists k :: k in x.fields && !IsMetadata(k) && FindsApartAmong(c, x.fields[k], paths, p, depth)
  }

  ghost predicate FindsApartAmong(c: Folding, m: Json, paths: seq<Path>, p: Path, depth: nat)
    decreases m, 2
  {
    LeadsToList(m, depth) &&
    if m.Obj? then FindsApartInside(c, m, paths, p, depth + 1) else FindsApart(c, m, paths, p, depth)
  }

  /** `p` finds something where another selector does get in its way: in an object where another has a key and `p` has
      none, or under a key that answers to another spelling. With `left`, in what the selectors leave of it. */
  ghost predicate FindsContested(
      c: Folding, x: Json, paths: seq<Path>, p: Path, anchored: bool, depth: nat, left: bool)
    decreases x, 1
  {
    match x
    case Arr(items) =>
      exists i :: 0 <= i < |items| && FindsContested(c, items[i], paths, p, anchored, depth, left)
    case Obj(fields) =>
      var kept := if left then Sifted(x, paths, anchored, depth) else Whole(x);
      if HasKey(c, Whole(x), p) then
        exists k :: k in Names(c, kept) && Hit(c, k, [p]) && |p| > 1 &&
          (if MatchSegment(c, k, paths) != p[0] then Finds(c, Member(c, kept, k), p[1..], depth)
           else !IsWhole(p[0], paths) &&
                FindsContested(c, fields[k], Tails(p[0], paths), p[1..], true, depth, left))
      else if HasHead(c, x, paths) then Finds(c, kept, p, depth)
      else FindsContestedInside(c, x, paths, p, depth, left)
    case _ => false
  }

  ghost predicate FindsContestedInside(c: Folding, x: Json, paths: seq<Path>, p: Path, depth: nat, left: bool)
    requires x.Obj?
    decreases x, 0
  {
    exists k :: k in x.fields && !IsMetadata(k) && FindsContestedAmong(c, x.fields[k], paths, p, depth, left)
  }

  ghost predicate FindsContestedAmong(c: Folding, m: Json, paths: seq<Path>, p: Path, depth: nat, left: bool)
    decreases m, 2
  {
    LeadsToList(m, depth) &&
    if m.Obj? then FindsContestedInside(c, m, paths, p, depth + 1, left)
    else FindsContested(c, m, paths, p, false, depth, left)
  }

  lemma {:induction false} InsideIsList(c: Folding, x: Json, p: Path, depth: nat)
    requires x.Obj? && FindsInside(c, Whole(x), p, depth)
    ensures HoldsList(x, depth)
    decreases x
  {
    var k :| k in x.fields && !IsMetadata(k) && FindsAmong(c, Whole(x.fields[k]), p, depth);
    if x.fields[k].Obj? {
      InsideIsList(c, x.fields[k], p, depth + 1);
    }
    assert LeadsToList(x.fields[k], depth);
  }

  /** What is before, or is left after, the selectors have been at work. */
  function Part(x: Json, paths: seq<Path>, anchored: bool, depth: nat, left: bool): View {
    if left then Sifted(x, paths, anchored, depth) else Whole(x)
  }

  /** What a selector finds, it finds apart from the others or in a contested place; before and after. */
  lemma {:induction false} FindsSomewhere(
      c: Folding, x: Json, paths: seq<Path>, p: Path, anchored: bool, depth: nat, left: bool)
    requires p in paths
    ensures Finds(c, Part(x, paths, anchored, depth, left), p, depth)
       <==> FindsApart(c, x, paths, p, depth) || FindsContested(c, x, paths, p, anchored, depth, left)
    decreases x, 1
  {
    var v := Part(x, paths, anchored, depth, left);
    if x.Arr? && x.items != [] {
      forall i | 0 <= i < |x.items|
        ensures Finds(c, Element(v, i), p, depth)
           <==> (FindsApart(c, x.items[i], paths, p, depth)
                 || FindsContested(c, x.items[i], paths, p, anchored, depth, left))
      {
        FindsSomewhere(c, x.items[i], paths, p, anchored, depth, left);
      }
    } else if x.Obj? {
      if HasKey(c, Whole(x), p) {
        FindsUnderKeys(c, x, paths, p, anchored, depth, left);
      } else if !HasHead(c, x, paths) {
        FindsSomewhereInside(c, v, x, paths, p, depth, left);
      }
    }
  }

  lemma KeyAmongOthers(c: Folding, name: string, paths: seq<Path>, p: Path)
    requires p in paths && Hit(c, name, [p])
    ensures Hit(c, name, paths)
  {
    OnlyHead(c, name, p);
    assert IsHead(p[0], paths);
    assert MatchSegment(c, name, [p]) in {ToLower(c, name), CamelToKebab(c, name)};
  }

  lemma {:induction false} FindsUnderKeys(
      c: Folding, x: Json, paths: seq<Path>, p: Path, anchored: bool, depth: nat, left: bool)
    requires p in paths && x.Obj? && HasKey(c, Whole(x), p)
    ensures Finds(c, Part(x, paths, anchored, depth, left), p, depth)
       <==> FindsApart(c, x, paths, p, depth) || FindsContested(c, x, paths, p, anchored, depth, left)
    decreases x, 0
  {
    hide MatchSegment, IsMetadata, HoldsList, Sibling, IsWhole, FindsInside, FindsApartInside, FindsContestedInside;
    var v := Part(x, paths, anchored, depth, left);
    forall k | k in x.fields && Hit(c, k, [p])
      ensures Hit(c, k, paths) && k in Names(c, v)
      ensures |p| > 1 && MatchSegment(c, k, paths) == p[0] && !IsWhole(p[0], paths) ==>
        (Finds(c, Member(c, v, k), p[1..], depth) <==>
          (FindsApart(c, x.fields[k], Tails(p[0], paths), p[1..], depth)
           || FindsContested(c, x.fields[k], Tails(p[0], paths), p[1..], true, depth, left)))
      ensures |p| > 1 && MatchSegment(c, k, paths) == p[0] && IsWhole(p[0], paths) ==>
        Member(c, v, k) == Whole(x.fields[k])
    {
      KeyAmongOthers(c, k, paths, p);
      if |p| > 1 && MatchSegment(c, k, paths) == p[0] && !IsWhole(p[0], paths) {
        assert p == [p[0]] + p[1..];
        FindsSomewhere(c, x.fields[k], Tails(p[0], paths), p[1..], true, depth, left);
      }
    }
    assert HasKey(c, v, p);
  }

  lemma {:induction false} FindsSomewhereInside(
      c: Folding, v: View, x: Json, paths: seq<Path>, p: Path, depth: nat, left: bool)
    requires p in paths && x.Obj? && v.x == x
    requires if left then IsEnvelope(c, v, paths, depth) else v.Whole?
    ensures FindsInside(c, v, p, depth)
       <==> FindsApartInside(c, x, paths, p, depth) || FindsContestedInside(c, x, paths, p, depth, left)
    decreases x, 0
  {
    hide Finds, FindsApart, FindsContested, IsMetadata, FindsAmong, FindsApartAmong, FindsContestedAmong;
    forall k | k in x.fields && !IsMetadata(k)
      ensures FindsAmong(c, if left then Sibling(k, x.fields[k], paths, depth) else Whole(x.fields[k]), p, depth) <==>
        (FindsApartAmong(c, x.fields[k], paths, p, depth)
         || FindsContestedAmong(c, x.fields[k], paths, p, depth, left))
      ensures FindsApartAmong(c, x.fields[k], paths, p, depth) ==> LeadsToList(x.fields[k], depth)
      ensures FindsContestedAmong(c, x.fields[k], paths, p, depth, left) ==> LeadsToList(x.fields[k], depth)
    {
      FindsSomewhereAmong(c, k, x.fields[k], paths, p, depth, left);
    }
  }

  lemma {:induction false} FindsSomewhereAmong(
      c: Folding, k: string, m: Json, paths: seq<Path>, p: Path, depth: nat, left: bool)
    requires p in paths && !IsMetadata(k)
    ensures FindsAmong(c, if left then Sibling(k, m, paths, depth) else Whole(m), p, depth) <==>
      (FindsApartAmong(c, m, paths, p, depth) || FindsContestedAmong(c, m, paths, p, depth, left))
    ensures FindsApartAmong(c, m, paths, p, depth) || FindsContestedAmong(c, m, paths, p, depth, left) ==>
      LeadsToList(m, depth)
    decreases m, 2
  {
    hide Finds, FindsInside, FindsApart, FindsContested, FindsApartInside, FindsContestedInside, IsMetadata, HoldsList;
    var w := if left then Sibling(k, m, paths, depth) else Whole(m);
    if LeadsToList(m, depth) {
      if m.Obj? {
        FindsSomewhereInside(c, w, m, paths, p, depth + 1, left);
      } else {
        FindsSomewhere(c, m, paths, p, false, depth, left);
      }
    } else if m.Obj? && depth < MAX_ENVELOPE_DEPTH && FindsInside(c, w, p, depth + 1) {
      InsideIsList(c, m, p, depth + 1);
    }
  }

  /** `v` is an object kept whole by name, whose values are what is left in a list envelope. */
  ghost predicate IsEnvelope(c: Folding, v: View, paths: seq<Path>, depth: nat)
    requires v.x.Obj?
  {
    && !v.Whole? && v.paths == paths && v.depth == depth && (v.Sifted? ==> !HasHead(c, v.x, paths))
  }

  // ----- The warnings of two runs

  lemma {:induction false} IsUnmatched(c: Folding, data: Json, paths: seq<Path>, p: Path)
    ensures p in Unmatched(c, data, paths) <==> p in paths && MatchesNothing(c, data, p)
  {
    if paths != [] {
      IsUnmatched(c, data, paths[1..], p);
      assert p in paths <==> p == paths[0] || p in paths[1..];
    }
  }

  lemma {:induction false} SameUnmatchedIff(c: Folding, a: Json, b: Json, paths: seq<Path>)
    ensures Unmatched(c, a, paths) == Unmatched(c, b, paths)
       <==> forall p :: p in paths ==> (MatchesNothing(c, a, p) <==> MatchesNothing(c, b, p))
  {
    hide MatchesNothing;
    if paths != [] {
      SameUnmatchedIff(c, a, b, paths[1..]);
      IsUnmatched(c, a, paths, paths[0]);
      IsUnmatched(c, b, paths, paths[0]);
      assert forall p :: p in paths <==> p == paths[0] || p in paths[1..];
      var ra, rb := Unmatched(c, a, paths[1..]), Unmatched(c, b, paths[1..]);
      assert ([paths[0]] + ra)[1..] == ra && ([paths[0]] + rb)[1..] == rb;
    }
  }

  /** `p` finds something that no other selector gets in the way of. */
  ghost predicate Apart(c: Folding, data: Json, paths: seq<Path>, p: Path) {
    FindsApart(c, data, paths, p, 0)
  }

  /** `p` finds something in a contested place of the document. */
  ghost predicate Before(c: Folding, data: Json, paths: seq<Path>, p: Path) {
    FindsContested(c, data, paths, p, true, 0, false)
  }

  /** `p` finds something in what the selectors leave of a contested place. */
  ghost predicate After(c: Folding, data: Json, paths: seq<Path>, p: Path) {
    FindsContested(c, data, paths, p, true, 0, true)
  }

  /** When a selector is warned about on the first run, and on the second. */
  lemma WarnedIff(c: Folding, data: Json, paths: seq<Path>, p: Path)
    requires p in paths && !FilterTop(c, data, paths).state.Silent()
    ensures p in Check(c, data, paths).unmatched <==> !Apart(c, data, paths, p) && !Before(c, data, paths, p)
    ensures p in Check(c, Check(c, data, paths).out, paths).unmatched
       <==> !Apart(c, data, paths, p) && !After(c, data, paths, p)
  {
    hide Filter, Finds, FindsApart, FindsContested;
    FindsIff(c, Whole(data), p, true, 0);
    FindsIff(c, Sifted(data, paths, true, 0), p, true, 0);
    FindsSomewhere(c, data, paths, p, true, 0, false);
    FindsSomewhere(c, data, paths, p, true, 0, true);
    IsUnmatched(c, data, paths, p);
    IsUnmatched(c, Check(c, data, paths).out, paths, p);
  }

  /** The second run warns about the same selectors as the first exactly when the call found nothing at all, or each
      selector finds something apart from the others, or in contested places both times or neither time. */
  lemma SameWarningsIff(c: Folding, data: Json, paths: seq<Path>)
    ensures var once := Check(c, data, paths);
            Check(c, once.out, paths).unmatched == once.unmatched <==>
              (|| FilterTop(c, data, paths).state.Silent()
               || forall p :: p in paths ==>
                    Apart(c, data, paths, p) || (Before(c, data, paths, p) <==> After(c, data, paths, p)))
  {
    hide FilterTop, Apart, Before, After, MatchesNothing;
    var out := Check(c, data, paths).out;
    SameUnmatchedIff(c, data, out, paths);
    if !FilterTop(c, data, paths).state.Silent() {
      forall p | p in paths
        ensures (MatchesNothing(c, data, p) <==> MatchesNothing(c, out, p)) <==>
          (Apart(c, data, paths, p) || (Before(c, data, paths, p) <==> After(c, data, paths, p)))
      {
        WarnedIff(c, data, paths, p);
        IsUnmatched(c, data, paths, p);
        IsUnmatched(c, out, paths, p);
      }
    }
  }

  /** `p`, on its way through the document, passes an object where it has no key but another selector has one, or a key
      that answers to another spelling. */
  ghost predicate Contests(c: Folding, x: Json, paths: seq<Path>, p: Path, depth: nat)
    decreases x, 1
  {
    match x
    case Arr(items) => exists i :: 0 <= i < |items| && Contests(c, items[i], paths, p, depth)
    case Obj(fields) =>
      if HasKey(c, Whole(x), p) then
        exists k :: k in fields && Hit(c, k, [p]) && |p| > 1 &&
          (|| MatchSegment(c, k, paths) != p[0]
           || (!IsWhole(p[0], paths) && Contests(c, fields[k], Tails(p[0], paths), p[1..], depth)))
      else HasHead(c, x, paths) || ContestsInside(c, x, paths, p, depth)
    case _ => false
  }

  ghost predicate ContestsInside(c: Folding, x: Json, paths: seq<Path>, p: Path, depth: nat)
    requires x.Obj?
    decreases x, 0
  {
    exists k :: k in x.fields && !IsMetadata(k) && ContestsAmong(c, x.fields[k], paths, p, depth)
  }

  ghost predicate ContestsAmong(c: Folding, m: Json, paths: seq<Path>, p: Path, depth: nat)
    decreases m, 2
  {
    LeadsToList(m, depth) &&
    if m.Obj? then ContestsInside(c, m, paths, p, depth + 1) else Contests(c, m, paths, p, depth)
  }

  lemma {:induction false} UncontestedFindsNothing(
      c: Folding, x: Json, paths: seq<Path>, p: Path, anchored: bool, depth: nat, left: bool)
    requires !Contests(c, x, paths, p, depth)
    ensures !FindsContested(c, x, paths, p, anchored, depth, left)
    decreases x, 1
  {
    hide Finds, FindsInside, IsMetadata, HoldsList, MatchSegment, Sibling;
    match x {
      case Arr(items) =>
        forall i | 0 <= i < |items|
          ensures !FindsContested(c, items[i], paths, p, anchored, depth, left)
        {
          UncontestedFindsNothing(c, items[i], paths, p, anchored, depth, left);
        }
      case Obj(fields) =>
        if HasKey(c, Whole(x), p) {
          forall k | k in fields && Hit(c, k, [p]) && |p| > 1 && MatchSegment(c, k, paths) == p[0]
              && !IsWhole(p[0], paths)
            ensures !FindsContested(c, fields[k], Tails(p[0], paths), p[1..], true, depth, left)
          {
            UncontestedFindsNothing(c, fields[k], Tails(p[0], paths), p[1..], true, depth, left);
          }
        } else {
          UncontestedInside(c, x, paths, p, depth, left);
        }
      case _ =>
    }
  }

  lemma {:induction false} UncontestedInside(
      c: Folding, x: Json, paths: seq<Path>, p: Path, depth: nat, left: bool)
    requires x.Obj? && !ContestsInside(c, x, paths, p, depth)
    ensures !FindsContestedInside(c, x, paths, p, depth, left)
    decreases x, 0
  {
    hide Finds, Contests, FindsContested, IsMetadata, HoldsList;
    forall k | k in x.fields && !IsMetadata(k)
      ensures !FindsContestedAmong(c, x.fields[k], paths, p, depth, left)
    {
      var m := x.fields[k];
      if LeadsToList(m, depth) {
        if m.Obj? {
          UncontestedInside(c, m, paths, p, depth + 1, left);
        } else {
          UncontestedFindsNothing(c, m, paths, p, false, depth, left);
        }
      }
    }
  }

  /** Where no selector gets in the way of another, the two runs warn about the same. */
  lemma UncontestedIsSteady(c: Folding, data: Json, paths: seq<Path>)
    requires forall p :: p in paths ==> !Contests(c, data, paths, p, 0)
    ensures var once := Check(c, data, paths);
            Check(c, once.out, paths).unmatched == once.unmatched
  {
    hide Contests, FindsContested, FindsApart, FilterTop;
    forall p | p in paths
      ensures !Before(c, data, paths, p) && !After(c, data, paths, p)
    {
      UncontestedFindsNothing(c, data, paths, p, true, 0, false);
      UncontestedFindsNothing(c, data, paths, p, true, 0, true);
    }
    SameWarningsIff(c, data, paths);
  }

  /** A selector on its own is warned about both times or neither time. */
  lemma SingleSelectorIsSteady(c: Folding, data: Json, p: Path)
    ensures var once := Check(c, data, [p]);
            Check(c, once.out, [p]).unmatched == once.unmatched
  {
    hide Filter;
    FilterIdempotent(c, data, [p], true, 0);
    SameUnmatchedIff(c, data, Check(c, data, [p]).out, [p]);
  }

  // ----- The warnings, unlike the output, can change

  /** A name written in lower case, with no hump to break. */
  predicate Plain(c: Folding, name: string) {
    name != "" && ToLower(c, name) == name && CamelToKebab(c, name) == name
  }

  lemma PlainHits(c: Folding, name: string, paths: seq<Path>)
    requires Plain(c, name)
    ensures IsHead(name, paths) ==> MatchSegment(c, name, paths) == name && Hit(c, name, paths)
    ensures !IsHead(name, paths) ==> !Hit(c, name, paths)
  {
  }

  lemma OneMemberKept(c: Folding, x: Json, name: string, paths: seq<Path>)
    requires Plain(c, name) && [name] in paths
    requires x.Obj? && name in x.fields && forall k :: k in x.fields && k != name ==> !Hit(c, k, paths)
    ensures FilterTop(c, x, paths) == Filtered(Obj(map[name := x.fields[name]]), MatchState(true, false, false))
  {
    PlainHits(c, name, paths);
    var whole := Filtered(x.fields[name], MatchState(true, false, false));
    var outs := FilterHeads(c, x, paths, 0);
    assert [name][0] == name;
    assert outs == map[name := whole];
    hide Hit, FilterHeads;
    assert MemberJsons(outs) == map[name := x.fields[name]];
    assert outs[name].state.matched;
  }

  lemma FoundInEnvelope(c: Folding, x: Json, list: string, name: string)
    requires Plain(c, name) && !IsMetadata(list)
    requires x.Obj? && list in x.fields && x.fields[list].Arr? && x.fields[list].items != []
    requires x.fields[list].items[0].Obj? && name in x.fields[list].items[0].fields
    requires forall k :: k in x.fields ==> !Hit(c, k, [[name]])
    ensures FilterTop(c, x, [[name]]).state.matched
  {
    var toName := [Index(0), Key(name)];
    assert toName[1..] == [Key(name)];
    assert [name][0] == name && [[name]][0] == [name];
    PlainHits(c, name, [[name]]);
    assert Selected(c, toName[1..], [[name]]);
    assert At(x.fields[list].items[0], toName[1..]).Some?;
    SelectedIsKept(c, x.fields[list], toName, [[name]], false, 0);
    FilterWithoutHeads(c, x, [[name]], true, 0);
    var outs := FilterSiblings(c, x, [[name]], 0);
    assert outs[list].found && outs[list].state.matched;
  }

  lemma NothingElseThere(c: Folding, x: Json, p: Path)
    requires x.Obj? && forall k :: k in x.fields ==> !Hit(c, k, [p]) && !x.fields[k].Arr? && !x.fields[k].Obj?
    ensures MatchesNothing(c, x, p)
  {
    FilterWithoutHeads(c, x, [p], true, 0);
    var outs := FilterSiblings(c, x, [p], 0);
    assert forall k :: k in outs ==> !outs[k].found;
  }

  lemma UnmatchedOfTwo(c: Folding, data: Json, p: Path, q: Path)
    ensures Unmatched(c, data, [p, q])
         == (if MatchesNothing(c, data, p) then [p] else []) + (if MatchesNothing(c, data, q) then [q] else [])
  {
    assert [p, q][1..] == [q];
  }

  /** For every document `{"a": ..., "n": [{"x": ...}]}` and selectors `a,x`: the first run warns about nothing,
      but it keeps only `a`, so a second run over its output warns about `x`. */
  lemma WarningsMayAppearLater(c: Folding, a: string, n: string, x: string, row: map<string, Json>)
    requires Plain(c, a) && Plain(c, n) && Plain(c, x) && !IsMetadata(n)
    requires a != n && a != x && n != x && x in row
    ensures var data := Obj(map[a := Null, n := Arr([Obj(row)])]);
            var once := Check(c, data, [[a], [x]]);
            once.unmatched == [] && Check(c, once.out, [[a], [x]]).unmatched == [[x]]
  {
    hide Filter, MatchSegment, Unmatched, IsMetadata;
    var data := Obj(map[a := Null, n := Arr([Obj(row)])]);
    var paths: seq<Path> := [[a], [x]];
    var left := Obj(map[a := Null]);
    assert paths[0] == [a] && paths[1] == [x] && paths[1..] == [[x]];
    forall ps: seq<Path> | ps == paths || ps == [[a]] || ps == [[x]]
      ensures Hit(c, a, ps) <==> [a] in ps
      ensures !Hit(c, n, ps)
    {
      assert [a][0] == a && [x][0] == x;
      PlainHits(c, a, ps);
      PlainHits(c, n, ps);
    }
    OneMemberKept(c, data, a, paths);
    assert Check(c, data, paths).out == left;
    OneMemberKept(c, data, a, [[a]]);
    FoundInEnvelope(c, data, n, x);
    UnmatchedOfTwo(c, data, [a], [x]);
    OneMemberKept(c, left, a, [[a]]);
    NothingElseThere(c, left, [x]);
    UnmatchedOfTwo(c, left, [a], [x]);
  }

  /** For every document `{"n": null}` and selectors `n.y,w`: the first run warns about `w`, but it makes an empty array
      of the null, in which `w` might have been, so a second run over its output warns about nothing. */
  lemma WarningsMayDisappear(c: Folding, n: string, y: string, w: string)
    requires Plain(c, n) && Plain(c, w) && !IsMetadata(n) && n != w
    ensures var data := Obj(map[n := Null]);
            var once := Check(c, data, [[n, y], [w]]);
            once.unmatched == [[w]] && Check(c, once.out, [[n, y], [w]]).unmatched == []
  {
    hide MatchSegment, Unmatched, IsMetadata;
    var data, left := Obj(map[n := Null]), Obj(map[n := Arr([])]);
    var paths: seq<Path> := [[n, y], [w]];
    EntersMember(c, data, n, y, paths);
    EntersMember(c, data, n, y, [[n, y]]);
    EntersMember(c, left, n, y, [[n, y]]);
    assert [w][0] == w;
    PlainHits(c, n, [[w]]);
    NothingElseThere(c, data, [w]);
    UnmatchedOfTwo(c, data, [n, y], [w]);
    FilterWithoutHeads(c, left, [[w]], true, 0);
    var outs := FilterSiblings(c, left, [[w]], 0);
    assert outs[n].found && outs[n].state.fallback;
    UnmatchedOfTwo(c, left, [n, y], [w]);
  }

  /** An empty array, or a null, under the first key of a selector is entered and left as an empty array. */
  lemma EntersMember(c: Folding, x: Json, n: string, y: string, paths: seq<Path>)
    requires Plain(c, n) && x.Obj? && x.fields.Keys == {n} && x.fields[n] in {Null, Arr([])}
    requires [n, y] in paths && [n] !in paths
    ensures FilterTop(c, x, paths) == Filtered(Obj(map[n := Arr([])]), MatchState(false, true, false))
  {
    assert [n, y][0] == n;
    PlainHits(c, n, paths);
    hide Plain, MatchSegment, FilterEnvelope, FilterItems, IsMetadata;
    assert IsHead(n, paths) && !IsWhole(n, paths);
    hide IsHead, IsWhole;
    var outs := FilterHeads(c, x, paths, 0);
    assert outs == map[n := EmptyArray(true)];
    assert MemberJsons(outs) == map[n := Arr([])];
    assert outs[n].state.anchored;
  }
}

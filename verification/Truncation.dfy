/** What a run of `--all` leaves behind without saying so: totals not reached, and pages capped by the server. */
module Truncation {
  import opened Basics
  import opened Numerals
  import opened Pagination

  /** What is known of every run. */
  ghost predicate IsRun(
      cfg: Config, params: Params, server: (nat, Params) -> Body, sent: seq<Params>, bodies: seq<Body>, r: Result)
  {
    && Logged(cfg, params, server, sent, bodies)
    && if r.Items? then Ends(cfg, params, sent, bodies, r) else FailsFor(bodies)
  }

  function SizeOf(cfg: Config, params: Params): int {
    PageSize(cfg, CleanParams(cfg, params))
  }

  // ----- Totals that are not reached

  /** The client can move the cursor of a request on by itself. */
  predicate CanStep(cfg: Config, clean: Params) {
    var current := Get(clean, cfg.cursorParam);
    && cfg.mode != Cursor && cfg.cursorParam != ""
    && Atoi(if current != "" then current else if cfg.mode == Offset then "0" else "1").Some?
  }

  lemma NextFullPageIff(cfg: Config, clean: Params, size: int, count: nat, moreRemain: bool)
    ensures NextFullPage(cfg, clean, size, count, moreRemain).Some?
       <==> CanStep(cfg, clean) && count > 0 && (size <= 0 || count >= size || moreRemain)
  {
    hide Atoi, Itoa;
  }

  /** A run that has been told of more than it has stops without a word when its last answer names no cursor and claims
      nothing, and it says there is no more, is empty, or the client cannot move the cursor on; or when the answer is a
      short bare array or no collection at all. */
  predicate StopsShort(cfg: Config, size: int, clean: Params, bodies: seq<Body>)
    requires bodies != []
  {
    var last := bodies[|bodies| - 1];
    && !RepeatsLast(cfg, clean, bodies) && !Unsignalled(cfg, bodies) && !NamesCursor(last) && !ClaimsMore(cfg, last)
    && (|| SaysNoMore(cfg, last) || ItemsOf(last) == [] || !CanStep(cfg, clean)
        || (last.Bare? && |last.items| < size))
  }

  /** Nothing marks a run that ends with fewer items than the last total told exactly when it stops in one of those
      ways. */
  lemma UnmarkedShortIff(
      cfg: Config, params: Params, server: (nat, Params) -> Body, sent: seq<Params>, bodies: seq<Body>, r: Result)
    requires IsRun(cfg, params, server, sent, bodies, r) && r.Items? && |r.items| < LastTotal(bodies)
    ensures r.truncated == {} <==> StopsShort(cfg, SizeOf(cfg, params), sent[|sent| - 1], bodies)
  {
    LogLengths(cfg, params, server, sent, bodies);
    hide RepeatsLast, AllItems, LastTotal, Unsignalled, Marks, Logged, FailsFor;
    var clean := sent[|sent| - 1];
    QuietIff(cfg, params, sent, bodies, r);
    if r.truncated == {} || !RepeatsLast(cfg, clean, bodies) {
      NotRepeated(cfg, params, server, sent, bodies, r);
      hide *;
      QuietIffShort(cfg, SizeOf(cfg, params), clean, bodies);
    }
  }

  /** A run whose last page repeats none keeps all it received. */
  lemma NotRepeated(
      cfg: Config, params: Params, server: (nat, Params) -> Body, sent: seq<Params>, bodies: seq<Body>, r: Result)
    requires IsRun(cfg, params, server, sent, bodies, r) && r.Items?
    requires r.truncated == {} || !RepeatsLast(cfg, sent[|sent| - 1], bodies)
    ensures r.items == AllItems(bodies)
  {
    hide RepeatsLast, AllItems, IsQuiet;
  }

  lemma QuietIffShort(cfg: Config, size: int, clean: Params, bodies: seq<Body>)
    requires bodies != [] && |AllItems(bodies)| < LastTotal(bodies) && !bodies[|bodies| - 1].Failed?
    ensures IsQuiet(cfg, size, clean, bodies) && !Unsignalled(cfg, bodies) <==> StopsShort(cfg, size, clean, bodies)
  {
    hide NextFullPage, NextClientSide, CanStep, AllItems, LastTotal, RepeatsLast, Unsignalled;
    var last := bodies[|bodies| - 1];
    NextFullPageIff(cfg, clean, size, |ItemsOf(last)|, last.Object?);
  }

  /** Without a parameter to move on, a run ends with its first page unless that names a cursor. */
  lemma OnePageWithoutParameter(
      cfg: Config, params: Params, server: (nat, Params) -> Body, sent: seq<Params>, bodies: seq<Body>, r: Result)
    requires cfg.cursorParam == "" && IsRun(cfg, params, server, sent, bodies, r) && r.Items?
    requires !NamesCursor(bodies[0])
    ensures |sent| == 1 && r.items == ItemsOf(bodies[0])
    ensures r.truncated == {} <==> !ClaimsMore(cfg, bodies[0]) && !Unsignalled(cfg, bodies)
  {
    hide FirstParams, PageSize, CleanParams;
    var size := SizeOf(cfg, params);
    assert |sent| > 1 ==> GoesOn(cfg, size, sent[0], bodies[..1], sent[1]);
    NothingAskedFirst(cfg, size, sent[0], bodies);
    assert bodies[..1] == bodies && bodies[..0] == [];
    assert AllItems(bodies) == ItemsOf(bodies[0]);
    NotRepeated(cfg, params, server, sent, bodies, r);
  }

  lemma NothingAskedFirst(cfg: Config, size: int, clean: Params, bodies: seq<Body>)
    requires cfg.cursorParam == "" && bodies != [] && !NamesCursor(bodies[0])
    ensures AskedAfter(cfg, size, clean, bodies[..1]) == None && !RepeatsLast(cfg, clean, bodies[..1])
  {
    assert bodies[..1][..0] == [];
  }

  /** The look-up by external id declares an offset but no parameter for it: a full first page of a longer list comes
      back alone, unmarked, although it tells the total. */
  lemma LookUpStopsUnmarked(
      params: Params, server: (nat, Params) -> Body, page: Page, sent: seq<Params>, bodies: seq<Body>, r: Result)
    requires IsRun(Config(Offset, "", "limit", 20, "", ""), params, server, sent, bodies, r)
    requires page.items.Some? && |page.items.value| == 20 && page.total == 57 && page.next == ""
    requires forall clean :: server(0, clean) == Object(page)
    ensures r.Items? ==> r == Items(page.items.value, {}) && |r.items| < LastTotal(bodies)
    ensures r.Items?
  {
    var cfg := Config(Offset, "", "limit", 20, "", "");
    assert bodies[0] == Object(page);
    hide FirstParams, PageSize, CleanParams;
    var size := SizeOf(cfg, params);
    assert |sent| > 1 ==> GoesOn(cfg, size, sent[0], bodies[..1], sent[1]);
    NothingAskedFirst(cfg, size, sent[0], bodies);
    assert bodies == [Object(page)] && bodies[..0] == [];
    if r.Items? {
      OnePageWithoutParameter(cfg, params, server, sent, bodies, r);
    }
  }

  // ----- A server that caps its pages

  /** The server pages truthfully through `l` by offset from the first element on and leaves the next offset to the
      client, but never serves more than `cap` elements at a time. */
  ghost predicate Caps(
      cfg: Config, params: Params, server: (nat, Params) -> Body, l: seq<Item>, envelope: string, cap: nat)
  {
    var size := SizeOf(cfg, params);
    && cfg.mode == Offset && size > 0 && Pageable(cfg, size, l, 0)
    && Position(cfg, size, FirstParams(cfg, params)) == Some(0)
    && forall i, clean | IsRequest(cfg, params, clean) ::
         IsCappedPage(cfg, size, l, envelope, cap, Position(cfg, size, clean), server(i, clean))
  }

  ghost predicate IsCappedPage(
      cfg: Config, size: int, l: seq<Item>, envelope: string, cap: nat, at: Option<int>, body: Body)
  {
    at.Some? && at.value >= 0 ==>
      Truthful(cfg, size, l, envelope, at.value, at.value + Min(cap, size), body) && !NamesCursor(body)
  }

  /** The offsets move on by the page asked for, not by what was served. */
  lemma {:induction false} CappedAt(
      cfg: Config, params: Params, server: (nat, Params) -> Body, l: seq<Item>, envelope: string, cap: nat,
      sent: seq<Params>, bodies: seq<Body>, i: nat)
    requires Caps(cfg, params, server, l, envelope, cap) && Logged(cfg, params, server, sent, bodies) && i < |sent|
    ensures
      var size := SizeOf(cfg, params);
      && Position(cfg, size, sent[i]) == Some(i * size) && i * size >= 0
      && IsCappedPage(cfg, size, l, envelope, cap, Some(i * size), bodies[i])
  {
    hide *;
    var size := SizeOf(cfg, params);
    CappedFrom(cfg, params, server, l, envelope, cap);
    LoggedAt(cfg, params, server, sent, bodies, i);
    if i > 0 {
      CappedAt(cfg, params, server, l, envelope, cap, sent, bodies, i - 1);
      StrideAt(i, size);
      var before := bodies[..i];
      assert before[|before| - 1] == bodies[i - 1];
      StepsOn(cfg, size, sent[i - 1], bodies[..i], sent[i], l, envelope, cap, (i - 1) * size);
    }
    CappedAnswer(cfg, params, server, l, envelope, cap, i, sent[i]);
  }

  lemma CappedFrom(
      cfg: Config, params: Params, server: (nat, Params) -> Body, l: seq<Item>, envelope: string, cap: nat)
    requires Caps(cfg, params, server, l, envelope, cap)
    ensures
      var size := SizeOf(cfg, params);
      cfg.mode == Offset && size > 0 && Pageable(cfg, size, l, 0)
        && Position(cfg, size, FirstParams(cfg, params)) == Some(0) && 0 * size == 0
  {
  }

  lemma CappedAnswer(
      cfg: Config, params: Params, server: (nat, Params) -> Body, l: seq<Item>, envelope: string, cap: nat,
      i: nat, clean: Params)
    requires Caps(cfg, params, server, l, envelope, cap) && IsRequest(cfg, params, clean)
    ensures
      var size := SizeOf(cfg, params);
      IsCappedPage(cfg, size, l, envelope, cap, Position(cfg, size, clean), server(i, clean))
  {
    hide IsRequest, IsCappedPage, Position, SizeOf, FirstParams;
  }

  lemma LoggedAt(
      cfg: Config, params: Params, server: (nat, Params) -> Body, sent: seq<Params>, bodies: seq<Body>, i: nat)
    requires Logged(cfg, params, server, sent, bodies) && i < |sent|
    ensures |sent| == |bodies| && i < 100 && sent[0] == FirstParams(cfg, params)
    ensures IsRequest(cfg, params, sent[i]) && bodies[i] == server(i, sent[i])
    ensures i > 0 ==> GoesOn(cfg, SizeOf(cfg, params), sent[i - 1], bodies[..i], sent[i])
  {
    hide IsRequest, GoesOn, FirstParams, PageSize, CleanParams;
  }

  lemma StrideAt(i: nat, size: int)
    requires 0 < i < 100 && size > 0
    ensures (i - 1) * size + size == i * size && 0 <= (i - 1) * size <= 98 * size
  {
    assert (i - 1) * size <= 98 * size;
  }

  lemma StepsOn(
      cfg: Config, size: int, clean: Params, bodies: seq<Body>, next: Params, l: seq<Item>, envelope: string, cap: nat,
      at: int)
    requires cfg.mode == Offset && size > 0 && Pageable(cfg, size, l, 0) && 0 <= at <= 98 * size && bodies != []
    requires IsCappedPage(cfg, size, l, envelope, cap, Some(at), bodies[|bodies| - 1])
    requires Position(cfg, size, clean) == Some(at) && GoesOn(cfg, size, clean, bodies, next)
    ensures Position(cfg, size, next) == Some(at + size)
  {
    hide PositionOf, IsCappedPage, RepeatsLast, NextClientSide, AskedAfter;
    StepAsked(cfg, size, clean, bodies, l, envelope, cap, at);
    NextPosition(cfg, size, clean, at, size);
  }

  /** After a page that names no cursor, what is asked for is the page's stride. */
  lemma StepAsked(
      cfg: Config, size: int, clean: Params, bodies: seq<Body>, l: seq<Item>, envelope: string, cap: nat, at: int)
    requires size > 0 && at >= 0 && bodies != []
    requires IsCappedPage(cfg, size, l, envelope, cap, Some(at), bodies[|bodies| - 1])
    ensures AskedAfter(cfg, size, clean, bodies) in {None, NextClientSide(cfg, clean, size)}
  {
    hide NextClientSide, PositionOf;
  }

  /** With a cap below the page size, the part of the list between the cap and the page is skipped. */
  ghost predicate Skips(l: seq<Item>, cap: nat, size: int, items: seq<Item>)
    requires cap <= |l|
  {
    && |items| >= cap && items[..cap] == l[..cap]
    && (|items| > cap ==> exists p: nat :: size <= p < |l| && items[cap] == l[p])
  }

  lemma {:induction false} SkipsSoFar(
      cfg: Config, params: Params, server: (nat, Params) -> Body, l: seq<Item>, envelope: string, cap: nat,
      sent: seq<Params>, bodies: seq<Body>, m: nat)
    requires Caps(cfg, params, server, l, envelope, cap) && Logged(cfg, params, server, sent, bodies)
    requires 0 < m <= |bodies| && cap < SizeOf(cfg, params) && cap < |l|
    ensures Skips(l, cap, SizeOf(cfg, params), AllItems(bodies[..m]))
  {
    hide *;
    var size, at := SizeOf(cfg, params), (m - 1) * SizeOf(cfg, params);
    LogLengths(cfg, params, server, sent, bodies);
    CappedFrom(cfg, params, server, l, envelope, cap);
    CappedAt(cfg, params, server, l, envelope, cap, sent, bodies, m - 1);
    CappedItems(cfg, size, l, envelope, cap, at, bodies[m - 1]);
    AllItemsSnoc(bodies, m - 1);
    if m > 1 {
      SkipsSoFar(cfg, params, server, l, envelope, cap, sent, bodies, m - 1);
      Further(m - 1, size);
      SkipsOn(l, cap, size, AllItems(bodies[..m - 1]), at);
    } else {
      SkipsFirst(l, cap, size);
      assert at == 0;
      assert AllItems(bodies[..0]) + Span(l, 0, cap) == Span(l, 0, cap);
    }
  }

  lemma Further(m: nat, size: int)
    requires m > 0 && size > 0
    ensures m * size >= size
  {
  }

  lemma AllItemsSnoc(bodies: seq<Body>, m: nat)
    requires m < |bodies|
    ensures AllItems(bodies[..m + 1]) == AllItems(bodies[..m]) + ItemsOf(bodies[m]) && AllItems(bodies[..0]) == []
  {
    assert bodies[..m + 1][..m] == bodies[..m];
  }

  lemma SkipsFirst(l: seq<Item>, cap: nat, size: int)
    requires cap <= |l|
    ensures Skips(l, cap, size, Span(l, 0, cap))
  {
  }

  lemma CappedItems(cfg: Config, size: int, l: seq<Item>, envelope: string, cap: nat, at: int, body: Body)
    requires IsCappedPage(cfg, size, l, envelope, cap, Some(at), body) && at >= 0 && cap < size
    ensures ItemsOf(body) == Span(l, at, at + cap)
  {
  }

  lemma SkipsOn(l: seq<Item>, cap: nat, size: int, items: seq<Item>, at: int)
    requires cap <= |l| && Skips(l, cap, size, items) && at >= size > 0
    ensures Skips(l, cap, size, items + Span(l, at, at + cap))
  {
    var more := Span(l, at, at + cap);
    assert (items + more)[..cap] == items[..cap];
    if |items| == cap && more != [] {
      assert (items + more)[cap] == l[at];
    }
  }

  lemma SkipsIsWrong(l: seq<Item>, cap: nat, size: int, items: seq<Item>)
    requires cap < |l| && cap < size && Distinct(l) && Skips(l, cap, size, items)
    ensures items != l[..Min(|l|, MAX_PAGES * size)]
  {
    assert l[..Min(|l|, MAX_PAGES * size)][cap] == l[cap];
  }

  /** A cap no smaller than the page size is no cap. */
  lemma UncappedServes(
      cfg: Config, params: Params, server: (nat, Params) -> Body, l: seq<Item>, envelope: string, cap: nat)
    requires Caps(cfg, params, server, l, envelope, cap) && cap >= SizeOf(cfg, params)
    ensures Serves(cfg, params, server, l, envelope) && StartOf(cfg, params) == 0
  {
    hide IsRequest, PositionOf, FirstParams, PageSize, CleanParams, Truthful;
  }

  /** All of a list that fits under the cap comes with the first page, which is the only one. */
  lemma AllUnderCap(
      cfg: Config, params: Params, server: (nat, Params) -> Body, l: seq<Item>, envelope: string, cap: nat,
      sent: seq<Params>, bodies: seq<Body>)
    requires Caps(cfg, params, server, l, envelope, cap) && Logged(cfg, params, server, sent, bodies)
    requires |l| <= cap < SizeOf(cfg, params)
    ensures |bodies| == 1 && AllItems(bodies) == l
  {
    var size := SizeOf(cfg, params);
    hide *;
    LogLengths(cfg, params, server, sent, bodies);
    CappedFrom(cfg, params, server, l, envelope, cap);
    CappedAt(cfg, params, server, l, envelope, cap, sent, bodies, 0);
    AllItemsSnoc(bodies, 0);
    assert bodies[..0] + [bodies[0]] == bodies[..1];
    WholeFirstPage(cfg, size, l, envelope, cap, sent[0], bodies[..1]);
    if |sent| > 1 {
      LoggedAt(cfg, params, server, sent, bodies, 1);
      NoneNext(cfg, size, sent[0], bodies[..1], sent[1]);
    }
    assert |bodies| == 1 ==> bodies[..1] == bodies;
  }

  lemma NoneNext(cfg: Config, size: int, clean: Params, bodies: seq<Body>, next: Params)
    requires bodies != [] && AskedAfter(cfg, size, clean, bodies) == None
    ensures !GoesOn(cfg, size, clean, bodies, next)
  {
  }

  lemma WholeFirstPage(
      cfg: Config, size: int, l: seq<Item>, envelope: string, cap: nat, clean: Params, bodies: seq<Body>)
    requires |l| <= cap < size && |bodies| == 1 && IsCappedPage(cfg, size, l, envelope, cap, Some(0), bodies[0])
    ensures AskedAfter(cfg, size, clean, bodies) == None && ItemsOf(bodies[0]) == l && AllItems(bodies) == l
  {
    hide NextClientSide, PositionOf;
    assert bodies[..0] == [] && l[..|l|] == l;
    assert ItemsOf(bodies[0]) == Span(l, 0, cap) == l;
    assert AllItems(bodies) == [] + l == l;
    assert LastTotal(bodies) == Told(0, bodies[0]);
    assert bodies[|bodies| - 1] == bodies[0] && !NamesCursor(bodies[0]) && !ClaimsMore(cfg, bodies[0]);
  }

  lemma CapsNeverFail(
      cfg: Config, params: Params, server: (nat, Params) -> Body, l: seq<Item>, envelope: string, cap: nat,
      sent: seq<Params>, bodies: seq<Body>)
    requires Caps(cfg, params, server, l, envelope, cap) && Logged(cfg, params, server, sent, bodies)
    ensures |bodies| == |sent| > 0 && !FailsFor(bodies)
  {
    hide Caps, SizeOf, PositionOf, FirstParams, PageSize, CleanParams, AskedFor;
    forall i | 0 <= i < |bodies|
      ensures !bodies[i].Failed? && EnvelopeOf(bodies[i]) == envelope
    {
      CappedAt(cfg, params, server, l, envelope, cap, sent, bodies, i);
    }
  }

  /** Against a server that caps its pages, the result is the list, up to a hundred pages, exactly when the cap is no
      smaller than the page size or the whole list fits under it. */
  lemma CappedIff(
      cfg: Config, params: Params, server: (nat, Params) -> Body, l: seq<Item>, envelope: string, cap: nat,
      sent: seq<Params>, bodies: seq<Body>, r: Result)
    requires Caps(cfg, params, server, l, envelope, cap) && IsRun(cfg, params, server, sent, bodies, r)
    requires Serves(cfg, params, server, l, envelope) && r.Items? ==>
      Covers(cfg, params, l, bodies, r.items, r.truncated != {})
    ensures r.Items?
    ensures r.items == l[..Min(|l|, MAX_PAGES * SizeOf(cfg, params))] <==> cap >= SizeOf(cfg, params) || |l| <= cap
  {
    var size := SizeOf(cfg, params);
    hide Logged, Caps, SizeOf, Serves, Covers, AllItems, IsQuiet;
    LogLengths(cfg, params, server, sent, bodies);
    CapsNeverFail(cfg, params, server, l, envelope, cap, sent, bodies);
    CappedFrom(cfg, params, server, l, envelope, cap);
    if cap >= size {
      UncappedServes(cfg, params, server, l, envelope, cap);
      CoversFromStart(cfg, params, l, bodies, r.items, r.truncated != {});
    } else if |l| <= cap {
      AllUnderCap(cfg, params, server, l, envelope, cap, sent, bodies);
      assert l[..|l|] == l;
    } else {
      var m := if PageRepeated in r.truncated then |bodies| - 1 else |bodies|;
      assert bodies[..|bodies|] == bodies && r.items == AllItems(bodies[..m]);
      SkipsSoFar(cfg, params, server, l, envelope, cap, sent, bodies, m);
      SkipsIsWrong(l, cap, size, r.items);
    }
  }

  lemma CoversFromStart(
      cfg: Config, params: Params, l: seq<Item>, bodies: seq<Body>, items: seq<Item>, marked: bool)
    requires Covers(cfg, params, l, bodies, items, marked) && StartOf(cfg, params) == 0 && |bodies| <= MAX_PAGES
    requires SizeOf(cfg, params) > 0
    ensures items == l[..Min(|l|, MAX_PAGES * SizeOf(cfg, params))]
  {
    var size := SizeOf(cfg, params);
    var at, to := LastPage(cfg, params, l, bodies, items, marked);
    assert to == |bodies| * size && to <= MAX_PAGES * size by {
      hide *;
      UpToCap(|bodies|, size, at, to);
    }
    hide PageSize, CleanParams, StartOf, Covers, GoesPast, LastTotal;
  }

  lemma UpToCap(pages: nat, size: int, at: int, to: int)
    requires 0 < pages <= MAX_PAGES && size > 0 && at == (pages - 1) * size && to == at + size
    ensures to == pages * size && to <= MAX_PAGES * size
  {
    assert pages * size <= 100 * size;
  }
}

/** `--all`: fetching page after page from a server that may say anything. */
module Pagination {
  import opened Basics
  import opened Numerals

  /** One element of a collection, as raw JSON text. */
  type Item = string
  type Params = map<string, string>

  datatype Mode = Cursor | PageNumber | Offset

  datatype Config = Config(
    mode: Mode,
    cursorParam: string,
    limitParam: string,
    defaultPageSize: int,
    nextCursorPath: string,
    hasMoreField: string)

  /** What an object response is found to say: its collection (and the field it must be put back in, "" for none),
      the token at the cursor path, the cursor to go on with ("" for none), its total, and its has-more field. */
  datatype Page = Page(
    items: Option<seq<Item>>,
    envelope: string,
    token: string,
    next: string,
    total: int,
    more: Option<bool>)

  datatype Body = Failed | Bare(items: seq<Item>) | Object(page: Page) | Opaque

  datatype Reason = CursorRepeated | PageRepeated | MaxPages | CursorMissing | SignalMissing

  datatype Result = Error | Items(items: seq<Item>, truncated: set<Reason>)

  const MAX_PAGES := 100

  function Get(params: Params, key: string): string {
    if key in params then params[key] else ""
  }

  /** Blank parameters are dropped, and so is a zero cursor unless it is an offset. */
  function CleanParams(cfg: Config, params: Params): Params {
    map k | k in params && params[k] != "" && !(k == cfg.cursorParam && cfg.mode != Offset && params[k] == "0") ::
      params[k]
  }

  /** The path the token is looked up at. */
  function LookupPath(cfg: Config): string {
    if cfg.nextCursorPath == "" && cfg.mode == Cursor then cfg.cursorParam else cfg.nextCursorPath
  }

  predicate AsksForLimit(cfg: Config, clean: Params) {
    cfg.limitParam != "" && Atoi(Get(clean, cfg.limitParam)).Some? && Atoi(Get(clean, cfg.limitParam)).value > 0
  }

  /** The page size asked for, or the default; zero leaves it to the server. */
  function PageSize(cfg: Config, clean: Params): int {
    if cfg.mode == Cursor then 0
    else if AsksForLimit(cfg, clean) then Atoi(Get(clean, cfg.limitParam)).value
    else cfg.defaultPageSize
  }

  function FirstParams(cfg: Config, params: Params): Params {
    var clean := CleanParams(cfg, params);
    if cfg.mode != Cursor && cfg.limitParam != "" && !AsksForLimit(cfg, clean) && cfg.defaultPageSize > 0
    then clean[cfg.limitParam := Itoa(cfg.defaultPageSize)]
    else clean
  }

  /** The requests a run can make: they differ from the first in the cursor alone. */
  predicate IsRequest(cfg: Config, params: Params, clean: Params) {
    var first := FirstParams(cfg, params);
    clean == first || SetsCursor(cfg, first, clean)
  }

  predicate SetsCursor(cfg: Config, from: Params, clean: Params) {
    cfg.cursorParam in clean && clean == from[cfg.cursorParam := clean[cfg.cursorParam]]
  }

  // ----- Where to go next

  /** `nextClientSidePaginationCursor`. */
  function NextClientSide(cfg: Config, clean: Params, pageSize: int): (next: Option<string>)
    ensures cfg.mode == Cursor ==> next.None?
  {
    var current := Get(clean, cfg.cursorParam);
    if cfg.cursorParam == "" then None
    else match cfg.mode
      case PageNumber =>
        var n := Atoi(if current == "" then "1" else current);
        if n.None? then None else Some(Itoa(Wrap(n.value + 1)))
      case Offset =>
        var n := Atoi(if current == "" then "0" else current);
        if n.None? || pageSize <= 0 then None else Some(Itoa(Wrap(n.value + pageSize)))
      case Cursor => None
  }

  /** `nextFullPageOffsetCursor`: a short page is the last one, unless more is known to remain. */
  function NextFullPage(
      cfg: Config, clean: Params, pageSize: int, itemCount: nat, moreRemain: bool): (next: Option<string>)
    ensures cfg.mode == Cursor ==> next.None?
  {
    if cfg.mode == Cursor || itemCount == 0 then None
    else if pageSize > 0 && itemCount < pageSize && !moreRemain then None
    else NextClientSide(cfg, clean, if pageSize <= 0 && cfg.mode == Offset then itemCount else pageSize)
  }

  // ----- One page

  /** The loop's variables; `page` counts the requests made. */
  datatype Progress = Progress(
    clean: Params,
    allItems: seq<Item>,
    envelope: Option<string>,
    seen: set<string>,
    previous: Option<seq<Item>>,
    foundCursor: bool,
    reportedTotal: int,
    page: nat)

  datatype Verdict = Continue(st: Progress) | Stop(st: Progress, reason: Option<Reason>) | Fail

  function Advance(cfg: Config, st: Progress, next: Option<string>, otherwise: Option<Reason>): Verdict {
    if next.None? then Stop(st, otherwise)
    else if st.page >= MAX_PAGES then Stop(st, Some(MaxPages))
    else Continue(st.(clean := st.clean[cfg.cursorParam := next.value]))
  }

  function Collected(st: Progress, envelope: string, items: seq<Item>): Progress {
    st.(envelope := Some(if st.envelope.Some? then st.envelope.value else envelope),
        previous := Some(items), allItems := st.allItems + items)
  }

  /** What the loop does with a response. */
  function Digest(cfg: Config, pageSize: int, st: Progress, body: Body): Verdict {
    match body
    case Failed => Fail
    case Opaque => Stop(st, None)
    case Bare(items) =>
      if st.envelope.Some? && st.envelope.value != "" then Fail
      else if st.previous == Some(items) then Stop(st, Some(PageRepeated))
      else Advance(cfg, Collected(st, "", items), NextFullPage(cfg, st.clean, pageSize, |items|, false), None)
    case Object(page) =>
      if page.items.None? then FollowObject(cfg, pageSize, st, page, 0)
      else if st.envelope.Some? && st.envelope.value != page.envelope then Fail
      else if st.previous == page.items && IsSamePage(cfg, st.clean, page) then Stop(st, Some(PageRepeated))
      else FollowObject(cfg, pageSize, Collected(st, page.envelope, page.items.value), page, |page.items.value|)
  }

  /** A cursor page with the same items as the last one only repeats it if its token does not move on either. */
  predicate IsSamePage(cfg: Config, clean: Params, page: Page) {
    || cfg.mode == Offset
    || (LookupPath(cfg) != "" && (page.token == "" || page.token == Get(clean, cfg.cursorParam)))
  }

  function FollowObject(cfg: Config, pageSize: int, st0: Progress, page: Page, itemCount: nat): Verdict {
    var st := if page.total > 0 then st0.(reportedTotal := page.total) else st0;
    var more := if cfg.hasMoreField == "" then None else page.more;
    if page.next != "" then FollowCursor(cfg, st.(foundCursor := true), page.next)
    else if more == Some(true) then
      var size := if pageSize > 0 || cfg.mode != Offset then pageSize else if itemCount > 0 then itemCount else 1;
      Advance(cfg, st, NextClientSide(cfg, st.clean, size), Some(CursorMissing))
    else if more == Some(false) then Stop(st, None)
    else
      var moreByTotal := st.reportedTotal > 0 && |st.allItems| < st.reportedTotal;
      if moreByTotal || (cfg.nextCursorPath == "" && cfg.hasMoreField == "")
      then Advance(cfg, st, NextFullPage(cfg, st.clean, pageSize, itemCount, moreByTotal), None)
      else Stop(st, None)
  }

  function FollowCursor(cfg: Config, st: Progress, next: string): Verdict {
    if next in st.seen then Stop(st, Some(CursorRepeated))
    else Advance(cfg, st.(seen := st.seen + {next}), Some(next), None)
  }

  // ----- What one page can do, whatever the server says

  function ItemsOf(body: Body): seq<Item> {
    match body
    case Bare(items) => items
    case Object(page) => if page.items.Some? then page.items.value else []
    case _ => []
  }

  /** The response names a cursor to go on with. */
  predicate NamesCursor(body: Body) {
    body.Object? && body.page.next != ""
  }

  /** The response holds a collection, and the field it is kept in. */
  predicate HasItems(body: Body) {
    body.Bare? || (body.Object? && body.page.items.Some?)
  }

  predicate TellsTotal(body: Body) {
    body.Object? && body.page.total > 0
  }

  /** The last total told, 0 for none. */
  function Told(told: nat, body: Body): nat {
    if TellsTotal(body) then body.page.total else told
  }

  function EnvelopeOf(body: Body): string {
    if body.Object? then body.page.envelope else ""
  }

  /** The response says there is more, but not where. */
  predicate ClaimsMore(cfg: Config, body: Body) {
    body.Object? && body.page.next == "" && cfg.hasMoreField != "" && body.page.more == Some(true)
  }

  /** The response itself says there is more. */
  predicate OffersMore(cfg: Config, body: Body) {
    NamesCursor(body) || ClaimsMore(cfg, body)
  }

  /** The response says there is no more. */
  predicate SaysNoMore(cfg: Config, body: Body) {
    body.Object? && body.page.next == "" && cfg.hasMoreField != "" && body.page.more == Some(false)
  }

  /** The page is taken for the one before it over again. */
  predicate Repeats(cfg: Config, previous: Option<seq<Item>>, clean: Params, body: Body) {
    HasItems(body) && previous == Some(ItemsOf(body)) && (body.Object? ==> IsSamePage(cfg, clean, body.page))
  }

  /** The cursor the rules ask for next, with `got` elements collected and `told` the last total. */
  function Asked(cfg: Config, size: int, clean: Params, got: nat, told: nat, body: Body): Option<string> {
    var count := |ItemsOf(body)|;
    if NamesCursor(body) then Some(body.page.next)
    else if ClaimsMore(cfg, body) then
      NextClientSide(cfg, clean, if size > 0 || cfg.mode != Offset then size else if count > 0 then count else 1)
    else if SaysNoMore(cfg, body) then None
    else if body.Bare? then NextFullPage(cfg, clean, size, count, false)
    else if body.Object? && (got < told || (cfg.nextCursorPath == "" && cfg.hasMoreField == ""))
    then NextFullPage(cfg, clean, size, count, got < told)
    else None
  }

  function AskedFrom(cfg: Config, size: int, st: Progress, body: Body): Option<string>
    requires st.reportedTotal >= 0
  {
    Asked(cfg, size, st.clean, |st.allItems| + |ItemsOf(body)|, Told(st.reportedTotal, body), body)
  }

  /** The collection has moved to another field. */
  predicate Moved(st: Progress, body: Body) {
    HasItems(body) && st.envelope.Some? && st.envelope.value != EnvelopeOf(body)
  }

  /** What there is to say of an answer at the cap of pages: a repetition, a cursor met before, more to ask for, or a
      claim of more with no way to ask for it. */
  function Finding(cfg: Config, size: int, st: Progress, body: Body): Option<Reason>
    requires st.reportedTotal >= 0
  {
    if Repeats(cfg, st.previous, st.clean, body) then Some(PageRepeated)
    else if NamesCursor(body) && body.page.next in st.seen then Some(CursorRepeated)
    else if AskedFrom(cfg, size, st, body).Some? then Some(MaxPages)
    else if ClaimsMore(cfg, body) then Some(CursorMissing)
    else None
  }

  /** What follows from an answer. It fails exactly on a failed request or a collection that has moved. It goes on
      exactly when there is more to ask for and the cap is not reached: that keeps the items and sends the cursor asked
      for. It stops for exactly what was found; only a repeated page is not kept. */
  ghost predicate Follows(cfg: Config, size: int, st: Progress, body: Body, v: Verdict)
    requires st.reportedTotal >= 0
  {
    && (v.Fail? <==> body.Failed? || Moved(st, body))
    && match v
       case Fail => true
       case Continue(st') =>
         && Finding(cfg, size, st, body) == Some(MaxPages)
         && st.page < MAX_PAGES && st'.page == st.page && st'.allItems == st.allItems + ItemsOf(body)
         && (if HasItems(body) then st'.previous == Some(ItemsOf(body)) && st'.envelope == Some(EnvelopeOf(body))
             else st'.previous == st.previous && st'.envelope == st.envelope)
         && st'.clean == st.clean[cfg.cursorParam := AskedFrom(cfg, size, st, body).value]
         && st'.reportedTotal == Told(st.reportedTotal, body)
         && st'.seen == st.seen + (if NamesCursor(body) then {body.page.next} else {})
         && (cfg.mode == Cursor ==> NamesCursor(body))
       case Stop(st', reason) =>
         && reason == Finding(cfg, size, st, body) && (reason == Some(MaxPages) ==> st.page >= MAX_PAGES)
         && st'.page == st.page
         && (reason != Some(PageRepeated) ==> (st'.foundCursor <==> st.foundCursor || NamesCursor(body)))
         && st'.allItems == (if reason == Some(PageRepeated) then st.allItems else st.allItems + ItemsOf(body))
  }

  /** The loop's variables once an answer is taken in. */
  function TakenIn(st: Progress, body: Body): Progress
    requires st.reportedTotal >= 0
  {
    var st' := if HasItems(body) then Collected(st, EnvelopeOf(body), ItemsOf(body)) else st;
    st'.(reportedTotal := Told(st.reportedTotal, body), foundCursor := st.foundCursor || NamesCursor(body))
  }

  /** An answer that is no failure and no repetition is taken in, and the cursor asked for is sent next. */
  lemma DigestAsks(cfg: Config, size: int, st: Progress, body: Body)
    requires st.reportedTotal >= 0 && !Repeats(cfg, st.previous, st.clean, body) && !body.Failed?
    requires HasItems(body) && st.envelope.Some? ==> st.envelope.value == EnvelopeOf(body)
    ensures Digest(cfg, size, st, body)
         == if NamesCursor(body) then FollowCursor(cfg, TakenIn(st, body), body.page.next)
            else Advance(cfg, TakenIn(st, body), AskedFrom(cfg, size, st, body),
                         if ClaimsMore(cfg, body) then Some(CursorMissing) else None)
  {
    hide NextClientSide, NextFullPage, FollowCursor, IsSamePage;
  }

  lemma AdvanceFollows(cfg: Config, size: int, st: Progress, body: Body)
    requires st.reportedTotal >= 0 && !Repeats(cfg, st.previous, st.clean, body) && !body.Failed? && !NamesCursor(body)
    requires HasItems(body) && st.envelope.Some? ==> st.envelope.value == EnvelopeOf(body)
    ensures Follows(cfg, size, st, body,
      Advance(cfg, TakenIn(st, body), AskedFrom(cfg, size, st, body),
        if ClaimsMore(cfg, body) then Some(CursorMissing) else None))
  {
    hide Repeats, ClaimsMore, Told;
    NothingAskedOverCursors(cfg, size, st, body);
    hide AskedFrom;
  }

  lemma NothingAskedOverCursors(cfg: Config, size: int, st: Progress, body: Body)
    requires st.reportedTotal >= 0 && !NamesCursor(body)
    ensures cfg.mode == Cursor ==> AskedFrom(cfg, size, st, body) == None
  {
    hide NextClientSide, NextFullPage;
  }

  lemma FollowCursorFollows(cfg: Config, size: int, st: Progress, body: Body)
    requires st.reportedTotal >= 0 && !Repeats(cfg, st.previous, st.clean, body) && NamesCursor(body)
    requires HasItems(body) && st.envelope.Some? ==> st.envelope.value == EnvelopeOf(body)
    ensures Follows(cfg, size, st, body, FollowCursor(cfg, TakenIn(st, body), body.page.next))
  {
    hide Repeats, Told;
    assert AskedFrom(cfg, size, st, body) == Some(body.page.next);
    hide AskedFrom;
  }

  lemma DigestFollows(cfg: Config, size: int, st: Progress, body: Body)
    requires st.reportedTotal >= 0
    ensures Follows(cfg, size, st, body, Digest(cfg, size, st, body))
  {
    hide FollowObject, AskedFrom, IsSamePage, NextFullPage, FollowCursor, Advance, TakenIn;
    if !body.Failed? && !Moved(st, body) && !Repeats(cfg, st.previous, st.clean, body) {
      hide Digest, Follows;
      DigestAsks(cfg, size, st, body);
      if NamesCursor(body) {
        FollowCursorFollows(cfg, size, st, body);
      } else {
        AdvanceFollows(cfg, size, st, body);
      }
    }
  }

  // ----- A server that pages through a fixed list

  /** The index of the first element a request asks for. */
  function Position(cfg: Config, size: int, clean: Params): Option<int> {
    PositionOf(cfg, size, Get(clean, cfg.cursorParam))
  }

  function PositionOf(cfg: Config, size: int, current: string): Option<int> {
    match cfg.mode
    case Offset => Atoi(if current == "" then "0" else current)
    case PageNumber =>
      var n := Atoi(if current == "" then "1" else current);
      if n.None? then None else Some((n.value - 1) * size)
    case Cursor => None
  }

  /** The elements from `from` to `to` that exist. */
  function Span<T>(l: seq<T>, from: int, to: int): seq<T>
    requires 0 <= from <= to
  {
    l[Min(from, |l|)..Min(to, |l|)]
  }

  /** It can be told from a response that names no cursor that more remains: it says so, it says the total, or the
      configuration has no field to look at and falls back on full pages. */
  predicate Signals(cfg: Config, l: seq<Item>, page: Page) {
    || (cfg.hasMoreField != "" && page.more.Some?)
    || page.total == |l| > 0
    || (cfg.nextCursorPath == "" && cfg.hasMoreField == "")
  }

  /** A truthful answer holding elements `from` to `to` of `l`. While more remains it may name the position of the next
      element, and if it does not, it can be told that more remains. */
  ghost predicate Truthful(cfg: Config, size: int, l: seq<Item>, envelope: string, from: int, to: int, body: Body) {
    && 0 <= from <= to && (body.Bare? || body.Object?)
    && (body.Bare? ==> envelope == "" && body.items == Span(l, from, to))
    && (body.Object? ==>
          var page := body.page;
          && page.items == Some(Span(l, from, to)) && page.envelope == envelope
          && (page.more.Some? ==> page.more.value == (to < |l|))
          && (page.total > 0 ==> page.total == |l|)
          && (page.next != "" ==> to < |l| && PositionOf(cfg, size, page.next) == Some(to))
          && (page.next == "" && to < |l| ==> Signals(cfg, l, page)))
  }

  /** The server's answers to the run's requests honour the page size; without one it may cut pages as it likes, so
      long as it moves on. */
  ghost predicate Honest(
      cfg: Config, params: Params, size: int, l: seq<Item>, envelope: string, server: (nat, Params) -> Body)
  {
    forall i, clean | IsRequest(cfg, params, clean) ::
      var at := Position(cfg, size, clean);
      at.Some? && at.value >= 0 ==>
        if size > 0 then Truthful(cfg, size, l, envelope, at.value, at.value + size, server(i, clean))
        else exists to :: at.value < to && Truthful(cfg, size, l, envelope, at.value, to, server(i, clean))
  }

  ghost predicate Distinct(l: seq<Item>) {
    forall i, j :: 0 <= i < j < |l| ==> l[i] != l[j]
  }

  /** Paging by number or offset over `l` from `start`, far enough below Go's largest int. */
  ghost predicate Pageable(cfg: Config, size: int, l: seq<Item>, start: int) {
    && cfg.cursorParam != "" && (cfg.mode == Offset || (cfg.mode == PageNumber && size > 0))
    && Distinct(l) && 0 <= start && 0 <= size && IsInt(start + 100 * size + |l| + 100)
  }

  /** After `pages` pages the items are those from `start` up to where the next request points. */
  ghost predicate Tiled(
      cfg: Config, size: int, l: seq<Item>, envelope: string, start: int, at: int, pages: nat, st: Progress)
  {
    && Position(cfg, size, st.clean) == Some(at)
    && 0 <= start <= at && (if size > 0 then at == start + pages * size else at <= start + |l|)
    && st.allItems == Span(l, start, at)
    && st.envelope in {None, Some(envelope)}
    && st.reportedTotal in {0, |l|}
    && (st.previous.Some? ==> LooksBack(l, at, st.previous.value))
    && SeenUpTo(cfg, size, at, st.seen)
  }

  /** No cursor seen points further than `at`. */
  ghost predicate SeenUpTo(cfg: Config, size: int, at: int, seen: set<string>) {
    forall t :: t in seen ==> PositionOf(cfg, size, t).Some? && PositionOf(cfg, size, t).value <= at
  }

  ghost predicate LooksBack(l: seq<Item>, at: int, previous: seq<Item>) {
    previous != [] && exists j :: 0 <= j < at && j < |l| && previous[0] == l[j]
  }

  lemma NextOffset(cfg: Config, size: int, clean: Params, at: int, step: int)
    requires cfg.cursorParam != "" && cfg.mode == Offset && Position(cfg, size, clean) == Some(at)
    requires step > 0 && IsInt(at + step)
    ensures NextClientSide(cfg, clean, step) == Some(Itoa(at + step))
    ensures Position(cfg, size, clean[cfg.cursorParam := Itoa(at + step)]) == Some(at + step)
  {
    AtoiOfItoa(at + step);
  }

  lemma NextPageNumber(cfg: Config, size: int, clean: Params, at: int, n: int)
    requires cfg.cursorParam != "" && cfg.mode == PageNumber && size > 0
    requires Atoi(if Get(clean, cfg.cursorParam) == "" then "1" else Get(clean, cfg.cursorParam)) == Some(n)
    requires (n - 1) * size == at && at >= 0 && IsInt(at + 2)
    ensures NextClientSide(cfg, clean, size) == Some(Itoa(n + 1))
    ensures Position(cfg, size, clean[cfg.cursorParam := Itoa(n + 1)]) == Some(at + size)
  {
    PageBounds(n - 1, size, at);
    AtoiOfItoa(n + 1);
    assert n * size == (n - 1) * size + size;
  }

  /** The client-side cursor moves the position on by the page, or by `step` elements. */
  lemma NextPosition(cfg: Config, size: int, clean: Params, at: int, step: int)
    requires cfg.cursorParam != "" && Position(cfg, size, clean) == Some(at) && 0 <= at
    requires cfg.mode == Offset || (cfg.mode == PageNumber && step == size)
    requires step > 0 && IsInt(at + step + 2)
    ensures NextClientSide(cfg, clean, step).Some?
    ensures Position(cfg, size, clean[cfg.cursorParam := NextClientSide(cfg, clean, step).value]) == Some(at + step)
  {
    if cfg.mode == Offset {
      NextOffset(cfg, size, clean, at, step);
    } else {
      var current := Get(clean, cfg.cursorParam);
      var n := Atoi(if current == "" then "1" else current).value;
      NextPageNumber(cfg, size, clean, at, n);
    }
  }

  lemma PageBounds(pages: int, size: int, at: int)
    requires pages * size == at && at >= 0 && size > 0
    ensures 0 <= pages <= at
  {
    assert pages < 0 ==> pages * size < 0;
    assert pages >= 0 ==> pages * size >= pages;
  }

  lemma NotTheSamePage(l: seq<Item>, at: int, to: int, previous: seq<Item>)
    requires Distinct(l) && 0 <= at <= to && LooksBack(l, at, previous)
    ensures previous != Span(l, at, to)
  {
  }

  lemma SpanGrows<T>(l: seq<T>, from: int, mid: int, to: int)
    requires 0 <= from <= mid <= to
    ensures Span(l, from, mid) + Span(l, mid, to) == Span(l, from, to)
    ensures |Span(l, mid, to)| < to - mid ==> to > |l|
    ensures |Span(l, mid, to)| == 0 && mid < to ==> mid >= |l|
    ensures mid < to && mid < |l| ==> |Span(l, mid, to)| > 0 && Span(l, mid, to)[0] == l[mid]
  {
  }

  /** The page's own bounds: by the page size, or wherever the server cut. */
  ghost predicate PageSpan(size: int, at: int, to: int) {
    if size > 0 then to == at + size else at < to
  }

  /** The rules ask for another page after one that ends the list: it is judged by its length alone and is full, or
      the total includes elements before the first request's. */
  predicate GoesPast(cfg: Config, size: int, start: int, told: bool, body: Body) {
    var count := |ItemsOf(body)|;
    var full := size <= 0 || count >= size;
    && count > 0
    && if body.Object? then
         && !(cfg.hasMoreField != "" && body.page.more.Some?)
         && ((told && start > 0) || (full && cfg.nextCursorPath == "" && cfg.hasMoreField == ""))
       else full
  }

  /** Whether another page is asked for. */
  predicate AsksOn(cfg: Config, size: int, l: seq<Item>, start: int, to: int, told: bool, body: Body) {
    to < |l| || GoesPast(cfg, size, start, told, body)
  }

  /** What a truthful page leads to: if another is asked for, on to the next tile or to a stop at the page cap;
      otherwise to the end of the list. */
  ghost predicate GoodVerdict(
      cfg: Config, size: int, l: seq<Item>, envelope: string, start: int, to: int, pages: nat, on: bool, v: Verdict)
    requires 0 <= start <= to
  {
    match v
    case Fail => false
    case Continue(st) =>
      && on && st.page == pages < MAX_PAGES
      && exists at :: Tiled(cfg, size, l, envelope, start, at, pages, st)
    case Stop(st, reason) =>
      && st.page == pages && st.allItems == Span(l, start, to)
      && (if on then reason == Some(MaxPages) && pages >= MAX_PAGES else reason == None && to >= |l|)
  }

  /** The items of the page at `at` are in. */
  ghost predicate PageIn(
      cfg: Config, size: int, l: seq<Item>, envelope: string, start: int, at: int, to: int, pages: nat, st: Progress)
  {
    && PageSpan(size, at, to) && st.page == pages + 1
    && 0 <= start <= at && (if size > 0 then at == start + pages * size else at <= start + |l|)
    && st.allItems == Span(l, start, to) && st.envelope == Some(envelope) && st.reportedTotal in {0, |l|}
    && st.previous == Some(Span(l, at, to)) && SeenUpTo(cfg, size, at, st.seen)
  }

  lemma AdvanceTiles(
      cfg: Config, size: int, l: seq<Item>, envelope: string, start: int, at: int, to: int, pages: nat,
      st: Progress, step: int, otherwise: Option<Reason>)
    requires Pageable(cfg, size, l, start) && PageIn(cfg, size, l, envelope, start, at, to, pages, st) && pages <= 99
    requires Position(cfg, size, st.clean) == Some(at) && at < |l|
    requires step == if size > 0 then size else |Span(l, at, to)|
    ensures GoodVerdict(cfg, size, l, envelope, start, to, pages + 1, true,
      Advance(cfg, st, NextClientSide(cfg, st.clean, step), otherwise))
  {
    SpanGrows(l, start, at, to);
    PagesFit(pages, size);
    NextPosition(cfg, size, st.clean, at, step);
    var next := NextClientSide(cfg, st.clean, step);
    if st.page < MAX_PAGES {
      TileGrows(size, l, start, at, to, pages, step);
      var st' := st.(clean := st.clean[cfg.cursorParam := next.value]);
      assert Tiled(cfg, size, l, envelope, start, at + step, pages + 1, st');
      assert Advance(cfg, st, next, otherwise) == Continue(st');
    }
  }

  lemma PagesFit(pages: nat, size: nat)
    requires pages <= 99
    ensures pages * size <= 99 * size
    ensures (pages + 1) * size == pages * size + size
  {
  }

  lemma TileGrows(size: int, l: seq<Item>, start: int, at: int, to: int, pages: nat, step: int)
    requires PageSpan(size, at, to) && 0 <= start <= at < |l| && 0 <= size
    requires step == if size > 0 then size else |Span(l, at, to)|
    ensures step > 0 && Span(l, start, at + step) == Span(l, start, to)
    ensures LooksBack(l, at + step, Span(l, at, to))
    ensures size == 0 ==> at + step <= |l|
  {
    assert Span(l, at, to)[0] == l[at];
  }

  lemma NextFullPageTiles(
      cfg: Config, size: int, l: seq<Item>, envelope: string, start: int, at: int, to: int, pages: nat,
      st: Progress, moreRemain: bool)
    requires Pageable(cfg, size, l, start) && PageIn(cfg, size, l, envelope, start, at, to, pages, st) && pages <= 99
    requires Position(cfg, size, st.clean) == Some(at)
    ensures GoodVerdict(cfg, size, l, envelope, start, to, pages + 1,
      |Span(l, at, to)| > 0 && (size <= 0 || |Span(l, at, to)| >= size || moreRemain),
      Advance(cfg, st, NextFullPage(cfg, st.clean, size, |Span(l, at, to)|, moreRemain), None))
  {
    SpanGrows(l, start, at, to);
    var count := |Span(l, at, to)|;
    if count > 0 && !(size > 0 && count < size && !moreRemain) {
      AdvanceTiles(cfg, size, l, envelope, start, at, to, pages, st, if size > 0 then size else count, None);
    }
  }

  /** A cursor that reads back as the next position moves the run there. */
  lemma NamedTiles(
      cfg: Config, size: int, l: seq<Item>, envelope: string, start: int, at: int, to: int, pages: nat,
      st: Progress, next: string)
    requires Pageable(cfg, size, l, start) && PageIn(cfg, size, l, envelope, start, at, to, pages, st) && pages <= 99
    requires next != "" && to < |l| && PositionOf(cfg, size, next) == Some(to)
    ensures GoodVerdict(cfg, size, l, envelope, start, to, pages + 1, true, FollowCursor(cfg, st, next))
  {
    hide PositionOf;
    SpanGrows(l, start, at, to);
    PagesFit(pages, size);
    assert next !in st.seen;
    if st.page < MAX_PAGES {
      var st' := st.(seen := st.seen + {next}, clean := st.clean[cfg.cursorParam := next]);
      assert Span(l, at, to)[0] == l[at];
      assert Tiled(cfg, size, l, envelope, start, to, pages + 1, st');
      assert FollowCursor(cfg, st, next) == Continue(st');
    }
  }

  lemma FollowObjectTiles(
      cfg: Config, size: int, l: seq<Item>, envelope: string, start: int, at: int, to: int, pages: nat,
      st0: Progress, page: Page)
    requires Pageable(cfg, size, l, start) && PageIn(cfg, size, l, envelope, start, at, to, pages, st0) && pages <= 99
    requires Position(cfg, size, st0.clean) == Some(at) && st0.reportedTotal >= 0
    requires Truthful(cfg, size, l, envelope, at, to, Object(page))
    ensures GoodVerdict(cfg, size, l, envelope, start, to, pages + 1,
      AsksOn(cfg, size, l, start, to, Told(st0.reportedTotal, Object(page)) > 0, Object(page)),
      FollowObject(cfg, size, st0, page, |Span(l, at, to)|))
  {
    hide NextClientSide, PositionOf, GoodVerdict, Advance, FollowCursor, NextFullPage, PageIn, SeenUpTo, Distinct;
    var st := if page.total > 0 then st0.(reportedTotal := page.total) else st0;
    var count := |Span(l, at, to)|;
    TakesTotal(cfg, size, l, envelope, start, at, to, pages, st0, page);
    SpanGrows(l, start, at, to);
    if page.next != "" {
      NamedTiles(cfg, size, l, envelope, start, at, to, pages, st.(foundCursor := true), page.next);
    } else if cfg.hasMoreField != "" && page.more == Some(true) {
      AdvanceTiles(cfg, size, l, envelope, start, at, to, pages, st,
        if size > 0 then size else count, Some(CursorMissing));
    } else if cfg.hasMoreField != "" && page.more == Some(false) {
      ListEnds(cfg, size, l, envelope, start, at, to, pages, st);
    } else {
      CountedTiles(cfg, size, l, envelope, start, at, to, pages, st0, page);
    }
  }

  lemma TakesTotal(
      cfg: Config, size: int, l: seq<Item>, envelope: string, start: int, at: int, to: int, pages: nat,
      st0: Progress, page: Page)
    requires PageIn(cfg, size, l, envelope, start, at, to, pages, st0)
    requires Truthful(cfg, size, l, envelope, at, to, Object(page))
    ensures
      var st := if page.total > 0 then st0.(reportedTotal := page.total) else st0;
      PageIn(cfg, size, l, envelope, start, at, to, pages, st)
        && PageIn(cfg, size, l, envelope, start, at, to, pages, st.(foundCursor := true))
        && st.reportedTotal in {0, |l|} && 0 <= start <= at <= to && PageSpan(size, at, to)
        && |st.allItems| == |Span(l, start, to)|
  {
    hide Signals, PositionOf;
  }

  /** An answer that says nothing of more is judged by the total or by its length. */
  lemma CountedTiles(
      cfg: Config, size: int, l: seq<Item>, envelope: string, start: int, at: int, to: int, pages: nat,
      st0: Progress, page: Page)
    requires Pageable(cfg, size, l, start) && PageIn(cfg, size, l, envelope, start, at, to, pages, st0) && pages <= 99
    requires Position(cfg, size, st0.clean) == Some(at) && st0.reportedTotal >= 0 && 0 <= start <= at <= to
    requires Truthful(cfg, size, l, envelope, at, to, Object(page))
    requires page.next == "" && (cfg.hasMoreField == "" || page.more == None)
    ensures GoodVerdict(cfg, size, l, envelope, start, to, pages + 1,
      AsksOn(cfg, size, l, start, to, Told(st0.reportedTotal, Object(page)) > 0, Object(page)),
      FollowObject(cfg, size, st0, page, |Span(l, at, to)|))
  {
    hide NextClientSide, PositionOf, GoodVerdict, Advance, FollowCursor, NextFullPage, PageIn, SeenUpTo, Distinct;
    SpanGrows(l, start, at, to);
    var st := if page.total > 0 then st0.(reportedTotal := page.total) else st0;
    TakesTotal(cfg, size, l, envelope, start, at, to, pages, st0, page);
    var moreByTotal := st.reportedTotal > 0 && |st.allItems| < st.reportedTotal;
    NextFullPageTiles(cfg, size, l, envelope, start, at, to, pages, st, moreByTotal);
    if to >= |l| {
      ListEnds(cfg, size, l, envelope, start, at, to, pages, st);
    }
  }

  lemma ListEnds(
      cfg: Config, size: int, l: seq<Item>, envelope: string, start: int, at: int, to: int, pages: nat, st: Progress)
    requires PageIn(cfg, size, l, envelope, start, at, to, pages, st) && 0 <= start <= to && to >= |l|
    ensures GoodVerdict(cfg, size, l, envelope, start, to, pages + 1, false, Stop(st, None))
  {
  }

  /** A truthful page extends the tiling by exactly its own items. */
  lemma DigestTiles(
      cfg: Config, size: int, l: seq<Item>, envelope: string, start: int, at: int, to: int, pages: nat,
      st: Progress, body: Body)
    requires Pageable(cfg, size, l, start) && Tiled(cfg, size, l, envelope, start, at, pages, st)
    requires pages <= 99 && st.page == pages + 1 && PageSpan(size, at, to)
    requires Truthful(cfg, size, l, envelope, at, to, body)
    ensures GoodVerdict(cfg, size, l, envelope, start, to, pages + 1,
      AsksOn(cfg, size, l, start, to, Told(st.reportedTotal, body) > 0, body),
      Digest(cfg, size, st, body))
  {
    SpanGrows(l, start, at, to);
    if st.previous.Some? {
      NotTheSamePage(l, at, to, st.previous.value);
    }
    var st' := Collected(st, envelope, Span(l, at, to));
    match body {
      case Bare(items) => NextFullPageTiles(cfg, size, l, envelope, start, at, to, pages, st', false);
      case Object(page) => FollowObjectTiles(cfg, size, l, envelope, start, at, to, pages, st', page);
    }
  }

  // ----- The loop

  ghost predicate FreshCursors(cfg: Config, sent: seq<Params>) {
    forall i, j :: 0 <= i < j < |sent| ==> Get(sent[i], cfg.cursorParam) != Get(sent[j], cfg.cursorParam)
  }

  function AllItems(bodies: seq<Body>): seq<Item> {
    if bodies == [] then [] else AllItems(bodies[..|bodies| - 1]) + ItemsOf(bodies[|bodies| - 1])
  }

  /** The last total told, 0 for none. */
  function LastTotal(bodies: seq<Body>): nat {
    if bodies == [] then 0 else Told(LastTotal(bodies[..|bodies| - 1]), bodies[|bodies| - 1])
  }

  /** The last page that held a collection. */
  function PreviousItems(bodies: seq<Body>): Option<seq<Item>> {
    if bodies == [] then None
    else
      var last := bodies[|bodies| - 1];
      if HasItems(last) then Some(ItemsOf(last)) else PreviousItems(bodies[..|bodies| - 1])
  }

  /** The cursor the rules ask for after these answers, the last of them to the request `clean`. */
  function AskedAfter(cfg: Config, size: int, clean: Params, bodies: seq<Body>): Option<string>
    requires bodies != []
  {
    Asked(cfg, size, clean, |AllItems(bodies)|, LastTotal(bodies), bodies[|bodies| - 1])
  }

  /** The last answer is taken for the page before it over again. */
  predicate RepeatsLast(cfg: Config, clean: Params, bodies: seq<Body>)
    requires bodies != []
  {
    Repeats(cfg, PreviousItems(bodies[..|bodies| - 1]), clean, bodies[|bodies| - 1])
  }

  /** After these answers the run goes on to `next`. */
  predicate GoesOn(cfg: Config, size: int, clean: Params, bodies: seq<Body>, next: Params)
    requires bodies != []
  {
    && !RepeatsLast(cfg, clean, bodies) && AskedAfter(cfg, size, clean, bodies).Some?
    && next == clean[cfg.cursorParam := AskedAfter(cfg, size, clean, bodies).value]
  }

  /** Each request but the first carries the cursor the rules asked for. */
  ghost predicate AskedFor(cfg: Config, size: int, sent: seq<Params>, bodies: seq<Body>) {
    forall i, j :: 0 <= i < |bodies| && j == i + 1 < |sent| ==> GoesOn(cfg, size, sent[i], bodies[..j], sent[j])
  }

  /** The next request is the last one with the cursor named by its answer. */
  predicate NamesNext(cfg: Config, request: Params, body: Body, next: Params) {
    NamesCursor(body) && next == request[cfg.cursorParam := body.page.next]
  }

  /** Each request but the first carries the cursor the answer before it named. */
  ghost predicate FollowsCursors(cfg: Config, sent: seq<Params>, bodies: seq<Body>) {
    forall i, j :: 0 <= i < |bodies| && j == i + 1 < |sent| ==> NamesNext(cfg, sent[i], bodies[i], sent[j])
  }

  /** A cursor the run has met: the one it began with, or one named by an answer. */
  ghost predicate Met(cfg: Config, first: Params, bodies: seq<Body>, cursor: string) {
    && cursor != ""
    && (|| cursor == Get(first, cfg.cursorParam)
        || exists i :: 0 <= i < |bodies| && NamesCursor(bodies[i]) && bodies[i].page.next == cursor)
  }

  /** The last answer names a cursor met before. */
  ghost predicate CursorMetBefore(cfg: Config, first: Params, bodies: seq<Body>)
    requires bodies != []
  {
    var last := bodies[|bodies| - 1];
    NamesCursor(last) && Met(cfg, first, bodies[..|bodies| - 1], last.page.next)
  }

  /** Each answer the run went on from was a success, its collection in the same field as before, and named no cursor
      met before. */
  ghost predicate GoodSoFar(cfg: Config, first: Params, bodies: seq<Body>, n: nat)
    requires n <= |bodies|
  {
    forall j :: 0 < j <= n ==> !FailsFor(bodies[..j]) && !CursorMetBefore(cfg, first, bodies[..j])
  }

  /** The requests made and the answers to them: at most a hundred, each answered by the server and each with the cursor
      the rules asked for; in cursor mode that is the one named, and none is sent twice. No answer but the last is a
      failure or names a cursor met before. */
  ghost predicate Logged(
      cfg: Config, params: Params, server: (nat, Params) -> Body, sent: seq<Params>, bodies: seq<Body>)
  {
    && 1 <= |sent| == |bodies| <= MAX_PAGES
    && sent[0] == FirstParams(cfg, params)
    && (forall i :: 0 <= i < |sent| ==> IsRequest(cfg, params, sent[i]) && bodies[i] == server(i, sent[i]))
    && AskedFor(cfg, PageSize(cfg, CleanParams(cfg, params)), sent, bodies)
    && GoodSoFar(cfg, sent[0], bodies, |bodies| - 1)
    && (cfg.mode == Cursor ==> FreshCursors(cfg, sent) && FollowsCursors(cfg, sent, bodies))
  }

  /** What the loop knows of its cursors. */
  ghost predicate CursorsTraced(cfg: Config, sent: seq<Params>, bodies: seq<Body>, st: Progress) {
    && |sent| == |bodies| && (forall t :: t in st.seen <==> Met(cfg, (sent + [st.clean])[0], bodies, t))
    && (cfg.mode == Cursor ==>
          && FreshCursors(cfg, sent + [st.clean]) && FollowsCursors(cfg, sent + [st.clean], bodies)
          && Get(st.clean, cfg.cursorParam) in st.seen + {""}
          && forall i :: 0 <= i < |sent| ==> Get(sent[i], cfg.cursorParam) in st.seen + {""})
  }

  /** What the loop remembers of the answers. */
  ghost predicate PagesTraced(bodies: seq<Body>, st: Progress) {
    && st.allItems == AllItems(bodies)
    && st.reportedTotal == LastTotal(bodies)
    && st.previous == PreviousItems(bodies)
    && (bodies == [] ==> !st.foundCursor && st.envelope == None)
    && (st.envelope.Some? ==>
          exists i :: 0 <= i < |bodies| && HasItems(bodies[i]) && EnvelopeOf(bodies[i]) == st.envelope.value)
    && (forall i :: 0 <= i < |bodies| && HasItems(bodies[i]) ==> st.envelope == Some(EnvelopeOf(bodies[i])))
  }

  /** What the loop knows after the requests `sent`, about any server. */
  ghost predicate Traced(
      cfg: Config, params: Params, server: (nat, Params) -> Body, sent: seq<Params>, bodies: seq<Body>, st: Progress)
  {
    && |sent| == |bodies| == st.page
    && (if sent == [] then st.clean else sent[0]) == FirstParams(cfg, params) && IsRequest(cfg, params, st.clean)
    && (forall i :: 0 <= i < |sent| ==> IsRequest(cfg, params, sent[i]) && bodies[i] == server(i, sent[i]))
    && AskedFor(cfg, PageSize(cfg, CleanParams(cfg, params)), sent + [st.clean], bodies)
    && CursorsTraced(cfg, sent, bodies, st) && PagesTraced(bodies, st)
    && GoodSoFar(cfg, FirstParams(cfg, params), bodies, |bodies|)
  }

  lemma GoodSoFarSnoc(cfg: Config, first: Params, bodies: seq<Body>, body: Body)
    requires GoodSoFar(cfg, first, bodies, |bodies|)
    ensures GoodSoFar(cfg, first, bodies + [body], |bodies|)
    ensures !FailsFor(bodies + [body]) && !CursorMetBefore(cfg, first, bodies + [body]) ==>
      GoodSoFar(cfg, first, bodies + [body], |bodies| + 1)
  {
    hide FailsFor, CursorMetBefore;
    var all := bodies + [body];
    assert all[..|all|] == all;
    forall j | 0 < j <= |bodies|
      ensures all[..j] == bodies[..j]
    {
    }
  }

  lemma IsLogged(
      cfg: Config, params: Params, server: (nat, Params) -> Body, sent: seq<Params>, bodies: seq<Body>, st: Progress,
      body: Body)
    requires Traced(cfg, params, server, sent, bodies, st) && st.page < MAX_PAGES && body == server(st.page, st.clean)
    ensures Logged(cfg, params, server, sent + [st.clean], bodies + [body])
  {
    hide FirstParams, PageSize, CleanParams, GoesOn, PagesTraced, GoodSoFar, Met;
    GoodSoFarSnoc(cfg, FirstParams(cfg, params), bodies, body);
    var size, all, answers := PageSize(cfg, CleanParams(cfg, params)), sent + [st.clean], bodies + [body];
    forall i, j | 0 <= i < |answers| && j == i + 1 < |all|
      ensures GoesOn(cfg, size, all[i], answers[..j], all[j])
    {
      assert answers[..j] == bodies[..j];
    }
  }

  /** One more request, the one the rules asked for. */
  lemma AskedForSnoc(
      cfg: Config, size: int, sent: seq<Params>, bodies: seq<Body>, st: Progress, body: Body, st': Progress)
    requires |sent| == |bodies| && AskedFor(cfg, size, sent + [st.clean], bodies) && PagesTraced(bodies, st)
    requires Follows(cfg, size, st, body, Continue(st'))
    ensures AskedFor(cfg, size, sent + [st.clean] + [st'.clean], bodies + [body])
  {
    hide GoesOn;
    var all, answers := sent + [st.clean] + [st'.clean], bodies + [body];
    GoesOnFrom(cfg, size, bodies, st, body, st');
    forall i, j | 0 <= i < |answers| && j == i + 1 < |all|
      ensures GoesOn(cfg, size, all[i], answers[..j], all[j])
    {
      if i < |bodies| {
        assert answers[..j] == bodies[..j] && all[i] == (sent + [st.clean])[i] && all[j] == (sent + [st.clean])[j];
      } else {
        assert answers[..j] == answers;
      }
    }
  }

  lemma GoesOnFrom(cfg: Config, size: int, bodies: seq<Body>, st: Progress, body: Body, st': Progress)
    requires PagesTraced(bodies, st) && Follows(cfg, size, st, body, Continue(st'))
    ensures GoesOn(cfg, size, st.clean, bodies + [body], st'.clean)
  {
    hide Asked, Repeats;
    assert (bodies + [body])[..|bodies|] == bodies;
  }

  lemma CursorsStep(
      cfg: Config, size: int, sent: seq<Params>, bodies: seq<Body>, st: Progress, body: Body, st': Progress)
    requires |sent| == |bodies| && CursorsTraced(cfg, sent, bodies, st)
    requires st.reportedTotal >= 0 && Follows(cfg, size, st, body, Continue(st'))
    ensures CursorsTraced(cfg, sent + [st.clean], bodies + [body], st')
  {
    var all := sent + [st.clean];
    forall t
      ensures t in st'.seen <==> Met(cfg, (all + [st'.clean])[0], bodies + [body], t)
    {
      MetSnoc(cfg, all[0], bodies, body, t);
    }
    hide Met;
    if cfg.mode == Cursor {
      FreshCursorsSnoc(cfg, all, st.seen, st'.clean);
      FollowsCursorsSnoc(cfg, all, bodies, body, st'.clean);
    }
  }

  lemma MetSnoc(cfg: Config, first: Params, bodies: seq<Body>, body: Body, t: string)
    ensures Met(cfg, first, bodies + [body], t) <==>
      Met(cfg, first, bodies, t) || (NamesCursor(body) && body.page.next == t)
  {
    var all := bodies + [body];
    if Met(cfg, first, bodies, t) && t != Get(first, cfg.cursorParam) {
      var i :| 0 <= i < |bodies| && NamesCursor(bodies[i]) && bodies[i].page.next == t;
      assert all[i] == bodies[i];
    }
    assert all[|bodies|] == body;
  }

  lemma FollowsCursorsSnoc(cfg: Config, sent: seq<Params>, bodies: seq<Body>, body: Body, clean: Params)
    requires |sent| == |bodies| + 1 && FollowsCursors(cfg, sent, bodies)
    requires NamesCursor(body) && clean == sent[|sent| - 1][cfg.cursorParam := body.page.next]
    ensures FollowsCursors(cfg, sent + [clean], bodies + [body])
  {
    var all, answers := sent + [clean], bodies + [body];
    forall i, j | 0 <= i < |answers| && j == i + 1 < |all|
      ensures NamesNext(cfg, all[i], answers[i], all[j])
    {
      if i < |bodies| {
        assert NamesNext(cfg, sent[i], bodies[i], sent[j]);
      }
    }
  }

  lemma FreshCursorsSnoc(cfg: Config, sent: seq<Params>, seen: set<string>, clean: Params)
    requires FreshCursors(cfg, sent)
    requires forall i :: 0 <= i < |sent| ==> Get(sent[i], cfg.cursorParam) in seen + {""}
    requires Get(clean, cfg.cursorParam) !in seen + {""}
    ensures FreshCursors(cfg, sent + [clean])
  {
  }

  lemma PagesStep(cfg: Config, size: int, bodies: seq<Body>, st: Progress, body: Body, st': Progress)
    requires PagesTraced(bodies, st) && Follows(cfg, size, st, body, Continue(st'))
    ensures PagesTraced(bodies + [body], st')
  {
    var all := bodies + [body];
    assert all[..|all| - 1] == bodies && all[|bodies|] == body;
    if !HasItems(body) && st.envelope.Some? {
      var i :| 0 <= i < |bodies| && HasItems(bodies[i]) && EnvelopeOf(bodies[i]) == st.envelope.value;
      assert all[i] == bodies[i];
    }
  }

  lemma TracedStep(
      cfg: Config, params: Params, server: (nat, Params) -> Body, size: int, sent: seq<Params>, bodies: seq<Body>,
      st: Progress, body: Body, st': Progress)
    requires Traced(cfg, params, server, sent, bodies, st) && body == server(st.page, st.clean)
    requires size == PageSize(cfg, CleanParams(cfg, params)) && st.reportedTotal >= 0
    requires Follows(cfg, size, st.(page := st.page + 1), body, Continue(st'))
    ensures Traced(cfg, params, server, sent + [st.clean], bodies + [body], st')
  {
    hide CursorsTraced, PagesTraced, FirstParams, PageSize, CleanParams, Asked, AskedFor, GoodSoFar, Finding,
      Follows, IsRequest;
    NextIsRequest(cfg, params, size, st.(page := st.page + 1), body, st');
    SameTrace(cfg, sent, bodies, st);
    ContinuePages(cfg, size, st.(page := st.page + 1), body, st');
    CursorsStep(cfg, size, sent, bodies, st.(page := st.page + 1), body, st');
    PagesStep(cfg, size, bodies, st.(page := st.page + 1), body, st');
    AskedForSnoc(cfg, size, sent, bodies, st.(page := st.page + 1), body, st');
    GoesOnWell(cfg, size, sent, bodies, st.(page := st.page + 1), body, st');
    var all := sent + [st.clean];
    assert all[0] == if sent == [] then st.clean else sent[0];
  }

  lemma NextIsRequest(cfg: Config, params: Params, size: int, st: Progress, body: Body, st': Progress)
    requires IsRequest(cfg, params, st.clean) && st.reportedTotal >= 0 && Follows(cfg, size, st, body, Continue(st'))
    ensures IsRequest(cfg, params, st'.clean)
  {
    hide FirstParams, AskedFrom, Finding;
  }

  /** An answer the run goes on from is a success and names no cursor met before. */
  lemma GoesOnWell(
      cfg: Config, size: int, sent: seq<Params>, bodies: seq<Body>, st: Progress, body: Body, st': Progress)
    requires CursorsTraced(cfg, sent, bodies, st) && PagesTraced(bodies, st)
    requires Follows(cfg, size, st, body, Continue(st')) && GoodSoFar(cfg, (sent + [st.clean])[0], bodies, |bodies|)
    ensures GoodSoFar(cfg, (sent + [st.clean])[0], bodies + [body], |bodies| + 1)
  {
    hide GoodSoFar, PagesTraced, CursorsTraced, FailsFor, CursorMetBefore, AskedFrom, Repeats, FindingAfter;
    RemembersField(bodies, st, body);
    TracedFinding(cfg, size, sent, bodies, st, body);
    GoodSoFarSnoc(cfg, (sent + [st.clean])[0], bodies, body);
  }

  lemma SameTrace(cfg: Config, sent: seq<Params>, bodies: seq<Body>, st: Progress)
    requires CursorsTraced(cfg, sent, bodies, st) && PagesTraced(bodies, st)
    ensures CursorsTraced(cfg, sent, bodies, st.(page := st.page + 1)) && PagesTraced(bodies, st.(page := st.page + 1))
    ensures st.reportedTotal >= 0
  {
  }

  /** The only page of a configuration that declares no way to page, and named no cursor. */
  predicate Unsignalled(cfg: Config, bodies: seq<Body>)
    requires bodies != []
  {
    |bodies| == 1 && !NamesCursor(bodies[0]) && cfg.mode == Cursor && cfg.nextCursorPath == "" && cfg.hasMoreField == ""
  }

  /** Nothing more is asked for or claimed, and nothing repeated. */
  predicate IsQuiet(cfg: Config, size: int, clean: Params, bodies: seq<Body>)
    requires bodies != []
  {
    && AskedAfter(cfg, size, clean, bodies) == None && !ClaimsMore(cfg, bodies[|bodies| - 1])
    && !RepeatsLast(cfg, clean, bodies)
  }

  /** What there is to say after these answers, judged by the requests and answers alone. */
  ghost function FindingAfter(cfg: Config, size: int, sent: seq<Params>, bodies: seq<Body>): Option<Reason>
    requires |sent| == |bodies| > 0
  {
    var n := |bodies|;
    if RepeatsLast(cfg, sent[n - 1], bodies) then Some(PageRepeated)
    else if CursorMetBefore(cfg, sent[0], bodies) then Some(CursorRepeated)
    else if AskedAfter(cfg, size, sent[n - 1], bodies).Some? then Some(MaxPages)
    else if ClaimsMore(cfg, bodies[n - 1]) then Some(CursorMissing)
    else None
  }

  /** The marks a run ends with. */
  ghost function Marks(cfg: Config, size: int, sent: seq<Params>, bodies: seq<Body>): set<Reason>
    requires |sent| == |bodies| > 0
  {
    var found := FindingAfter(cfg, size, sent, bodies);
    (if found.Some? then {found.value} else {}) + if Unsignalled(cfg, bodies) then {SignalMissing} else {}
  }

  /** The only ways a run fails: a failed request, or a collection kept in another field than before. */
  ghost predicate FailsFor(bodies: seq<Body>)
    requires bodies != []
  {
    var last := bodies[|bodies| - 1];
    || last.Failed?
    || (HasItems(last) &&
        exists i :: 0 <= i < |bodies| && HasItems(bodies[i]) && EnvelopeOf(bodies[i]) != EnvelopeOf(last))
  }

  lemma TracedEnd(
      cfg: Config, params: Params, server: (nat, Params) -> Body, size: int, sent: seq<Params>, bodies: seq<Body>,
      st: Progress, body: Body, v: Verdict)
    requires Traced(cfg, params, server, sent, bodies, st) && st.page < MAX_PAGES && st.reportedTotal >= 0
    requires Follows(cfg, size, st.(page := st.page + 1), body, v)
    ensures v.Fail? <==> FailsFor(bodies + [body])
    ensures |sent| == |bodies| == st.page
    ensures v.Stop? ==>
      && v.st.page == st.page + 1
      && v.st.allItems == (if v.reason == Some(PageRepeated) then AllItems(bodies) else AllItems(bodies + [body]))
      && (bodies == [] ==> v.reason != Some(PageRepeated) && (v.st.foundCursor <==> NamesCursor(body)))
      && v.reason == FindingAfter(cfg, size, sent + [st.clean], bodies + [body])
      && (v.reason == Some(MaxPages) ==> v.st.page == MAX_PAGES)
  {
    hide FirstParams, CursorsTraced, Finding, FindingAfter, Get, IsRequest, IsSamePage, AskedFor, AskedFrom, AskedAfter,
      Repeats, RepeatsLast, LastTotal, PreviousItems, FailsFor, Moved, GoodSoFar, CursorMetBefore;
    SameTrace(cfg, sent, bodies, st);
    var st1 := st.(page := st.page + 1);
    RemembersAnswers(cfg, size, bodies, st1, body);
    RemembersField(bodies, st1, body);
    TracedFinding(cfg, size, sent, bodies, st1, body);
    assert (bodies + [body])[..|bodies|] == bodies;
    FirstIsNew(cfg, size, bodies, st1, body);
  }

  lemma FirstIsNew(cfg: Config, size: int, bodies: seq<Body>, st: Progress, body: Body)
    requires PagesTraced(bodies, st)
    ensures bodies == [] ==> Finding(cfg, size, st, body) != Some(PageRepeated)
  {
    hide AskedFrom, IsSamePage;
  }

  /** The field the loop remembers is that of the collections received. */
  lemma RemembersField(bodies: seq<Body>, st: Progress, body: Body)
    requires PagesTraced(bodies, st)
    ensures body.Failed? || Moved(st, body) <==> FailsFor(bodies + [body])
  {
    hide AllItems, LastTotal, PreviousItems;
    var all := bodies + [body];
    assert all[|bodies|] == body;
    if Moved(st, body) {
      var i :| 0 <= i < |bodies| && HasItems(bodies[i]) && EnvelopeOf(bodies[i]) == st.envelope.value;
      assert all[i] == bodies[i];
    }
  }

  /** The loop's variables stand for the answers in the rules. */
  lemma RemembersAnswers(cfg: Config, size: int, bodies: seq<Body>, st: Progress, body: Body)
    requires PagesTraced(bodies, st)
    ensures AskedAfter(cfg, size, st.clean, bodies + [body]) == AskedFrom(cfg, size, st, body)
    ensures RepeatsLast(cfg, st.clean, bodies + [body]) == Repeats(cfg, st.previous, st.clean, body)
    ensures bodies == [] ==> !Repeats(cfg, st.previous, st.clean, body)
  {
    hide Asked, IsSamePage;
    assert (bodies + [body])[..|bodies|] == bodies;
  }

  /** What the loop finds is what the log says. */
  lemma TracedFinding(
      cfg: Config, size: int, sent: seq<Params>, bodies: seq<Body>, st: Progress, body: Body)
    requires CursorsTraced(cfg, sent, bodies, st) && PagesTraced(bodies, st)
    ensures Finding(cfg, size, st, body) == FindingAfter(cfg, size, sent + [st.clean], bodies + [body])
    ensures CursorMetBefore(cfg, (sent + [st.clean])[0], bodies + [body]) <==>
      NamesCursor(body) && body.page.next in st.seen
  {
    hide FreshCursors, FollowsCursors, Get, Met, AllItems, LastTotal, AskedFrom, AskedAfter, Repeats, RepeatsLast;
    RemembersAnswers(cfg, size, bodies, st, body);
    assert (bodies + [body])[..|bodies|] == bodies;
  }

  /** The server pages truthfully through `l`, beginning at the first request's position. */
  ghost predicate Serves(
      cfg: Config, params: Params, server: (nat, Params) -> Body, l: seq<Item>, envelope: string)
  {
    var size := PageSize(cfg, CleanParams(cfg, params));
    var start := Position(cfg, size, FirstParams(cfg, params));
    start.Some? && Pageable(cfg, size, l, start.value) && Honest(cfg, params, size, l, envelope, server)
  }

  function StartOf(cfg: Config, params: Params): int {
    Position(cfg, PageSize(cfg, CleanParams(cfg, params)), FirstParams(cfg, params)).GetOr(0)
  }

  /** The outcome owed by such a server: a stretch of `l` from the start, all the rest of it unless marked as cut. It
      is marked exactly when the rules ask for more after a hundred pages. */
  ghost predicate Covers(
      cfg: Config, params: Params, l: seq<Item>, bodies: seq<Body>, items: seq<Item>, marked: bool)
  {
    var size, start, pages := PageSize(cfg, CleanParams(cfg, params)), StartOf(cfg, params), |bodies|;
    && 0 <= start && 0 < pages
    && (exists at, to :: start <= at <= to && items == Span(l, start, to) && (!marked ==> to >= |l|)
          && ItemsOf(bodies[pages - 1]) == Span(l, at, to)
          && (size > 0 ==> at == start + (pages - 1) * size && to == at + size)
          && (marked <==>
                pages == MAX_PAGES && AsksOn(cfg, size, l, start, to, LastTotal(bodies) > 0, bodies[pages - 1])))
  }

  ghost predicate OnTrack(cfg: Config, params: Params, l: seq<Item>, envelope: string, st: Progress) {
    exists at :: Tiled(cfg, PageSize(cfg, CleanParams(cfg, params)), l, envelope, StartOf(cfg, params), at, st.page, st)
  }

  lemma StartsOnTrack(
      cfg: Config, params: Params, server: (nat, Params) -> Body, l: seq<Item>, envelope: string, st: Progress)
    requires Serves(cfg, params, server, l, envelope)
    requires st.clean == FirstParams(cfg, params) && st.allItems == [] && st.envelope == None && st.previous == None
    requires st.reportedTotal == 0 && st.page == 0 && st.seen <= {Get(st.clean, cfg.cursorParam)}
    ensures OnTrack(cfg, params, l, envelope, st)
  {
    var size, start := PageSize(cfg, CleanParams(cfg, params)), StartOf(cfg, params);
    assert Tiled(cfg, size, l, envelope, start, start, 0, st);
  }

  /** `v` follows from some truthful page of the tiling, the last of `bodies`. */
  ghost predicate FromTruthfulPage(
      cfg: Config, params: Params, l: seq<Item>, envelope: string, bodies: seq<Body>, v: Verdict)
    requires bodies != []
  {
    var size, start, pages := PageSize(cfg, CleanParams(cfg, params)), StartOf(cfg, params), |bodies| - 1;
    exists at, to :: 0 <= start <= at <= to && PageSpan(size, at, to) && (size > 0 ==> at == start + pages * size)
      && ItemsOf(bodies[pages]) == Span(l, at, to)
      && GoodVerdict(cfg, size, l, envelope, start, to, pages + 1,
           AsksOn(cfg, size, l, start, to, LastTotal(bodies) > 0, bodies[pages]), v)
  }

  /** Such a verdict keeps the run on track, or ends it with what is owed. */
  lemma TruthfulVerdict(cfg: Config, params: Params, l: seq<Item>, envelope: string, bodies: seq<Body>, v: Verdict)
    requires 0 < |bodies| <= MAX_PAGES && FromTruthfulPage(cfg, params, l, envelope, bodies, v)
    ensures match v
            case Fail => false
            case Continue(next) => OnTrack(cfg, params, l, envelope, next)
            case Stop(last, reason) =>
              reason in {None, Some(MaxPages)} && Covers(cfg, params, l, bodies, last.allItems, reason.Some?)
  {
    hide AsksOn, Tiled, Span, PageSize, CleanParams, StartOf, LastTotal;
    var size, start, pages := PageSize(cfg, CleanParams(cfg, params)), StartOf(cfg, params), |bodies| - 1;
  }

  /** With a page size, it can be told from the list and the last page whether a run is marked as cut: when more is
      left, and also when the hundredth page ends the list but the rules go past it. */
  lemma MarkedIff(cfg: Config, params: Params, l: seq<Item>, bodies: seq<Body>, items: seq<Item>, marked: bool)
    requires Covers(cfg, params, l, bodies, items, marked) && PageSize(cfg, CleanParams(cfg, params)) > 0
    requires |bodies| <= MAX_PAGES
    ensures
      var size, start, last := PageSize(cfg, CleanParams(cfg, params)), StartOf(cfg, params), bodies[|bodies| - 1];
      var end := start + MAX_PAGES * size;
      marked <==> |l| > end || (|l| > end - size && GoesPast(cfg, size, start, LastTotal(bodies) > 0, last))
  {
    hide PageSize, CleanParams, StartOf, LastTotal;
    var at, to := LastPage(cfg, params, l, bodies, items, marked);
    hide *;
    var size, start, last := PageSize(cfg, CleanParams(cfg, params)), StartOf(cfg, params), bodies[|bodies| - 1];
    CapArithmetic(|l|, start, size, |bodies|, at, to, GoesPast(cfg, size, start, LastTotal(bodies) > 0, last), marked);
  }

  lemma LastPage(cfg: Config, params: Params, l: seq<Item>, bodies: seq<Body>, items: seq<Item>, marked: bool)
      returns (at: int, to: int)
    requires Covers(cfg, params, l, bodies, items, marked) && PageSize(cfg, CleanParams(cfg, params)) > 0
    ensures 0 < |bodies|
    ensures
      var size, start, last := PageSize(cfg, CleanParams(cfg, params)), StartOf(cfg, params), bodies[|bodies| - 1];
      var past := GoesPast(cfg, size, start, LastTotal(bodies) > 0, last);
      && 0 <= start && at == start + (|bodies| - 1) * size && to == at + size && (!marked ==> to >= |l|)
      && items == Span(l, start, to) && ItemsOf(last) == Span(l, at, to) && (past ==> at < |l|)
      && (marked <==> |bodies| == MAX_PAGES && (to < |l| || past))
  {
    hide PageSize, CleanParams, StartOf, LastTotal;
    var size, start, pages := PageSize(cfg, CleanParams(cfg, params)), StartOf(cfg, params), |bodies|;
    at, to :| start <= at <= to && items == Span(l, start, to) && (!marked ==> to >= |l|)
      && ItemsOf(bodies[pages - 1]) == Span(l, at, to)
      && (size > 0 ==> at == start + (pages - 1) * size && to == at + size)
      && (marked <==> pages == MAX_PAGES && AsksOn(cfg, size, l, start, to, LastTotal(bodies) > 0, bodies[pages - 1]));
  }

  lemma CapArithmetic(n: nat, start: int, size: int, pages: nat, at: int, to: int, past: bool, marked: bool)
    requires size > 0 && 0 < pages <= 100 && at == start + (pages - 1) * size && to == at + size
    requires (!marked ==> to >= n) && (past ==> at < n) && (marked <==> pages == 100 && (to < n || past))
    ensures marked <==> n > start + 100 * size || (n > start + 100 * size - size && past)
  {
    if pages < 100 {
      assert (pages - 1) * size <= 98 * size;
    }
  }

  /** From the first element on, only a list of exactly a hundred full pages is wrongly marked, if its last page is a
      bare array or the configuration has no field to look at. */
  lemma MarkedIffFromStart(cfg: Config, params: Params, l: seq<Item>, bodies: seq<Body>, items: seq<Item>, marked: bool)
    requires Covers(cfg, params, l, bodies, items, marked) && PageSize(cfg, CleanParams(cfg, params)) > 0
    requires |bodies| <= MAX_PAGES && StartOf(cfg, params) == 0
    ensures
      var size, last := PageSize(cfg, CleanParams(cfg, params)), bodies[|bodies| - 1];
      marked <==>
        || |l| > MAX_PAGES * size
        || (|l| == MAX_PAGES * size && (last.Object? ==> cfg.nextCursorPath == "" && cfg.hasMoreField == ""))
  {
    hide PageSize, CleanParams, StartOf, LastTotal, Covers;
    MarkedIff(cfg, params, l, bodies, items, marked);
    var at, to := LastPage(cfg, params, l, bodies, items, marked);
    LastOfHundred(|l|, PageSize(cfg, CleanParams(cfg, params)), |bodies|, at, marked);
  }

  /** A list that ends on its hundredth page is read that far. */
  lemma LastOfHundred(n: nat, size: int, pages: nat, at: int, marked: bool)
    requires size > 0 && 0 < pages <= 100 && at == (pages - 1) * size && (!marked ==> at + size >= n)
    requires marked ==> pages == 100
    ensures n > 99 * size ==> at == 99 * size
  {
    if pages < 100 {
      assert (pages - 1) * size <= 98 * size;
    }
  }

  lemma TruthfulAnswer(
      cfg: Config, params: Params, size: int, l: seq<Item>, envelope: string, server: (nat, Params) -> Body,
      i: nat, clean: Params, at: int) returns (to: int)
    requires Honest(cfg, params, size, l, envelope, server) && IsRequest(cfg, params, clean)
    requires Position(cfg, size, clean) == Some(at) && at >= 0 && size >= 0
    ensures PageSpan(size, at, to) && Truthful(cfg, size, l, envelope, at, to, server(i, clean))
  {
    if size > 0 {
      to := at + size;
    } else {
      to :| at < to && Truthful(cfg, size, l, envelope, at, to, server(i, clean));
    }
  }

  lemma LastTotalSnoc(bodies: seq<Body>, body: Body)
    ensures LastTotal(bodies + [body]) == Told(LastTotal(bodies), body)
  {
    assert (bodies + [body])[..|bodies|] == bodies;
  }

  lemma StaysOnTrack(
      cfg: Config, params: Params, server: (nat, Params) -> Body, l: seq<Item>, envelope: string, bodies: seq<Body>,
      st: Progress)
    requires Serves(cfg, params, server, l, envelope) && OnTrack(cfg, params, l, envelope, st) && st.page < MAX_PAGES
    requires |bodies| == st.page && IsRequest(cfg, params, st.clean) && st.reportedTotal == LastTotal(bodies)
    ensures FromTruthfulPage(cfg, params, l, envelope, bodies + [server(st.page, st.clean)],
      Digest(cfg, PageSize(cfg, CleanParams(cfg, params)), st.(page := st.page + 1), server(st.page, st.clean)))
  {
    hide *;
    var size, start, body := PageSize(cfg, CleanParams(cfg, params)), StartOf(cfg, params), server(st.page, st.clean);
    ServesFrom(cfg, params, server, l, envelope);
    var at := TiledAt(cfg, params, l, envelope, st);
    var to := TruthfulAnswer(cfg, params, size, l, envelope, server, st.page, st.clean, at);
    SameTiles(cfg, size, l, envelope, start, at, st.page, st);
    DigestTiles(cfg, size, l, envelope, start, at, to, st.page, st.(page := st.page + 1), body);
    TruthfulItems(cfg, size, l, envelope, at, to, body);
    LastTotalSnoc(bodies, body);
    TruthfulPageAt(cfg, params, l, envelope, bodies, body, at, to, Digest(cfg, size, st.(page := st.page + 1), body));
  }

  lemma ServesFrom(cfg: Config, params: Params, server: (nat, Params) -> Body, l: seq<Item>, envelope: string)
    requires Serves(cfg, params, server, l, envelope)
    ensures
      var size := PageSize(cfg, CleanParams(cfg, params));
      size >= 0 && Pageable(cfg, size, l, StartOf(cfg, params)) && Honest(cfg, params, size, l, envelope, server)
  {
    hide PageSize, CleanParams, FirstParams, Honest, PositionOf;
  }

  lemma TiledAt(cfg: Config, params: Params, l: seq<Item>, envelope: string, st: Progress) returns (at: int)
    requires OnTrack(cfg, params, l, envelope, st)
    ensures
      var size, start := PageSize(cfg, CleanParams(cfg, params)), StartOf(cfg, params);
      && Tiled(cfg, size, l, envelope, start, at, st.page, st) && Position(cfg, size, st.clean) == Some(at)
      && 0 <= start <= at && (size > 0 ==> at == start + st.page * size)
  {
    hide PageSize, CleanParams, StartOf, Position;
    at :| Tiled(cfg, PageSize(cfg, CleanParams(cfg, params)), l, envelope, StartOf(cfg, params), at, st.page, st);
  }

  lemma SameTiles(
      cfg: Config, size: int, l: seq<Item>, envelope: string, start: int, at: int, pages: nat, st: Progress)
    requires Tiled(cfg, size, l, envelope, start, at, pages, st) && pages < MAX_PAGES
    ensures Tiled(cfg, size, l, envelope, start, at, pages, st.(page := st.page + 1)) && st.reportedTotal >= 0
    ensures pages <= 99
  {
  }

  lemma TruthfulPageAt(
      cfg: Config, params: Params, l: seq<Item>, envelope: string, bodies: seq<Body>, body: Body, at: int, to: int,
      v: Verdict)
    requires
      var size, start, pages := PageSize(cfg, CleanParams(cfg, params)), StartOf(cfg, params), |bodies|;
      && 0 <= start <= at <= to && PageSpan(size, at, to) && (size > 0 ==> at == start + pages * size)
      && ItemsOf(body) == Span(l, at, to)
      && GoodVerdict(cfg, size, l, envelope, start, to, pages + 1,
           AsksOn(cfg, size, l, start, to, LastTotal(bodies + [body]) > 0, body), v)
    ensures FromTruthfulPage(cfg, params, l, envelope, bodies + [body], v)
  {
    hide PageSize, CleanParams, StartOf, GoodVerdict, AsksOn, LastTotal, ItemsOf;
    assert (bodies + [body])[|bodies|] == body;
  }

  lemma TruthfulItems(cfg: Config, size: int, l: seq<Item>, envelope: string, at: int, to: int, body: Body)
    requires Truthful(cfg, size, l, envelope, at, to, body)
    ensures 0 <= at <= to && ItemsOf(body) == Span(l, at, to)
  {
  }

  /** The end of a run; an endpoint that declares no way to page at all gets a warning of its own. */
  function Conclude(cfg: Config, last: Progress, reason: Option<Reason>): (r: Result)
    ensures r.Items? && r.items == last.allItems
    ensures forall why ::
      why in r.truncated <==> reason == Some(why) || (why == SignalMissing && LacksSignal(cfg, last))
  {
    Items(last.allItems,
      (if reason.Some? then {reason.value} else {}) + if LacksSignal(cfg, last) then {SignalMissing} else {})
  }

  predicate LacksSignal(cfg: Config, last: Progress) {
    last.page == 1 && cfg.nextCursorPath == "" && !last.foundCursor && cfg.hasMoreField == "" && cfg.mode == Cursor
  }

  /** One request and what follows from its answer. */
  method TakePage(
      cfg: Config, params: Params, server: (nat, Params) -> Body, st: Progress, pageSize: int,
      ghost sent: seq<Params>, ghost bodies: seq<Body>, ghost l: seq<Item>, ghost envelope: string)
      returns (body: Body, v: Verdict)
    requires st.page < MAX_PAGES && Traced(cfg, params, server, sent, bodies, st)
    requires pageSize == PageSize(cfg, CleanParams(cfg, params))
    ensures Logged(cfg, params, server, sent + [st.clean], bodies + [body])
    ensures v.Continue? ==>
      v.st.page == st.page + 1 < MAX_PAGES && Traced(cfg, params, server, sent + [st.clean], bodies + [body], v.st)
    ensures v.Stop? ==> Ends(cfg, params, sent + [st.clean], bodies + [body], Conclude(cfg, v.st, v.reason))
    ensures v.Fail? ==> FailsFor(bodies + [body])
    ensures Serves(cfg, params, server, l, envelope) && OnTrack(cfg, params, l, envelope, st) ==>
      FromTruthfulPage(cfg, params, l, envelope, bodies + [body], v)
  {
    hide Digest, Follows, Traced, Logged, OnTrack, FromTruthfulPage, Serves, PageSize, CleanParams, Conclude;
    TracedTotals(cfg, params, server, sent, bodies, st);
    var st1 := st.(page := st.page + 1);
    body := server(st.page, st.clean);
    IsLogged(cfg, params, server, sent, bodies, st, body);
    v := Digest(cfg, pageSize, st1, body);
    DigestFollows(cfg, pageSize, st1, body);
    if Serves(cfg, params, server, l, envelope) && OnTrack(cfg, params, l, envelope, st) {
      StaysOnTrack(cfg, params, server, l, envelope, bodies, st);
    }
    if v.Continue? {
      ContinuePages(cfg, pageSize, st1, body, v.st);
      TracedStep(cfg, params, server, pageSize, sent, bodies, st, body, v.st);
    } else {
      TracedEnd(cfg, params, server, pageSize, sent, bodies, st, body, v);
      if v.Stop? {
        EndsWith(cfg, params, sent + [st.clean], bodies + [body], v.st, v.reason);
      }
    }
  }

  lemma TracedTotals(
      cfg: Config, params: Params, server: (nat, Params) -> Body, sent: seq<Params>, bodies: seq<Body>, st: Progress)
    requires Traced(cfg, params, server, sent, bodies, st)
    ensures |bodies| == st.page && IsRequest(cfg, params, st.clean) && st.reportedTotal == LastTotal(bodies)
  {
    hide IsRequest, CursorsTraced;
  }

  lemma ContinuePages(cfg: Config, size: int, st: Progress, body: Body, st': Progress)
    requires st.reportedTotal >= 0 && Follows(cfg, size, st, body, Continue(st'))
    ensures st'.page == st.page < MAX_PAGES
  {
  }

  /** How a run that returns items ends. What is returned is what was received, less a last page that only repeats the
      one before; its marks are exactly what there is to say of its last answer. */
  ghost predicate Ends(cfg: Config, params: Params, sent: seq<Params>, bodies: seq<Body>, r: Result)
    requires |sent| == |bodies| > 0
  {
    var size := PageSize(cfg, CleanParams(cfg, params));
    && r.Items? && !FailsFor(bodies)
    && r.items == AllItems(if PageRepeated in r.truncated then bodies[..|bodies| - 1] else bodies)
    && r.truncated == Marks(cfg, size, sent, bodies) && (MaxPages in r.truncated ==> |bodies| == MAX_PAGES)
  }

  /** The result is unmarked exactly when nothing more was asked for or claimed, and nothing repeated. */
  lemma QuietIff(cfg: Config, params: Params, sent: seq<Params>, bodies: seq<Body>, r: Result)
    requires |sent| == |bodies| > 0 && Ends(cfg, params, sent, bodies, r)
    ensures !bodies[|bodies| - 1].Failed?
    ensures r.truncated == {} <==>
      IsQuiet(cfg, PageSize(cfg, CleanParams(cfg, params)), sent[|sent| - 1], bodies) && !Unsignalled(cfg, bodies)
    ensures PageRepeated in r.truncated <==> RepeatsLast(cfg, sent[|sent| - 1], bodies)
  {
    hide PageSize, CleanParams, RepeatsLast, AllItems, LastTotal, Met;
    var found := FindingAfter(cfg, PageSize(cfg, CleanParams(cfg, params)), sent, bodies);
    assert found.Some? ==> found.value in r.truncated;
    assert Unsignalled(cfg, bodies) ==> SignalMissing in r.truncated;
  }

  lemma EndsWith(
      cfg: Config, params: Params, sent: seq<Params>, bodies: seq<Body>, last: Progress, reason: Option<Reason>)
    requires |sent| == |bodies| == last.page > 0 && !FailsFor(bodies)
    requires last.allItems == AllItems(if reason == Some(PageRepeated) then bodies[..|bodies| - 1] else bodies)
    requires reason == FindingAfter(cfg, PageSize(cfg, CleanParams(cfg, params)), sent, bodies)
    requires reason == Some(MaxPages) ==> last.page == MAX_PAGES
    requires last.page == 1 ==> (last.foundCursor <==> NamesCursor(bodies[0]))
    ensures Ends(cfg, params, sent, bodies, Conclude(cfg, last, reason))
  {
    hide AllItems, FailsFor, PageSize, CleanParams, NamesCursor, FindingAfter;
    assert LacksSignal(cfg, last) == Unsignalled(cfg, bodies);
    SignalIsNoFinding(cfg, PageSize(cfg, CleanParams(cfg, params)), sent, bodies);
  }

  lemma SignalIsNoFinding(cfg: Config, size: int, sent: seq<Params>, bodies: seq<Body>)
    requires |sent| == |bodies| > 0
    ensures FindingAfter(cfg, size, sent, bodies) != Some(SignalMissing)
  {
  }

  /** `paginatedGet` with `fetchAll`. `sent` and `bodies` are the requests made and their answers; `l` and `envelope`
      are any list the server may turn out to be paging through and any field it may keep it in. */
  method PaginatedGet(
      cfg: Config, params: Params, server: (nat, Params) -> Body, ghost l: seq<Item>, ghost envelope: string)
      returns (r: Result, sent: seq<Params>, ghost bodies: seq<Body>)
    ensures Logged(cfg, params, server, sent, bodies)
    ensures if r.Items? then Ends(cfg, params, sent, bodies, r) else FailsFor(bodies)
    // Against a truthful server the pages tile the list.
    ensures Serves(cfg, params, server, l, envelope) ==>
      r.Items? && r.truncated <= {MaxPages}
    ensures Serves(cfg, params, server, l, envelope) && r.Items? ==>
      Covers(cfg, params, l, bodies, r.items, r.truncated != {})
  {
    hide Traced, Logged, Ends, FailsFor, OnTrack, FromTruthfulPage, Serves, Covers, PageSize, CleanParams, FirstParams,
      Get, Conclude;
    var clean := CleanParams(cfg, params);
    var pageSize := PageSize(cfg, clean);
    clean := FirstParams(cfg, params);
    var initial := Get(clean, cfg.cursorParam);
    var st := Progress(clean, [], None, if initial != "" then {initial} else {}, None, false, 0, 0);
    ghost var serves := Serves(cfg, params, server, l, envelope);
    if serves {
      StartsOnTrack(cfg, params, server, l, envelope, st);
    }
    sent, bodies := [], [];
    StartsTraced(cfg, params, server, st);
    r := Error;
    while true
      invariant |sent| == |bodies| == st.page < MAX_PAGES && Traced(cfg, params, server, sent, bodies, st)
      invariant serves ==> OnTrack(cfg, params, l, envelope, st)
      decreases MAX_PAGES - st.page
    {
      var body, verdict := TakePage(cfg, params, server, st, pageSize, sent, bodies, l, envelope);
      sent, bodies := sent + [st.clean], bodies + [body];
      if serves {
        TruthfulVerdict(cfg, params, l, envelope, bodies, verdict);
      }
      match verdict {
        case Fail =>
          return;
        case Stop(last, reason) =>
          TruthfulRunPages(cfg, params, server, l, envelope);
          r := Conclude(cfg, last, reason);
          return;
        case Continue(next) =>
          st := next;
      }
    }
  }

  lemma StartsTraced(cfg: Config, params: Params, server: (nat, Params) -> Body, st: Progress)
    requires st.clean == FirstParams(cfg, params) && st.allItems == [] && st.envelope == None && st.previous == None
    requires st.reportedTotal == 0 && st.page == 0 && !st.foundCursor
    requires var initial := Get(st.clean, cfg.cursorParam); st.seen == if initial != "" then {initial} else {}
    ensures Traced(cfg, params, server, [], [], st)
  {
    hide FirstParams, PageSize, CleanParams;
    assert ([] + [st.clean])[0] == st.clean;
  }

  lemma TruthfulRunPages(cfg: Config, params: Params, server: (nat, Params) -> Body, l: seq<Item>, envelope: string)
    ensures Serves(cfg, params, server, l, envelope) ==> cfg.mode != Cursor
  {
    hide Honest, PageSize, CleanParams, FirstParams, Position;
  }

  /** More that the last answer itself offers, by a cursor or a claim, is never passed over in silence. */
  lemma OfferIsMarked(cfg: Config, params: Params, sent: seq<Params>, bodies: seq<Body>, r: Result)
    requires |sent| == |bodies| > 0 && Ends(cfg, params, sent, bodies, r) && OffersMore(cfg, bodies[|bodies| - 1])
    ensures r.truncated != {}
  {
    hide PageSize, CleanParams, RepeatsLast, NextClientSide;
    QuietIff(cfg, params, sent, bodies, r);
  }

  // ----- A chain of cursors

  /** The cursor that asks for page `i` of a chain, and the one page `i` names, "" for the last. */
  function CursorTo(cfg: Config, params: Params, tokens: seq<string>, i: nat): string
    requires i <= |tokens|
  {
    if i == 0 then Get(FirstParams(cfg, params), cfg.cursorParam) else tokens[i - 1]
  }

  function CursorFrom(tokens: seq<string>, i: nat): string {
    if i < |tokens| then tokens[i] else ""
  }

  /** The answer is page `i` of the chain. */
  ghost predicate IsLink(pages: seq<seq<Item>>, tokens: seq<string>, envelope: string, i: nat, body: Body) {
    && i < |pages| && body.Object?
    && var page := body.page;
       && page.items == Some(pages[i]) && page.envelope == envelope && page.token == page.next == CursorFrom(tokens, i)
       && (i == |tokens| ==> page.more != Some(true))
  }

  /** The server holds `pages`, each but the last naming the cursor of the next. Its cursors are distinct, and the last
      page is not the one before it over again. */
  ghost predicate Chain(
      cfg: Config, params: Params, server: (nat, Params) -> Body, pages: seq<seq<Item>>, tokens: seq<string>,
      envelope: string)
  {
    && cfg.mode == Cursor && |pages| == |tokens| + 1 && (tokens != [] ==> pages[|tokens|] != pages[|tokens| - 1])
    && (forall i :: 0 <= i < |tokens| ==> tokens[i] != "")
    && (forall i, j :: 0 <= i < j <= |tokens| ==> CursorTo(cfg, params, tokens, i) != CursorTo(cfg, params, tokens, j))
    && (forall i, clean | 0 <= i < |pages| && IsRequest(cfg, params, clean) ::
          Get(clean, cfg.cursorParam) == CursorTo(cfg, params, tokens, i) ==>
            IsLink(pages, tokens, envelope, i, server(i, clean)))
  }

  /** A run down a chain takes its pages one by one. */
  lemma {:induction false} TakesLink(
      cfg: Config, params: Params, server: (nat, Params) -> Body, pages: seq<seq<Item>>, tokens: seq<string>,
      envelope: string,
      sent: seq<Params>, bodies: seq<Body>, i: nat)
    requires Chain(cfg, params, server, pages, tokens, envelope) && Logged(cfg, params, server, sent, bodies)
      && i < |sent|
    ensures i <= |tokens| && Get(sent[i], cfg.cursorParam) == CursorTo(cfg, params, tokens, i)
    ensures IsLink(pages, tokens, envelope, i, bodies[i])
  {
    hide FirstParams;
    if i > 0 {
      TakesLink(cfg, params, server, pages, tokens, envelope, sent, bodies, i - 1);
      assert NamesNext(cfg, sent[i - 1], bodies[i - 1], sent[i]);
    }
  }

  lemma {:induction false} TakesPages(
      cfg: Config, params: Params, server: (nat, Params) -> Body, pages: seq<seq<Item>>, tokens: seq<string>,
      envelope: string,
      sent: seq<Params>, bodies: seq<Body>, n: nat)
    requires Chain(cfg, params, server, pages, tokens, envelope) && Logged(cfg, params, server, sent, bodies)
      && n <= |sent|
    ensures n <= |pages| && AllItems(bodies[..n]) == Concat(pages[..n])
  {
    hide Chain, Logged;
    if n > 0 {
      LogLengths(cfg, params, server, sent, bodies);
      TakesLink(cfg, params, server, pages, tokens, envelope, sent, bodies, n - 1);
      TakesPages(cfg, params, server, pages, tokens, envelope, sent, bodies, n - 1);
      assert bodies[..n][..n - 1] == bodies[..n - 1] && pages[..n][..n - 1] == pages[..n - 1];
    }
  }

  lemma LogLengths(cfg: Config, params: Params, server: (nat, Params) -> Body, sent: seq<Params>, bodies: seq<Body>)
    requires Logged(cfg, params, server, sent, bodies)
    ensures 0 < |sent| == |bodies| <= MAX_PAGES
  {
  }

  /** Where a chain of cursors is followed from end to end, the result is all of it, or a hundred pages marked as
      such. */
  lemma ChainIsFollowed(
      cfg: Config, params: Params, server: (nat, Params) -> Body, pages: seq<seq<Item>>, tokens: seq<string>,
      envelope: string,
      r: Result, sent: seq<Params>, bodies: seq<Body>)
    requires Chain(cfg, params, server, pages, tokens, envelope)
    requires Logged(cfg, params, server, sent, bodies)
      && if r.Items? then Ends(cfg, params, sent, bodies, r) else FailsFor(bodies)
    ensures |sent| == Min(MAX_PAGES, |pages|)
    ensures r.Items? && r.items == Concat(pages[..Min(MAX_PAGES, |pages|)])
    ensures MaxPages in r.truncated <==> |pages| > MAX_PAGES
    ensures SignalMissing in r.truncated <==> |pages| == 1 && cfg.nextCursorPath == "" && cfg.hasMoreField == ""
    ensures r.truncated <= {MaxPages, SignalMissing}
  {
    hide *;
    LogLengths(cfg, params, server, sent, bodies);
    TakesAll(cfg, params, server, pages, tokens, envelope, sent, bodies);
    NoFailure(cfg, params, pages, tokens, envelope, sent, bodies);
    TakesPages(cfg, params, server, pages, tokens, envelope, sent, bodies, |sent|);
    assert bodies[..|sent|] == bodies;
    ChainEnds(cfg, params, server, pages, tokens, envelope, r, sent, bodies);
  }

  /** The answers are the pages of the chain, one after the other. */
  ghost predicate Linked(
      cfg: Config, params: Params, pages: seq<seq<Item>>, tokens: seq<string>, envelope: string, sent: seq<Params>,
      bodies: seq<Body>)
  {
    && 0 < |sent| == |bodies|
    && forall i :: 0 <= i < |sent| ==> LinkedAt(cfg, params, pages, tokens, envelope, sent[i], bodies[i], i)
  }

  ghost predicate LinkedAt(
      cfg: Config, params: Params, pages: seq<seq<Item>>, tokens: seq<string>, envelope: string, clean: Params,
      body: Body, i: nat)
  {
    && i <= |tokens| && IsLink(pages, tokens, envelope, i, body)
    && Get(clean, cfg.cursorParam) == CursorTo(cfg, params, tokens, i)
  }

  lemma TakesAll(
      cfg: Config, params: Params, server: (nat, Params) -> Body, pages: seq<seq<Item>>, tokens: seq<string>,
      envelope: string, sent: seq<Params>, bodies: seq<Body>)
    requires Chain(cfg, params, server, pages, tokens, envelope) && Logged(cfg, params, server, sent, bodies)
    ensures Linked(cfg, params, pages, tokens, envelope, sent, bodies)
  {
    LogLengths(cfg, params, server, sent, bodies);
    forall i | 0 <= i < |sent|
      ensures LinkedAt(cfg, params, pages, tokens, envelope, sent[i], bodies[i], i)
    {
      TakesLink(cfg, params, server, pages, tokens, envelope, sent, bodies, i);
    }
  }

  lemma NoFailure(
      cfg: Config, params: Params, pages: seq<seq<Item>>, tokens: seq<string>, envelope: string, sent: seq<Params>,
      bodies: seq<Body>)
    requires Linked(cfg, params, pages, tokens, envelope, sent, bodies)
    ensures !FailsFor(bodies)
  {
    hide CursorTo;
    forall i | 0 <= i < |bodies|
      ensures !bodies[i].Failed? && EnvelopeOf(bodies[i]) == envelope
    {
      assert LinkedAt(cfg, params, pages, tokens, envelope, sent[i], bodies[i], i);
    }
  }

  /** No page of a chain repeats another. */
  lemma LinkIsNew(
      cfg: Config, params: Params, server: (nat, Params) -> Body, pages: seq<seq<Item>>, tokens: seq<string>,
      envelope: string, sent: seq<Params>, bodies: seq<Body>)
    requires Chain(cfg, params, server, pages, tokens, envelope)
      && Linked(cfg, params, pages, tokens, envelope, sent, bodies)
    ensures !RepeatsLast(cfg, sent[|sent| - 1], bodies) && !CursorMetBefore(cfg, sent[0], bodies)
  {
    hide FirstParams;
    var n, last := |bodies|, bodies[|bodies| - 1];
    assert LinkedAt(cfg, params, pages, tokens, envelope, sent[n - 1], last, n - 1);
    assert n <= |tokens| ==> last.page.next == CursorTo(cfg, params, tokens, n);
    assert n <= |tokens| ==> forall i :: 0 <= i < n ==>
      CursorTo(cfg, params, tokens, i) != CursorTo(cfg, params, tokens, n);
    assert n > 1 ==> LinkedAt(cfg, params, pages, tokens, envelope, sent[n - 2], bodies[n - 2], n - 2);
    forall i | 0 <= i < n - 1 && NamesCursor(bodies[i])
      ensures bodies[i].page.next != last.page.next
    {
      assert LinkedAt(cfg, params, pages, tokens, envelope, sent[i], bodies[i], i);
      assert bodies[i].page.next == CursorTo(cfg, params, tokens, i + 1);
    }
  }

  /** Before the last page of a chain there is more to ask for, and after it there is not. */
  lemma FoundOnChain(
      cfg: Config, params: Params, server: (nat, Params) -> Body, pages: seq<seq<Item>>, tokens: seq<string>,
      envelope: string, size: int, sent: seq<Params>, bodies: seq<Body>)
    requires Chain(cfg, params, server, pages, tokens, envelope)
      && Linked(cfg, params, pages, tokens, envelope, sent, bodies)
    ensures |sent| <= |pages|
    ensures FindingAfter(cfg, size, sent, bodies) == if |sent| < |pages| then Some(MaxPages) else None
    ensures Unsignalled(cfg, bodies) <==> |sent| == |pages| == 1 && cfg.nextCursorPath == "" && cfg.hasMoreField == ""
  {
    LinkIsNew(cfg, params, server, pages, tokens, envelope, sent, bodies);
    hide RepeatsLast, CursorMetBefore, CursorTo, AllItems, LastTotal;
    assert LinkedAt(cfg, params, pages, tokens, envelope, sent[|sent| - 1], bodies[|sent| - 1], |sent| - 1);
  }

  /** A run down a chain ends at its last page, or marked at the cap. */
  lemma ChainEnds(
      cfg: Config, params: Params, server: (nat, Params) -> Body, pages: seq<seq<Item>>, tokens: seq<string>,
      envelope: string, r: Result, sent: seq<Params>, bodies: seq<Body>)
    requires Chain(cfg, params, server, pages, tokens, envelope)
      && Linked(cfg, params, pages, tokens, envelope, sent, bodies) && |bodies| <= MAX_PAGES
      && Ends(cfg, params, sent, bodies, r)
    ensures r.items == AllItems(bodies) && |sent| == Min(MAX_PAGES, |pages|)
    ensures MaxPages in r.truncated <==> |pages| > MAX_PAGES
    ensures SignalMissing in r.truncated <==> |pages| == 1 && cfg.nextCursorPath == "" && cfg.hasMoreField == ""
    ensures r.truncated <= {MaxPages, SignalMissing}
  {
    var size := PageSize(cfg, CleanParams(cfg, params));
    hide PageSize, CleanParams, FailsFor, AllItems, FindingAfter, Unsignalled, Chain;
    FoundOnChain(cfg, params, server, pages, tokens, envelope, size, sent, bodies);
    assert |sent| < |pages| ==> MaxPages in r.truncated;
  }

  // ----- A server that slices its list as it is asked

  /** The elements asked for by offset and limit, as a bare array. */
  function Slice(cfg: Config, l: seq<Item>, clean: Params): Body {
    var current := Get(clean, cfg.cursorParam);
    var from, count := Atoi(if current == "" then "0" else current), Atoi(Get(clean, cfg.limitParam));
    if from.None? || count.None? || from.value < 0 || count.value < 0 then Failed
    else Bare(Span(l, from.value, from.value + count.value))
  }

  /** Paging by offset from the first element on, with both parameters sent. */
  ghost predicate Slices(cfg: Config, params: Params, server: (nat, Params) -> Body, l: seq<Item>) {
    && cfg.mode == Offset && cfg.limitParam !in {"", cfg.cursorParam} && IsInt(cfg.defaultPageSize)
    && PageSize(cfg, CleanParams(cfg, params)) > 0
    && Position(cfg, PageSize(cfg, CleanParams(cfg, params)), FirstParams(cfg, params)) == Some(0)
    && Pageable(cfg, PageSize(cfg, CleanParams(cfg, params)), l, 0)
    && forall i, clean :: server(i, clean) == Slice(cfg, l, clean)
  }

  lemma LimitSent(cfg: Config, params: Params, clean: Params)
    requires cfg.mode == Offset && cfg.limitParam !in {"", cfg.cursorParam} && IsInt(cfg.defaultPageSize)
    requires PageSize(cfg, CleanParams(cfg, params)) > 0 && IsRequest(cfg, params, clean)
    ensures Atoi(Get(clean, cfg.limitParam)) == Some(PageSize(cfg, CleanParams(cfg, params)))
  {
    hide CleanParams, Atoi, Itoa;
    AtoiOfItoa(cfg.defaultPageSize);
  }

  /** Such a server is truthful. */
  lemma SliceServes(cfg: Config, params: Params, server: (nat, Params) -> Body, l: seq<Item>)
    requires Slices(cfg, params, server, l)
    ensures Serves(cfg, params, server, l, "")
  {
    var size := PageSize(cfg, CleanParams(cfg, params));
    hide PageSize, CleanParams, Atoi, IsRequest;
    forall i: nat, clean | IsRequest(cfg, params, clean)
      ensures var at := Position(cfg, size, clean);
              at.Some? && at.value >= 0 ==> Truthful(cfg, size, l, "", at.value, at.value + size, server(i, clean))
    {
      LimitSent(cfg, params, clean);
    }
  }

  /** A list of exactly a hundred pages comes back whole and yet marked as cut. */
  lemma WholeListMarked(
      cfg: Config, params: Params, server: (nat, Params) -> Body, l: seq<Item>, sent: seq<Params>, bodies: seq<Body>,
      r: Result)
    requires Slices(cfg, params, server, l) && |l| == MAX_PAGES * PageSize(cfg, CleanParams(cfg, params))
    requires Logged(cfg, params, server, sent, bodies) && r.Items? && r.truncated <= {MaxPages}
    requires Covers(cfg, params, l, bodies, r.items, r.truncated != {})
    ensures r == Items(l, {MaxPages})
  {
    hide *;
    SlicedFrom(cfg, params, server, l);
    LogLengths(cfg, params, server, sent, bodies);
    LastIsBare(cfg, params, server, l, sent, bodies);
    MarkedIffFromStart(cfg, params, l, bodies, r.items, r.truncated != {});
    var at, to := LastPage(cfg, params, l, bodies, r.items, r.truncated != {});
    assert r.truncated == {MaxPages};
    assert Span(l, 0, to) == l by {
      hide *;
      HundredPages(l, PageSize(cfg, CleanParams(cfg, params)), at, to);
    }
  }

  lemma SlicedFrom(cfg: Config, params: Params, server: (nat, Params) -> Body, l: seq<Item>)
    requires Slices(cfg, params, server, l)
    ensures StartOf(cfg, params) == 0 && PageSize(cfg, CleanParams(cfg, params)) > 0
  {
    hide PageSize, CleanParams, PositionOf, FirstParams, Slice;
  }

  lemma LastIsBare(
      cfg: Config, params: Params, server: (nat, Params) -> Body, l: seq<Item>, sent: seq<Params>, bodies: seq<Body>)
    requires Slices(cfg, params, server, l) && Logged(cfg, params, server, sent, bodies)
    ensures !bodies[|bodies| - 1].Object?
  {
    hide PageSize, CleanParams, PositionOf, FirstParams, IsRequest, GoodSoFar, AskedFor, Atoi;
    assert bodies[|bodies| - 1] == server(|bodies| - 1, sent[|bodies| - 1]);
  }

  lemma HundredPages(l: seq<Item>, size: int, at: int, to: int)
    requires size > 0 && at == (MAX_PAGES - 1) * size && to == at + size && |l| == MAX_PAGES * size
    ensures Span(l, 0, to) == l
  {
  }
}

/** The paging loop of `export`. */
module Export {
  import opened Basics
  import opened Numerals

  datatype Mode = NoPaging | Offset | PageNumber | Cursor

  datatype Config = Config(mode: Mode, cursorParam: string, limitParam: string, pageSize: int)

  /** What an envelope says of the pages after it: the boolean at the declared has-more field, the cursor at the
      declared path ("" for none), and, in the order they are looked at, the values of the keys known to hold a cursor
      ("" where they hold none) and the booleans of the keys known to tell whether there is more. */
  datatype Signals = Signals(declared: Option<bool>, atPath: string, cursors: seq<string>, flags: seq<bool>)

  /** A response: a bare array, an envelope around one, or something that holds no array. */
  datatype Body =
    | NoAnswer
    | Bare(items: seq<string>)
    | Envelope(items: seq<string>, signals: Signals)
    | NoArray(payload: string)

  /** What the loop is given: a page with the cursor it names ("" for none) and whether it claims more, or some other
      payload. */
  datatype Extracted = Failed | Page(items: seq<string>, next: string, hasMore: bool) | Other(payload: string)

  /** A page that names a cursor claims more. */
  type Reply = r: Extracted | r.Page? && r.next != "" ==> r.hasMore
    witness Failed

  function FirstCursor(cursors: seq<string>): string {
    if cursors == [] then "" else if cursors[0] != "" then cursors[0] else FirstCursor(cursors[1..])
  }

  /** `resourcePagination`: the cursor and the claim. A declared "no more" silences everything else. */
  function ReadSignals(s: Signals): (string, bool) {
    if s.declared == Some(false) then ("", false)
    else if s.atPath != "" then (s.atPath, true)
    else if FirstCursor(s.cursors) != "" then (FirstCursor(s.cursors), true)
    else if s.declared == Some(true) then ("", true)
    else ("", s.flags != [] && s.flags[0])
  }

  /** `extractResourcePage`. */
  function Extract(body: Body): Reply {
    match body
    case NoAnswer => Failed
    case Bare(items) => Page(items, "", false)
    case Envelope(items, signals) => Page(items, ReadSignals(signals).0, ReadSignals(signals).1)
    case NoArray(payload) => Other(payload)
  }

  type Params = map<string, string>

  const MAX_PAGE := 100000

  function Stride(cfg: Config): (n: int)
    ensures n > 0
  {
    if cfg.pageSize <= 0 then 100 else cfg.pageSize
  }

  /** Where page number `page` starts. */
  function At(cfg: Config, page: nat): nat {
    page * Stride(cfg)
  }

  /** How much the request asks for: the last page is trimmed to what remains, unless pages are numbered. */
  function Asked(cfg: Config, remaining: int): (n: int)
    ensures n > 0
  {
    if 0 < remaining < Stride(cfg) && cfg.mode != PageNumber then remaining else Stride(cfg)
  }

  /** `resourcePageParams`; a configuration that does not page sends nothing. */
  function PageParams(cfg: Config, cursor: string, page: nat, remaining: int): Params {
    if cfg.mode == NoPaging then map[]
    else
      var limited: Params := if cfg.limitParam == "" then map[] else map[cfg.limitParam := Itoa(Asked(cfg, remaining))];
      if cfg.cursorParam == "" then limited
      else match cfg.mode
        case Offset => limited[cfg.cursorParam := Itoa(At(cfg, page))]
        case PageNumber => limited[cfg.cursorParam := Itoa(page + 1)]
        case _ => if cursor == "" then limited else limited[cfg.cursorParam := cursor]
  }

  datatype Move = Go(cursor: string) | Done | Stuck

  /** `resourceNextCursor`: only a cursor equal to the current one is noticed. */
  function NextCursor(cfg: Config, current: string, next: string, hasMore: bool): Move {
    if cfg.mode == Offset || cfg.mode == PageNumber then Go(current)
    else if next == "" then if hasMore then Stuck else Done
    else if next == current then Stuck
    else Go(next)
  }

  function ItemsOf(r: Reply): seq<string>
    requires !r.Failed?
  {
    match r
    case Page(items, _, _) => items
    case Other(payload) => [payload]
  }

  // ----- A server that pages through a fixed list

  predicate IsNat(s: Option<int>) {
    s.Some? && s.value >= 0
  }

  /** Where a request starts and how much it asks for, as the server reads its parameters. */
  function From(cfg: Config, p: Params): Option<int> {
    if cfg.cursorParam !in p || cfg.limitParam !in p then None
    else
      var at, size := Atoi(p[cfg.cursorParam]), Atoi(p[cfg.limitParam]);
      if at.None? || size.None? then None
      else if cfg.mode == PageNumber then Some((at.value - 1) * size.value)
      else at
  }

  function Span(l: seq<string>, from: nat, count: nat): (span: seq<string>)
    ensures |span| <= count
  {
    l[Min(from, |l|)..Min(from + count, |l|)]
  }

  /** Every request is answered by the elements it asks for, and more is claimed only if there is more. */
  ghost predicate Truthful(cfg: Config, server: (nat, Params) -> Body, l: seq<string>) {
    forall i: nat, p: Params :: IsNat(From(cfg, p)) && IsNat(Atoi(p[cfg.limitParam])) ==>
      var from, count := From(cfg, p).value, Atoi(p[cfg.limitParam]).value;
      var r := Extract(server(i, p));
      r.Page? && r.items == Span(l, from, count) && (r.hasMore ==> from + count < |l|)
  }

  /** Offsets or page numbers over `l`, with both parameters sent, and nowhere near Go's largest int. */
  ghost predicate Pageable(cfg: Config, l: seq<string>) {
    && (cfg.mode == Offset || cfg.mode == PageNumber)
    && cfg.cursorParam != "" && cfg.limitParam != "" && cfg.cursorParam != cfg.limitParam
    && IsInt((MAX_PAGE + 2) * Stride(cfg))
  }

  /** What request number `page` asks such a server for. */
  lemma AskedFor(cfg: Config, cursor: string, page: nat, remaining: int, l: seq<string>)
    requires Pageable(cfg, l) && page <= MAX_PAGE
    ensures var p := PageParams(cfg, cursor, page, remaining);
            && cfg.limitParam in p && Atoi(p[cfg.limitParam]) == Some(Asked(cfg, remaining))
            && From(cfg, p) == Some(At(cfg, page))
  {
    var s := Stride(cfg);
    assert page * s <= (MAX_PAGE + 2) * s && s <= (MAX_PAGE + 2) * s;
    AtoiOfItoa(page * s);
    AtoiOfItoa(page + 1);
    AtoiOfItoa(Asked(cfg, remaining));
  }

  // ----- The loop

  /** The list so far, before request number `page`. */
  ghost predicate Tiled(cfg: Config, l: seq<string>, page: nat, all: seq<string>) {
    all == Span(l, 0, At(cfg, page)) && |all| == At(cfg, page)
  }

  function Cut(all: seq<string>, limit: int): seq<string> {
    if limit > 0 then all[..Min(limit, |all|)] else all
  }

  /** One page of the tiling: either the run goes on from a full page, or what is collected is all that was wanted. */
  lemma PageTiles(
      cfg: Config, l: seq<string>, limit: int, page: nat, before: seq<string>, count: int, after: seq<string>)
    requires Tiled(cfg, l, page, before) && (limit > 0 ==> |before| < limit)
    requires count == Asked(cfg, if limit > 0 then limit - |before| else 0)
    requires after == Cut(before + Span(l, At(cfg, page), count), limit)
    ensures |after| == |before| || |after| - |before| < count || (limit > 0 && |after| >= limit) ==>
      after == Cut(l, limit)
    ensures |after| - |before| == count && !(limit > 0 && |after| >= limit) ==> Tiled(cfg, l, page + 1, after)
  {
    hide At, Span, Cut, Stride;
    AtNext(cfg, page);
    var at := At(cfg, page);
    SpanGrows(l, at, count);
    var whole := Span(l, 0, at + count);
    CutWhole(l, whole, limit, at, count, after);
  }

  lemma AtNext(cfg: Config, page: nat)
    ensures At(cfg, page + 1) == At(cfg, page) + Stride(cfg)
  {
  }

  /** Cutting the first `at + count` elements to the limit: short of the full page, it is the cut of the whole list. */
  lemma CutWhole(l: seq<string>, whole: seq<string>, limit: int, at: nat, count: int, after: seq<string>)
    requires whole <= l && at <= |whole| <= at + count && (|whole| < at + count ==> whole == l)
    requires count > 0 && (limit > 0 ==> at < limit) && after == Cut(whole, limit)
    ensures |after| < at + count || (limit > 0 && |after| >= limit) ==> after == Cut(l, limit)
    ensures |after| == at + count ==> after == whole && (limit > 0 && |after| < limit ==> count < limit - at)
  {
  }

  lemma SpanGrows(l: seq<string>, at: nat, count: nat)
    ensures Span(l, 0, at) + Span(l, at, count) == Span(l, 0, at + count)
    ensures Span(l, 0, at + count) == l[..Min(at + count, |l|)]
    ensures |Span(l, 0, at + count)| < at + count ==> Span(l, 0, at + count) == l
  {
  }

  function CursorSent(cfg: Config, p: Params): string {
    if cfg.cursorParam in p then p[cfg.cursorParam] else ""
  }

  ghost predicate CursorsMove(cfg: Config, sent: seq<Params>) {
    forall i :: 0 < i < |sent| ==>
      CursorSent(cfg, sent[i]) != "" && CursorSent(cfg, sent[i]) != CursorSent(cfg, sent[i - 1])
  }

  lemma TooLong(cfg: Config, l: seq<string>, page: nat, all: seq<string>)
    ensures Tiled(cfg, l, page, all) ==> |l| >= At(cfg, page)
  {
  }

  datatype Result = Failure | Exported(items: seq<string>)

  // ----- What holds of any server

  /** Everything received. */
  function Received(replies: seq<Reply>): seq<string> {
    if replies == [] then []
    else
      var last := replies[|replies| - 1];
      Received(replies[..|replies| - 1]) + if last.Failed? then [] else ItemsOf(last)
  }

  /** What is still wanted, zero for no limit. */
  function Remaining(limit: int, replies: seq<Reply>): int {
    if limit > 0 then limit - |Received(replies)| else 0
  }

  /** The cursor the next request carries. */
  function CursorAfter(cfg: Config, replies: seq<Reply>): string {
    if cfg.mode != Cursor || replies == [] then "" else NextOf(replies[|replies| - 1])
  }

  function NextOf(r: Reply): string {
    if r.Page? then r.next else ""
  }

  function Request(cfg: Config, limit: int, before: seq<Reply>): Params {
    PageParams(cfg, CursorAfter(cfg, before), |before|, Remaining(limit, before))
  }

  /** The requests are those the answers before them call for, each made because the run could go on. */
  ghost predicate Logged(
      cfg: Config, limit: int, server: (nat, Params) -> Body, sent: seq<Params>, replies: seq<Reply>)
  {
    && |sent| == |replies|
    && (forall i :: 0 <= i < |sent| ==>
          sent[i] == Request(cfg, limit, replies[..i]) && replies[i] == Extract(server(i, sent[i])))
    && (forall i :: 0 <= i < |sent| - 1 ==> GoesOn(cfg, limit, replies[..i], replies[i]))
  }

  predicate LimitReached(limit: int, replies: seq<Reply>) {
    0 < limit <= |Received(replies)|
  }

  predicate OffersMore(r: Reply) {
    r.Page? && r.hasMore
  }

  predicate IsShort(cfg: Config, limit: int, before: seq<Reply>, last: Reply)
    requires !last.Failed?
  {
    var request := Request(cfg, limit, before);
    cfg.limitParam != "" && cfg.limitParam in request && |ItemsOf(last)| < Atoi(request[cfg.limitParam]).GetOr(0)
  }

  /** The run is complete with `last`: nothing pages, nothing came, the limit is reached, or no more is offered and,
      where the client counts the pages itself, the page is short. */
  predicate Completes(cfg: Config, limit: int, before: seq<Reply>, last: Reply) {
    && !last.Failed?
    && (|| cfg.mode == NoPaging || ItemsOf(last) == [] || LimitReached(limit, before + [last])
        || (!OffersMore(last) && (cfg.mode == Cursor || IsShort(cfg, limit, before, last))))
  }

  /** The run breaks off with `last`: the request failed, or more is offered under no cursor, or under the same one. */
  predicate Breaks(cfg: Config, limit: int, before: seq<Reply>, last: Reply) {
    || last.Failed?
    || (&& !Completes(cfg, limit, before, last)
        && cfg.mode == Cursor && NextOf(last) in {"", CursorAfter(cfg, before)})
  }

  predicate GoesOn(cfg: Config, limit: int, before: seq<Reply>, last: Reply) {
    !Completes(cfg, limit, before, last) && !Breaks(cfg, limit, before, last)
  }

  /** The answer a truthful server gives to request number `page`. */
  lemma TruthfulAnswer(
      cfg: Config, server: (nat, Params) -> Body, l: seq<string>, cursor: string, page: nat, remaining: int)
    requires Pageable(cfg, l) && Truthful(cfg, server, l) && page <= MAX_PAGE
    ensures var p := PageParams(cfg, cursor, page, remaining);
            var r := Extract(server(page, p));
            && cfg.limitParam in p && Atoi(p[cfg.limitParam]) == Some(Asked(cfg, remaining))
            && r.Page? && r.items == Span(l, At(cfg, page), Asked(cfg, remaining))
            && (r.hasMore ==> |r.items| == Asked(cfg, remaining))
  {
    hide PageParams, From, Atoi, At;
    AskedFor(cfg, cursor, page, remaining, l);
  }

  lemma CursorsSnoc(cfg: Config, sent: seq<Params>, p: Params)
    requires CursorsMove(cfg, sent)
    requires |sent| > 0 ==> CursorSent(cfg, p) != "" && CursorSent(cfg, p) != CursorSent(cfg, sent[|sent| - 1])
    ensures CursorsMove(cfg, sent + [p])
  {
  }

  lemma SendsCursor(cfg: Config, cursor: string, page: nat, remaining: int)
    requires cfg.mode == Cursor && cfg.cursorParam !in {"", cfg.limitParam}
    ensures CursorSent(cfg, PageParams(cfg, cursor, page, remaining)) == cursor
  {
  }

  lemma IsRequest(cfg: Config, limit: int, cursor: string, replies: seq<Reply>)
    requires cursor == CursorAfter(cfg, replies)
    ensures Request(cfg, limit, replies) ==
      PageParams(cfg, cursor, |replies|, if limit > 0 then limit - |Received(replies)| else 0)
  {
  }

  method Append(before: seq<string>, items: seq<string>, limit: int) returns (all: seq<string>)
    requires limit > 0 ==> |before| <= limit
    ensures all == Cut(before + items, limit)
  {
    all := before;
    for i := 0 to |items|
      invariant all == Cut(before + items[..i], limit)
    {
      if limit > 0 && |all| >= limit {
        return;
      }
      all := all + [items[i]];
    }
    assert items[..|items|] == items;
  }

  lemma ReceivedSnoc(replies: seq<Reply>, reply: Reply)
    ensures Received(replies + [reply]) == Received(replies) + if reply.Failed? then [] else ItemsOf(reply)
    ensures forall cfg :: CursorAfter(cfg, replies + [reply]) == if cfg.mode == Cursor then NextOf(reply) else ""
  {
    assert (replies + [reply])[..|replies|] == replies;
  }

  /** The run has not come to an end. */
  predicate CanGoOn(cfg: Config, limit: int, replies: seq<Reply>) {
    replies == [] || GoesOn(cfg, limit, replies[..|replies| - 1], replies[|replies| - 1])
  }

  lemma LoggedSnoc(
      cfg: Config, limit: int, server: (nat, Params) -> Body, sent: seq<Params>, replies: seq<Reply>, params: Params,
      reply: Reply)
    requires Logged(cfg, limit, server, sent, replies) && CanGoOn(cfg, limit, replies)
    requires params == Request(cfg, limit, replies) && reply == Extract(server(|replies|, params))
    ensures Logged(cfg, limit, server, sent + [params], replies + [reply])
  {
    hide Request, GoesOn;
    var all := replies + [reply];
    forall i | 0 <= i < |all|
      ensures (sent + [params])[i] == Request(cfg, limit, all[..i])
      ensures i < |all| - 1 ==> GoesOn(cfg, limit, all[..i], all[i])
    {
      assert all[..i] == replies[..i];
      assert i == |replies| ==> replies[..i] == replies;
    }
  }

  datatype Verdict = More(cursor: string) | Finished | Broken

  /** What one request may lead to. */
  ghost predicate PageDone(
      cfg: Config, limit: int, server: (nat, Params) -> Body, l: seq<string>, replies: seq<Reply>,
      params: Params, reply: Reply, all: seq<string>, v: Verdict)
  {
    && params == Request(cfg, limit, replies) && reply == Extract(server(|replies|, params))
    && (match v
        case Broken => Breaks(cfg, limit, replies, reply)
        case Finished => Completes(cfg, limit, replies, reply) && all == Cut(Received(replies + [reply]), limit)
        case More(next) =>
          && GoesOn(cfg, limit, replies, reply) && next == CursorAfter(cfg, replies + [reply])
          && all == Received(replies + [reply]) && (limit > 0 ==> |all| < limit)
          && (cfg.mode == Cursor ==> next !in {"", CursorAfter(cfg, replies)}))
    && (Pageable(cfg, l) && Truthful(cfg, server, l) && Tiled(cfg, l, |replies|, Received(replies)) ==>
          !v.Broken? && (v.More? ==> Tiled(cfg, l, |replies| + 1, all)) && (v.Finished? ==> all == Cut(l, limit)))
  }

  /** One request: its parameters, the items collected after it, and whether to go on. */
  method ExportPage(
      cfg: Config, limit: int, server: (nat, Params) -> Body, page: nat, cursor: string, before: seq<string>,
      ghost replies: seq<Reply>, ghost l: seq<string>)
      returns (params: Params, reply: Reply, all: seq<string>, v: Verdict)
    requires page <= MAX_PAGE && (limit > 0 ==> |before| < limit)
    requires |replies| == page && before == Received(replies) && cursor == CursorAfter(cfg, replies)
    ensures PageDone(cfg, limit, server, l, replies, params, reply, all, v)
  {
    hide PageParams, Truthful, Pageable, Tiled, Span, Atoi, At, Stride, Asked, Cut, Extract, IsShort, Received,
      NextCursor;
    var remaining := if limit > 0 then limit - |before| else 0;
    params := PageParams(cfg, cursor, page, remaining);
    assert params == Request(cfg, limit, replies);
    reply := Extract(server(page, params));
    ReceivedSnoc(replies, reply);
    ghost var tiles := Pageable(cfg, l) && Truthful(cfg, server, l) && Tiled(cfg, l, page, before);
    if tiles {
      ByOffsetOrNumber(cfg, l);
      TruthfulAnswer(cfg, server, l, cursor, page, remaining);
    }
    if reply.Failed? {
      return params, reply, before, Broken;
    }
    var items := ItemsOf(reply);
    all := Append(before, items, limit);
    CutReaches(before + items, limit);
    if tiles {
      PageTiles(cfg, l, limit, page, before, Asked(cfg, remaining), all);
    }
    if cfg.mode == NoPaging || |items| == 0 || (limit > 0 && |all| >= limit) {
      return params, reply, all, Finished;
    }
    var hasMore := reply.Page? && reply.hasMore;
    Judged(cfg, limit, replies, reply);
    hide Completes, Breaks, GoesOn;
    match NextCursor(cfg, cursor, if reply.Page? then reply.next else "", hasMore) {
      case Stuck => return params, reply, all, Broken;
      case Done => return params, reply, all, Finished;
      case Go(next) => v := More(next);
    }
    if cfg.limitParam != "" && !hasMore {
      var requested := if cfg.limitParam in params then Atoi(params[cfg.limitParam]).GetOr(0) else 0;
      if requested > 0 && |items| < requested {
        v := Finished;
      }
    }
  }

  /** A page that neither ends the collection nor reaches the limit is judged by its cursor and its length. */
  lemma Judged(cfg: Config, limit: int, before: seq<Reply>, reply: Reply)
    requires cfg.mode != NoPaging && !reply.Failed? && ItemsOf(reply) != [] && !LimitReached(limit, before + [reply])
    ensures
      var request, current, hasMore := Request(cfg, limit, before), CursorAfter(cfg, before), OffersMore(reply);
      var requested := if cfg.limitParam in request then Atoi(request[cfg.limitParam]).GetOr(0) else 0;
      match NextCursor(cfg, current, NextOf(reply), hasMore)
      case Stuck => Breaks(cfg, limit, before, reply) && cfg.mode == Cursor
      case Done => Completes(cfg, limit, before, reply) && cfg.mode == Cursor
      case Go(next) =>
        && (cfg.mode == Cursor ==> next == NextOf(reply) && next !in {"", current})
        && (cfg.mode != Cursor ==> next == current)
        && (if cfg.limitParam != "" && !hasMore && requested > 0 && |ItemsOf(reply)| < requested
            then Completes(cfg, limit, before, reply)
            else GoesOn(cfg, limit, before, reply))
  {
    hide Request, LimitReached, CursorAfter, Atoi;
  }

  lemma CutReaches(all: seq<string>, limit: int)
    ensures |Cut(all, limit)| <= |all| && (limit > 0 ==> (|Cut(all, limit)| >= limit <==> |all| >= limit))
    ensures limit <= 0 || |all| < limit ==> Cut(all, limit) == all
  {
  }

  lemma ByOffsetOrNumber(cfg: Config, l: seq<string>)
    requires Pageable(cfg, l)
    ensures cfg.mode == Offset || cfg.mode == PageNumber
    ensures cfg.limitParam != ""
  {
  }

  /** What holds before another request. */
  ghost predicate Going(
      cfg: Config, limit: int, server: (nat, Params) -> Body, l: seq<string>, sent: seq<Params>, replies: seq<Reply>,
      all: seq<string>, cursor: string)
  {
    && Logged(cfg, limit, server, sent, replies) && CanGoOn(cfg, limit, replies)
    && all == Received(replies) && cursor == CursorAfter(cfg, replies)
    && (limit > 0 ==> |all| < limit)
    && (Pageable(cfg, l) && Truthful(cfg, server, l) ==> Tiled(cfg, l, |sent|, all))
    && (SendsCursors(cfg) ==>
          CursorsMove(cfg, sent) && (|sent| > 0 ==> cursor != "" && cursor != CursorSent(cfg, sent[|sent| - 1])))
  }

  predicate SendsCursors(cfg: Config) {
    cfg.mode == Cursor && cfg.cursorParam !in {"", cfg.limitParam}
  }

  /** How a run ends: what is exported is what was received, as soon as the last answer completes it. */
  ghost predicate Ends(cfg: Config, limit: int, replies: seq<Reply>, r: Result)
    requires replies != []
  {
    var before, last := replies[..|replies| - 1], replies[|replies| - 1];
    match r
    case Exported(items) => Completes(cfg, limit, before, last) && items == Cut(Received(replies), limit)
    case Failure => Breaks(cfg, limit, before, last) || (CanGoOn(cfg, limit, replies) && |replies| == MAX_PAGE + 1)
  }

  /** Against a truthful server the export is the list, up to the limit, unless it is too long to be paged through. */
  ghost predicate EndsTruthfully(
      cfg: Config, limit: int, server: (nat, Params) -> Body, l: seq<string>, requests: nat, r: Result)
  {
    Pageable(cfg, l) && Truthful(cfg, server, l) ==>
      match r
      case Exported(items) => items == Cut(l, limit)
      case Failure => requests == MAX_PAGE + 1 && |l| >= At(cfg, MAX_PAGE + 1)
  }

  lemma Start(cfg: Config, limit: int, server: (nat, Params) -> Body, l: seq<string>)
    ensures Going(cfg, limit, server, l, [], [], [], "")
  {
  }

  /** What a page leads to. */
  lemma Step(
      cfg: Config, limit: int, server: (nat, Params) -> Body, l: seq<string>, sent: seq<Params>, replies: seq<Reply>,
      all: seq<string>, cursor: string, params: Params, reply: Reply, collected: seq<string>, v: Verdict)
    requires Going(cfg, limit, server, l, sent, replies, all, cursor) && |sent| <= MAX_PAGE
    requires PageDone(cfg, limit, server, l, replies, params, reply, collected, v)
    ensures Logged(cfg, limit, server, sent + [params], replies + [reply])
    ensures SendsCursors(cfg) ==> CursorsMove(cfg, sent + [params])
    ensures
      var requests := |sent| + 1;
      match v
      case Broken =>
        Ends(cfg, limit, replies + [reply], Failure) && EndsTruthfully(cfg, limit, server, l, requests, Failure)
      case Finished =>
        Ends(cfg, limit, replies + [reply], Exported(collected))
          && EndsTruthfully(cfg, limit, server, l, requests, Exported(collected))
      case More(next) =>
        && Going(cfg, limit, server, l, sent + [params], replies + [reply], collected, next)
        && (requests > MAX_PAGE ==>
              Ends(cfg, limit, replies + [reply], Failure) && EndsTruthfully(cfg, limit, server, l, requests, Failure))
  {
    hide Received, CursorAfter, Completes, Breaks, GoesOn, Request, PageParams, Truthful, Pageable, Tiled, Cut,
      CursorSent, CursorsMove, At;
    LoggedSnoc(cfg, limit, server, sent, replies, params, reply);
    IsRequest(cfg, limit, cursor, replies);
    assert (replies + [reply])[..|sent|] == replies && (replies + [reply])[|sent|] == reply;
    TooLong(cfg, l, |sent| + 1, collected);
    if SendsCursors(cfg) {
      SendsCursor(cfg, cursor, |sent|, if limit > 0 then limit - |all| else 0);
      CursorsSnoc(cfg, sent, params);
    }
  }

  /** The collection loop; for a single item the command prints the payload of one request. */
  method ExportAll(cfg: Config, limit: int, server: (nat, Params) -> Body, ghost l: seq<string>)
      returns (r: Result, sent: seq<Params>, ghost replies: seq<Reply>)
    ensures 0 < |sent| <= MAX_PAGE + 1 && Logged(cfg, limit, server, sent, replies) && Ends(cfg, limit, replies, r)
    // A cursor is never sent twice running.
    ensures SendsCursors(cfg) ==> CursorsMove(cfg, sent)
    ensures EndsTruthfully(cfg, limit, server, l, |sent|, r)
  {
    Start(cfg, limit, server, l);
    hide Going, Ends, EndsTruthfully, CursorsMove, Logged, PageDone, Received, CursorAfter, SendsCursors;
    var all: seq<string> := [];
    var page, cursor := 0, "";
    sent, replies := [], [];
    while true
      invariant page == |sent| <= MAX_PAGE
      invariant Going(cfg, limit, server, l, sent, replies, all, cursor)
      decreases MAX_PAGE - page
    {
      StillWanted(cfg, limit, server, l, sent, replies, all, cursor);
      var params, reply, collected, v := ExportPage(cfg, limit, server, page, cursor, all, replies, l);
      Step(cfg, limit, server, l, sent, replies, all, cursor, params, reply, collected, v);
      sent, replies := sent + [params], replies + [reply];
      match v {
        case Broken => return Failure, sent, replies;
        case Finished => return Exported(collected), sent, replies;
        case More(next) => all, cursor, page := collected, next, page + 1;
      }
      if page > MAX_PAGE {
        return Failure, sent, replies;
      }
    }
  }

  lemma StillWanted(
      cfg: Config, limit: int, server: (nat, Params) -> Body, l: seq<string>, sent: seq<Params>, replies: seq<Reply>,
      all: seq<string>, cursor: string)
    requires Going(cfg, limit, server, l, sent, replies, all, cursor)
    ensures limit > 0 ==> |all| < limit
    ensures |replies| == |sent| && all == Received(replies) && cursor == CursorAfter(cfg, replies)
  {
  }

  // ----- What a well-ended run can leave behind

  /** A page that offers more completes the run exactly when nothing pages, the page is empty or the limit is reached:
      in every other case the rest is fetched or the run fails. */
  lemma EndsWhileMoreIff(cfg: Config, limit: int, before: seq<Reply>, last: Reply)
    requires OffersMore(last)
    ensures Completes(cfg, limit, before, last)
       <==> cfg.mode == NoPaging || ItemsOf(last) == [] || LimitReached(limit, before + [last])
  {
  }

  /** A run whose last answer offers more succeeds exactly when nothing pages, that answer is empty or the limit is
      reached: only then is anything on offer left behind without an error. */
  lemma LeavesMoreIff(
      cfg: Config, limit: int, server: (nat, Params) -> Body, sent: seq<Params>, replies: seq<Reply>, r: Result)
    requires |sent| > 0 && Logged(cfg, limit, server, sent, replies) && Ends(cfg, limit, replies, r)
    requires OffersMore(replies[|replies| - 1])
    ensures r.Exported?
       <==> cfg.mode == NoPaging || ItemsOf(replies[|replies| - 1]) == [] || LimitReached(limit, replies)
  {
    hide Received, Request;
    var n := |replies| - 1;
    assert replies == replies[..n] + [replies[n]];
    EndsWhileMoreIff(cfg, limit, replies[..n], replies[n]);
  }

  /** No run over cursors ends well on a page that names one, but for an empty page or the limit. */
  lemma NoCursorIsDropped(
      cfg: Config, limit: int, server: (nat, Params) -> Body, sent: seq<Params>, replies: seq<Reply>, r: Result)
    requires |sent| > 0 && Logged(cfg, limit, server, sent, replies) && Ends(cfg, limit, replies, r)
    requires cfg.mode == Cursor && r.Exported? && NextOf(replies[|replies| - 1]) != ""
    ensures ItemsOf(replies[|replies| - 1]) == [] || LimitReached(limit, replies)
  {
    LeavesMoreIff(cfg, limit, server, sent, replies, r);
  }

  /** A server whose second page is empty, though it names the cursor of a third: the export succeeds without it. */
  lemma EmptyPageHidesTheRest(
      cfg: Config, server: (nat, Params) -> Body, sent: seq<Params>, replies: seq<Reply>, r: Result)
    requires cfg.mode == Cursor && 0 < |sent| <= MAX_PAGE + 1
    requires forall i, p ::
      Extract(server(i, p)) == (if i == 0 then Page(["a"], "s", true)
                                else if i == 1 then Page([], "t", true)
                                else Page(["b"], "", false))
    requires Logged(cfg, 0, server, sent, replies) && Ends(cfg, 0, replies, r)
    ensures r == Exported(["a"]) && OffersMore(replies[|replies| - 1])
  {
    hide Request;
    var first, second := replies[0], Page([], "t", true);
    assert first == Page(["a"], "s", true);
    assert replies[..0] == [] && GoesOn(cfg, 0, [], first);
    assert Completes(cfg, 0, [first], second);
    if |replies| > 1 {
      assert replies[1] == second && replies[..1] == [first];
      assert |replies| == 2;
      assert Received([first]) == ["a"] by {
        assert [first][..0] == [];
      }
      assert replies[..2] == replies;
      assert replies == [first] + [second];
    }
  }

  // ----- What is read, sent and done, spelled out

  /** The cursor is the one at the declared path, else the first that any known key holds; a declared end silences both,
      and without a cursor the declared claim counts before the first that any known key makes. */
  lemma {:induction false} SignalsAre(s: Signals)
    ensures s.declared == Some(false) ==> ReadSignals(s) == ("", false)
    ensures s.declared != Some(false) && s.atPath != "" ==> ReadSignals(s) == (s.atPath, true)
    ensures s.declared != Some(false) && s.atPath == "" ==>
      forall i :: 0 <= i < |s.cursors| && s.cursors[i] != "" && (forall j :: 0 <= j < i ==> s.cursors[j] == "") ==>
        ReadSignals(s) == (s.cursors[i], true)
    ensures s.declared != Some(false) && s.atPath == "" && (forall i :: 0 <= i < |s.cursors| ==> s.cursors[i] == "") ==>
      ReadSignals(s) == ("", s.declared == Some(true) || (s.flags != [] && s.flags[0]))
  {
    FirstCursorIs(s.cursors);
  }

  lemma {:induction false} FirstCursorIs(cursors: seq<string>)
    ensures (forall i :: 0 <= i < |cursors| ==> cursors[i] == "") ==> FirstCursor(cursors) == ""
    ensures forall i :: 0 <= i < |cursors| && cursors[i] != "" && (forall j :: 0 <= j < i ==> cursors[j] == "") ==>
      FirstCursor(cursors) == cursors[i]
  {
    if cursors != [] {
      FirstCursorIs(cursors[1..]);
      forall i | 0 <= i < |cursors| && cursors[i] != "" && (forall j :: 0 <= j < i ==> cursors[j] == "")
        ensures FirstCursor(cursors) == cursors[i]
      {
        if i > 0 {
          assert cursors[0] == "" && cursors[1..][i - 1] == cursors[i];
          assert forall j :: 0 <= j < i - 1 ==> cursors[1..][j] == cursors[j + 1];
        }
      }
    }
  }

  /** The cursor named by the answer before request `i`, "" for none. */
  function Named(replies: seq<Reply>, i: nat): string
    requires i <= |replies|
  {
    if i > 0 && replies[i - 1].Page? then replies[i - 1].next else ""
  }

  /** Request `i`, with `got` elements received, carries how much is asked for, trimmed to what the limit leaves unless
      pages are numbered, and where: the offset in whole pages, the page number from one, or the cursor last named.
      Nothing else is sent, and where nothing pages, nothing at all. */
  predicate Carries(cfg: Config, limit: int, i: nat, got: nat, named: string, p: Params) {
    var size, left := if cfg.pageSize > 0 then cfg.pageSize else 100, limit - got;
    var count := if limit > 0 && cfg.mode != PageNumber && left < size then left else size;
    if cfg.mode == NoPaging then p == map[]
    else
      && p.Keys <= {cfg.limitParam, cfg.cursorParam} - {""}
      && (cfg.limitParam != "" ==> cfg.limitParam in p && p[cfg.limitParam] == Itoa(count))
      && (cfg.cursorParam != "" ==>
            match cfg.mode
            case Offset => cfg.cursorParam in p && p[cfg.cursorParam] == Itoa(i * size)
            case PageNumber => cfg.cursorParam in p && p[cfg.cursorParam] == Itoa(i + 1)
            case _ => (cfg.cursorParam in p <==> named != "") && (named != "" ==> p[cfg.cursorParam] == named))
  }

  lemma RequestCarries(
      cfg: Config, limit: int, server: (nat, Params) -> Body, sent: seq<Params>, replies: seq<Reply>, i: nat)
    requires Logged(cfg, limit, server, sent, replies) && i < |sent|
    requires cfg.cursorParam != cfg.limitParam || cfg.cursorParam == ""
    ensures |replies| == |sent|
    ensures Carries(cfg, limit, i, |Received(replies[..i])|, Named(replies, i), sent[i])
    ensures cfg.mode == Cursor && i > 0 ==> Named(replies, i) != ""
  {
    hide *;
    LoggedAt(cfg, limit, server, sent, replies, i);
    NothingReceived();
    if i > 0 {
      assert replies[..i] == replies[..i - 1] + [replies[i - 1]];
      WentOnFrom(cfg, limit, replies, i - 1);
      LeavesSome(cfg, limit, replies[..i - 1], replies[i - 1]);
    } else {
      assert replies[..i] == [];
    }
    CarriesWhat(cfg, limit, replies[..i]);
    assert Named(replies, i) == Named(replies[..i], i) by {
      hide *;
      SameNamed(replies, i);
    }
  }

  lemma SameNamed(replies: seq<Reply>, i: nat)
    requires i <= |replies|
    ensures Named(replies, i) == Named(replies[..i], i)
  {
  }

  lemma LeavesSome(cfg: Config, limit: int, before: seq<Reply>, last: Reply)
    requires GoesOn(cfg, limit, before, last)
    ensures 0 < limit ==> |Received(before + [last])| < limit
  {
    hide Received, Request;
  }

  lemma CarriesWhat(cfg: Config, limit: int, before: seq<Reply>)
    requires cfg.cursorParam != cfg.limitParam || cfg.cursorParam == ""
    requires limit > 0 ==> |Received(before)| < limit
    ensures Carries(cfg, limit, |before|, |Received(before)|, Named(before, |before|), Request(cfg, limit, before))
  {
    hide Received, Itoa;
  }

  lemma NothingReceived()
    ensures Received([]) == []
  {
  }

  /** With `got` elements received, an answer to `request` ends the run well: it brings nothing, reaches the limit, or
      claims no more and, where the client counts the pages itself, is shorter than was asked. */
  predicate IsDone(cfg: Config, limit: int, request: Params, got: nat, reply: Reply) {
    var asked :=
      if cfg.limitParam != "" && cfg.limitParam in request then Atoi(request[cfg.limitParam]).GetOr(0) else 0;
    && !reply.Failed?
    && (|| cfg.mode == NoPaging || ItemsOf(reply) == [] || 0 < limit <= got
        || (!(reply.Page? && reply.hasMore) && (cfg.mode == Cursor || |ItemsOf(reply)| < asked)))
  }

  lemma IsDoneIff(cfg: Config, limit: int, before: seq<Reply>, last: Reply)
    ensures Completes(cfg, limit, before, last)
       <==> IsDone(cfg, limit, Request(cfg, limit, before), |Received(before + [last])|, last)
  {
    hide Received, Request, Atoi;
  }

  /** A run goes on from each answer but the last: none of them is done, a failure, or, over cursors, without a cursor
      other than the one before it. It ends well exactly when the last answer is done. */
  lemma AnswerLeadsTo(
      cfg: Config, limit: int, server: (nat, Params) -> Body, sent: seq<Params>, replies: seq<Reply>, r: Result, i: nat)
    requires Logged(cfg, limit, server, sent, replies) && i < |sent| && Ends(cfg, limit, replies, r)
    ensures |replies| == |sent|
    ensures i < |sent| - 1 ==>
      && !replies[i].Failed? && (cfg.mode == Cursor ==> Named(replies, i + 1) !in {"", Named(replies, i)})
      && !IsDone(cfg, limit, sent[i], |Received(replies[..i + 1])|, replies[i])
    ensures i == |sent| - 1 ==> (r.Exported? <==> IsDone(cfg, limit, sent[i], |Received(replies)|, replies[i]))
  {
    hide *;
    LoggedAt(cfg, limit, server, sent, replies, i);
    IsDoneIff(cfg, limit, replies[..i], replies[i]);
    assert replies[..i + 1] == replies[..i] + [replies[i]];
    if i == |sent| - 1 {
      assert replies == replies[..i + 1];
      ExportedIff(cfg, limit, replies, r);
    } else {
      WentOnFrom(cfg, limit, replies, i);
    }
  }

  lemma ExportedIff(cfg: Config, limit: int, replies: seq<Reply>, r: Result)
    requires replies != [] && Ends(cfg, limit, replies, r)
    ensures r.Exported? <==> Completes(cfg, limit, replies[..|replies| - 1], replies[|replies| - 1])
  {
    hide Completes, Received;
    CompletesIsNoFailure(cfg, limit, replies[..|replies| - 1], replies[|replies| - 1]);
  }

  lemma CompletesIsNoFailure(cfg: Config, limit: int, before: seq<Reply>, last: Reply)
    ensures Completes(cfg, limit, before, last) ==> !Breaks(cfg, limit, before, last)
  {
  }

  lemma WentOnFrom(cfg: Config, limit: int, replies: seq<Reply>, i: nat)
    requires i < |replies| && GoesOn(cfg, limit, replies[..i], replies[i])
    ensures !Completes(cfg, limit, replies[..i], replies[i]) && !replies[i].Failed?
    ensures cfg.mode == Cursor ==> Named(replies, i + 1) !in {"", Named(replies, i)}
  {
    hide Completes;
  }

  // ----- A chain of cursors

  /** The cursor that asks for page `i` of a chain. */
  function CursorTo(tokens: seq<string>, i: nat): string
    requires i <= |tokens|
  {
    if i == 0 then "" else tokens[i - 1]
  }

  /** The answer is page `i` of the chain, with the cursor of the next, or as much of it as was still wanted. */
  predicate IsLink(pages: seq<seq<string>>, tokens: seq<string>, i: nat, remaining: int, r: Reply)
    requires |pages| == |tokens| + 1 && i < |pages|
  {
    && r.Page?
    && (IsWholeLink(pages, tokens, i, r) || (0 < remaining < |pages[i]| && r.items == pages[i][..remaining]))
  }

  predicate IsWholeLink(pages: seq<seq<string>>, tokens: seq<string>, i: nat, r: Reply)
    requires |pages| == |tokens| + 1 && i < |pages|
  {
    r.Page? && r.items == pages[i] && if i < |tokens| then r.next == tokens[i] else r.next == "" && !r.hasMore
  }

  /** The server holds `pages`, each but the last with elements and naming the cursor of the next; no two cursors in a
      row are the same. */
  ghost predicate Chain(cfg: Config, server: (nat, Params) -> Body, pages: seq<seq<string>>, tokens: seq<string>) {
    && cfg.mode == Cursor && |pages| == |tokens| + 1
    && (forall i :: 0 <= i < |tokens| ==> pages[i] != [] && tokens[i] !in {"", CursorTo(tokens, i)})
    && (forall i, remaining :: 0 <= i < |pages| ==>
          IsLink(pages, tokens, i, remaining, Extract(server(i, PageParams(cfg, CursorTo(tokens, i), i, remaining)))))
  }

  /** Whether or not the last page was trimmed, the limit is reached as it would be by the whole page. */
  lemma LinkItems(got: seq<string>, page: seq<string>, items: seq<string>, all: seq<string>, limit: int)
    requires (limit > 0 ==> |got| < limit) && got + page <= all
    requires items == page || (limit > 0 && limit - |got| < |page| && items == page[..limit - |got|])
    ensures 0 < limit <= |got + items| <==> 0 < limit <= |got + page|
    ensures items == page || 0 < limit <= |got + page|
    ensures 0 < limit <= |got + page| || got + page == all ==> Cut(got + items, limit) == Cut(all, limit)
    ensures items == [] ==> page == []
  {
    if 0 < limit <= |got + page| {
      assert all[..limit] == (got + page)[..limit] == (got + items)[..limit];
    }
  }

  /** What page `i` leads to. */
  lemma LinkTaken(
      cfg: Config, limit: int, pages: seq<seq<string>>, tokens: seq<string>, i: nat, before: seq<Reply>, last: Reply)
    requires cfg.mode == Cursor && |pages| == |tokens| + 1 && i < |pages|
    requires forall j :: 0 <= j < |tokens| ==> pages[j] != [] && tokens[j] !in {"", CursorTo(tokens, j)}
    requires IsLink(pages, tokens, i, Remaining(limit, before), last) && CursorAfter(cfg, before) == CursorTo(tokens, i)
    requires Received(before) == Concat(pages[..i]) && !LimitReached(limit, before)
    ensures GoesOn(cfg, limit, before, last) <==> i < |tokens| && !LimitReached(limit, before + [last])
    ensures Completes(cfg, limit, before, last) <==> !GoesOn(cfg, limit, before, last)
    ensures !Breaks(cfg, limit, before, last)
    ensures LimitReached(limit, before + [last]) <==> 0 < limit <= |Concat(pages[..i + 1])|
    ensures GoesOn(cfg, limit, before, last) ==>
      Received(before + [last]) == Concat(pages[..i + 1])
        && CursorAfter(cfg, before + [last]) == CursorTo(tokens, i + 1)
    ensures Completes(cfg, limit, before, last) ==>
      Cut(Received(before + [last]), limit) == Cut(Concat(pages), limit)
  {
    hide Concat, Received, Cut, LimitReached, IsShort, Request, CursorAfter;
    LinkCounts(limit, pages, tokens, i, before, last);
    ReceivedSnoc(before, last);
    assert ItemsOf(last) == last.items;
  }

  /** The same, as far as it is about the elements. */
  lemma LinkCounts(limit: int, pages: seq<seq<string>>, tokens: seq<string>, i: nat, before: seq<Reply>, last: Reply)
    requires |pages| == |tokens| + 1 && i < |pages| && IsLink(pages, tokens, i, Remaining(limit, before), last)
    requires Received(before) == Concat(pages[..i]) && !LimitReached(limit, before)
    ensures var reached := LimitReached(limit, before + [last]);
            && (reached <==> 0 < limit <= |Concat(pages[..i + 1])|)
            && (!reached ==> IsWholeLink(pages, tokens, i, last) && Received(before + [last]) == Concat(pages[..i + 1]))
            && (reached || i == |tokens| ==> Cut(Received(before + [last]), limit) == Cut(Concat(pages), limit))
            && (last.items == [] ==> pages[i] == [])
  {
    ReceivedSnoc(before, last);
    ConcatSnoc(pages, i);
    ConcatPrefix(pages, i + 1);
    assert i == |tokens| ==> pages[..i + 1] == pages;
    LinkItems(Received(before), pages[i], last.items, Concat(pages), limit);
    hide Concat, Received, Cut;
    assert ItemsOf(last) == last.items;
  }

  /** Down a chain the requests follow its cursors and the answers are its pages. */
  lemma {:induction false} TakesLink(
      cfg: Config, limit: int, server: (nat, Params) -> Body, pages: seq<seq<string>>, tokens: seq<string>,
      sent: seq<Params>, replies: seq<Reply>, i: nat)
    requires Chain(cfg, server, pages, tokens) && Logged(cfg, limit, server, sent, replies) && i < |sent|
    ensures i < |pages| && IsLink(pages, tokens, i, Remaining(limit, replies[..i]), replies[i])
    ensures CursorAfter(cfg, replies[..i]) == CursorTo(tokens, i)
    ensures Received(replies[..i]) == Concat(pages[..i]) && !LimitReached(limit, replies[..i])
  {
    hide PageParams, Received, Concat, CursorAfter, GoesOn, Logged, LimitReached, IsLink;
    LoggedAt(cfg, limit, server, sent, replies, i);
    if i > 0 {
      var before, last := replies[..i - 1], replies[i - 1];
      TakesLink(cfg, limit, server, pages, tokens, sent, replies, i - 1);
      assert replies[..i] == before + [last];
      LinkTaken(cfg, limit, pages, tokens, i - 1, before, last);
    } else {
      NothingYet(cfg, limit, pages, tokens, replies);
    }
  }

  lemma LoggedAt(
      cfg: Config, limit: int, server: (nat, Params) -> Body, sent: seq<Params>, replies: seq<Reply>, i: nat)
    requires Logged(cfg, limit, server, sent, replies) && i < |sent|
    ensures |sent| == |replies| && replies[i] == Extract(server(i, Request(cfg, limit, replies[..i])))
    ensures sent[i] == Request(cfg, limit, replies[..i])
    ensures i > 0 ==> GoesOn(cfg, limit, replies[..i - 1], replies[i - 1])
    ensures i < |sent| - 1 ==> GoesOn(cfg, limit, replies[..i], replies[i])
  {
    hide Request, GoesOn;
  }

  lemma NothingYet(cfg: Config, limit: int, pages: seq<seq<string>>, tokens: seq<string>, replies: seq<Reply>)
    ensures CursorAfter(cfg, replies[..0]) == CursorTo(tokens, 0)
    ensures Received(replies[..0]) == Concat(pages[..0]) && !LimitReached(limit, replies[..0])
  {
  }

  /** `export` follows a chain of cursors to its end, up to the limit; it fails only if there are too many pages. */
  lemma ChainIsExported(
      cfg: Config, limit: int, server: (nat, Params) -> Body, pages: seq<seq<string>>, tokens: seq<string>,
      sent: seq<Params>, replies: seq<Reply>, r: Result)
    requires Chain(cfg, server, pages, tokens)
    requires 0 < |sent| <= MAX_PAGE + 1 && Logged(cfg, limit, server, sent, replies) && Ends(cfg, limit, replies, r)
    ensures r.Exported? ==> r.items == Cut(Concat(pages), limit)
    ensures r.Exported? <==> |pages| <= MAX_PAGE + 1 || 0 < limit <= |Concat(pages[..MAX_PAGE + 1])|
  {
    hide *;
    var n := LastLink(cfg, limit, server, pages, tokens, sent, replies);
    EndsAsLogged(cfg, limit, replies, n, r);
    if n < MAX_PAGE < |pages| {
      ConcatPrefix(pages[..MAX_PAGE + 1], n + 1);
      assert pages[..MAX_PAGE + 1][..n + 1] == pages[..n + 1];
    }
  }

  /** Where the run has got to in the chain when it ends. */
  lemma LastLink(
      cfg: Config, limit: int, server: (nat, Params) -> Body, pages: seq<seq<string>>, tokens: seq<string>,
      sent: seq<Params>, replies: seq<Reply>) returns (n: nat)
    requires Chain(cfg, server, pages, tokens) && Logged(cfg, limit, server, sent, replies) && |sent| > 0
    ensures |sent| == |replies| == n + 1 <= |pages| == |tokens| + 1
    ensures GoesOn(cfg, limit, replies[..n], replies[n])
       <==> n + 1 < |pages| && !(0 < limit <= |Concat(pages[..n + 1])|)
    ensures Completes(cfg, limit, replies[..n], replies[n]) <==> !GoesOn(cfg, limit, replies[..n], replies[n])
    ensures !Breaks(cfg, limit, replies[..n], replies[n])
    ensures Completes(cfg, limit, replies[..n], replies[n]) ==>
      Cut(Received(replies), limit) == Cut(Concat(pages), limit)
  {
    hide *;
    n := |sent| - 1;
    ChainFacts(cfg, server, pages, tokens);
    LoggedAt(cfg, limit, server, sent, replies, n);
    TakesLink(cfg, limit, server, pages, tokens, sent, replies, n);
    LinkTaken(cfg, limit, pages, tokens, n, replies[..n], replies[n]);
    assert replies == replies[..n] + [replies[n]];
  }

  lemma EndsAsLogged(cfg: Config, limit: int, replies: seq<Reply>, n: nat, r: Result)
    requires |replies| == n + 1 && Ends(cfg, limit, replies, r)
    ensures r.Exported? ==> Completes(cfg, limit, replies[..n], replies[n]) && r.items == Cut(Received(replies), limit)
    ensures r.Failure? ==>
      Breaks(cfg, limit, replies[..n], replies[n]) || (GoesOn(cfg, limit, replies[..n], replies[n]) && n == MAX_PAGE)
  {
    hide Completes, Breaks, GoesOn, Received, Cut;
  }

  lemma ChainFacts(cfg: Config, server: (nat, Params) -> Body, pages: seq<seq<string>>, tokens: seq<string>)
    requires Chain(cfg, server, pages, tokens)
    ensures cfg.mode == Cursor && |pages| == |tokens| + 1
    ensures forall j :: 0 <= j < |tokens| ==> pages[j] != [] && tokens[j] !in {"", CursorTo(tokens, j)}
  {
  }
}

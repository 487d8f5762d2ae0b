/** What a run of `--all` sends and how it ends, spelled out parameter by parameter and answer by answer. */
module Requests {
  import opened Basics
  import opened Numerals
  import opened Pagination
  import opened Truncation

  // ----- What is sent

  /** Every parameter of the caller's that is not blank, and nothing else, goes out unchanged with every request. */
  lemma CallerParamsAreSent(
      cfg: Config, params: Params, server: (nat, Params) -> Body, sent: seq<Params>, bodies: seq<Body>, i: nat,
      key: string)
    requires Logged(cfg, params, server, sent, bodies) && i < |sent| && key !in {cfg.cursorParam, cfg.limitParam}
    ensures key in sent[i] <==> key in params && params[key] != ""
    ensures key in sent[i] ==> sent[i][key] == params[key]
  {
    LoggedAt(cfg, params, server, sent, bodies, i);
    hide Logged, GoesOn, AsksForLimit;
  }

  /** Nothing but the cursor changes from request to request. */
  lemma OnlyCursorMoves(
      cfg: Config, params: Params, server: (nat, Params) -> Body, sent: seq<Params>, bodies: seq<Body>, i: nat,
      key: string)
    requires Logged(cfg, params, server, sent, bodies) && i < |sent| && key != cfg.cursorParam
    ensures key in sent[i] <==> key in sent[0]
    ensures key in sent[i] ==> sent[i][key] == sent[0][key]
  {
    LoggedAt(cfg, params, server, sent, bodies, i);
    hide Logged, GoesOn, FirstParams;
  }

  /** The run begins at the caller's cursor, but for a blank one, or a zero that is no offset. */
  lemma BeginsAtCallersCursor(
      cfg: Config, params: Params, server: (nat, Params) -> Body, sent: seq<Params>, bodies: seq<Body>)
    requires Logged(cfg, params, server, sent, bodies) && (cfg.mode == Cursor || cfg.cursorParam != cfg.limitParam)
    ensures cfg.cursorParam in sent[0] <==>
      cfg.cursorParam in params && params[cfg.cursorParam] != "" &&
      (cfg.mode == Offset || params[cfg.cursorParam] != "0")
    ensures cfg.cursorParam in sent[0] ==> sent[0][cfg.cursorParam] == params[cfg.cursorParam]
  {
    hide AskedFor, GoodSoFar, AsksForLimit;
  }

  /** The caller asks for pages of a size of their own. */
  predicate AsksForSize(cfg: Config, params: Params) {
    && cfg.limitParam in params
    && var asked := Atoi(params[cfg.limitParam]); asked.Some? && asked.value > 0
  }

  /** A caller's page size goes out as it was given, with every request; where there is none, the default does. In
      cursor mode none is made up. */
  lemma LimitIsSent(
      cfg: Config, params: Params, server: (nat, Params) -> Body, sent: seq<Params>, bodies: seq<Body>, i: nat)
    requires Logged(cfg, params, server, sent, bodies) && i < |sent| && cfg.limitParam !in {"", cfg.cursorParam}
    ensures
      var made := cfg.mode != Cursor && !AsksForSize(cfg, params) && cfg.defaultPageSize > 0;
      if made then cfg.limitParam in sent[i] && sent[i][cfg.limitParam] == Itoa(cfg.defaultPageSize)
      else
        && (cfg.limitParam in sent[i] <==> cfg.limitParam in params && params[cfg.limitParam] != "")
        && (cfg.limitParam in sent[i] ==> sent[i][cfg.limitParam] == params[cfg.limitParam])
  {
    LoggedAt(cfg, params, server, sent, bodies, i);
    hide Logged, GoesOn, Itoa, Atoi;
    BlankIsNoNumber();
  }

  lemma BlankIsNoNumber()
    ensures Atoi("") == None && Atoi("0") == Some(0)
  {
  }

  /** The size pages are judged by. */
  lemma SizeIs(cfg: Config, params: Params)
    ensures SizeOf(cfg, params) ==
      if cfg.mode == Cursor then 0
      else if cfg.limitParam != "" && AsksForSize(cfg, params) then Atoi(params[cfg.limitParam]).value
      else cfg.defaultPageSize
  {
    hide Atoi;
    BlankIsNoNumber();
  }

  /** The index or page number a request carries, the first one if it carries none. */
  function CurrentNumber(cfg: Config, clean: Params): Option<int> {
    if cfg.cursorParam in clean && clean[cfg.cursorParam] != "" then Atoi(clean[cfg.cursorParam])
    else Some(if cfg.mode == PageNumber then 1 else 0)
  }

  /** From one request to the next: the cursor named, else the next page number, else the offset moved on by the page
      size, or where there is none by what was received, and past an empty page by one. */
  predicate IsNext(cfg: Config, size: int, clean: Params, body: Body, next: Params) {
    if body.Object? && body.page.next != "" then next == clean[cfg.cursorParam := body.page.next]
    else
      var current, count := CurrentNumber(cfg, clean), |ItemsOf(body)|;
      var step := if cfg.mode == PageNumber then 1 else if size > 0 then size else if count > 0 then count else 1;
      && cfg.mode != Cursor && cfg.cursorParam != "" && current.Some?
      && next == clean[cfg.cursorParam := Itoa(Wrap(current.value + step))]
  }

  lemma NextRequestIs(
      cfg: Config, params: Params, server: (nat, Params) -> Body, sent: seq<Params>, bodies: seq<Body>, i: nat)
    requires Logged(cfg, params, server, sent, bodies) && i + 1 < |sent|
    ensures |bodies| == |sent| && IsNext(cfg, SizeOf(cfg, params), sent[i], bodies[i], sent[i + 1])
  {
    LoggedAt(cfg, params, server, sent, bodies, i + 1);
    hide *;
    NextIs(cfg, SizeOf(cfg, params), sent[i], bodies[..i + 1], sent[i + 1]);
    assert bodies[..i + 1][|bodies[..i + 1]| - 1] == bodies[i];
  }

  lemma NextIs(cfg: Config, size: int, clean: Params, bodies: seq<Body>, next: Params)
    requires bodies != [] && GoesOn(cfg, size, clean, bodies, next)
    ensures IsNext(cfg, size, clean, bodies[|bodies| - 1], next)
  {
    hide RepeatsLast, AllItems, LastTotal, Atoi, Itoa;
    FirstNumbers();
  }

  lemma FirstNumbers()
    ensures Atoi("0") == Some(0) && Atoi("1") == Some(1)
  {
  }

  // ----- How it ends

  /** The last collection received before answer `n` is the same, and the answer does not move on: a bare array and an
      offset page cannot say that it does, any other page only by a token that differs from the cursor sent. */
  ghost predicate SamePageAgain(cfg: Config, clean: Params, bodies: seq<Body>)
    requires bodies != []
  {
    var n, last := |bodies| - 1, bodies[|bodies| - 1];
    var path := if cfg.nextCursorPath == "" && cfg.mode == Cursor then cfg.cursorParam else cfg.nextCursorPath;
    var sent := if cfg.cursorParam in clean then clean[cfg.cursorParam] else "";
    && HasItems(last)
    && (exists j :: 0 <= j < n && HasItems(bodies[j]) && ItemsOf(bodies[j]) == ItemsOf(last)
          && forall k :: j < k < n ==> !HasItems(bodies[k]))
    && (last.Bare? || cfg.mode == Offset || (path != "" && last.page.token in {"", sent}))
  }

  lemma SamePageAgainIff(cfg: Config, clean: Params, bodies: seq<Body>)
    requires bodies != []
    ensures RepeatsLast(cfg, clean, bodies) <==> SamePageAgain(cfg, clean, bodies)
  {
    PreviousIs(bodies[..|bodies| - 1]);
  }

  lemma {:induction false} PreviousIs(bodies: seq<Body>)
    ensures forall items :: PreviousItems(bodies) == Some(items) <==>
      exists j :: 0 <= j < |bodies| && HasItems(bodies[j]) && ItemsOf(bodies[j]) == items
        && forall k :: j < k < |bodies| ==> !HasItems(bodies[k])
  {
    if bodies != [] {
      PreviousIs(bodies[..|bodies| - 1]);
    }
  }

  /** The last total told is that of the last answer to tell one. */
  lemma {:induction false} LastTotalIs(bodies: seq<Body>)
    ensures LastTotal(bodies) == 0 <==> forall i :: 0 <= i < |bodies| && bodies[i].Object? ==> bodies[i].page.total <= 0
    ensures LastTotal(bodies) > 0 ==>
      exists i :: 0 <= i < |bodies| && bodies[i].Object? && bodies[i].page.total == LastTotal(bodies)
        && forall j :: i < j < |bodies| && bodies[j].Object? ==> bodies[j].page.total <= 0
  {
    if bodies != [] {
      var n := |bodies| - 1;
      LastTotalIs(bodies[..n]);
      assert forall j :: 0 <= j < n ==> bodies[..n][j] == bodies[j];
      if !TellsTotal(bodies[n]) && LastTotal(bodies[..n]) > 0 {
        var i :| 0 <= i < n && bodies[..n][i].Object? && bodies[..n][i].page.total == LastTotal(bodies[..n])
          && forall j :: i < j < n && bodies[..n][j].Object? ==> bodies[..n][j].page.total <= 0;
        assert bodies[i].Object? && bodies[i].page.total == LastTotal(bodies);
      }
    }
  }

  /** With `got` elements received and `told` the last total, there is more to ask for after this answer: it names a
      cursor; or the client can move the cursor on itself, and the answer says there is more, or says nothing and is no
      empty page while the total is not reached or a full page is all there is to go by. */
  predicate MoreToAsk(cfg: Config, size: int, clean: Params, got: nat, told: nat, body: Body) {
    match body
    case Bare(items) => CanStep(cfg, clean) && items != [] && |items| >= size
    case Object(page) =>
      var count := if page.items.Some? then |page.items.value| else 0;
      || page.next != ""
      || (CanStep(cfg, clean) &&
          if cfg.hasMoreField != "" && page.more.Some? then page.more.value
          else count > 0 && (got < told || (cfg.nextCursorPath == "" && cfg.hasMoreField == "" && count >= size)))
    case _ => false
  }

  lemma MoreToAskIff(cfg: Config, size: int, clean: Params, got: nat, told: nat, body: Body)
    ensures Asked(cfg, size, clean, got, told, body).Some? <==> MoreToAsk(cfg, size, clean, got, told, body)
  {
    hide Atoi, Itoa;
  }

  /** The last answer names the cursor sent first, or one that an earlier answer named. */
  ghost predicate SameCursorAgain(cfg: Config, sent: seq<Params>, bodies: seq<Body>)
    requires |sent| == |bodies| > 0
  {
    var n, last := |bodies| - 1, bodies[|bodies| - 1];
    && last.Object? && last.page.next != ""
    && (|| (cfg.cursorParam in sent[0] && sent[0][cfg.cursorParam] == last.page.next)
        || exists i :: 0 <= i < n && bodies[i].Object? && bodies[i].page.next == last.page.next)
  }

  lemma SameCursorAgainIff(cfg: Config, sent: seq<Params>, bodies: seq<Body>)
    requires |sent| == |bodies| > 0
    ensures CursorMetBefore(cfg, sent[0], bodies) <==> SameCursorAgain(cfg, sent, bodies)
  {
    var n, last := |bodies| - 1, bodies[|bodies| - 1];
    var before := bodies[..n];
    assert forall i :: 0 <= i < n ==> before[i] == bodies[i];
  }

  /** Each mark stands exactly when what it reports is so, and of the first four only the first that is: the last page
      came twice; its cursor was sent first or named before; there is more to ask for, after a hundred pages; the answer
      claims more but there is nothing to ask for. The fifth stands on the only page of a configuration that declares no
      way to page, if it names no cursor. */
  lemma MarkedFor(
      cfg: Config, params: Params, server: (nat, Params) -> Body, sent: seq<Params>, bodies: seq<Body>, r: Result)
    requires IsRun(cfg, params, server, sent, bodies, r) && r.Items?
    ensures |sent| == |bodies| > 0
    ensures
      var last, clean := bodies[|bodies| - 1], sent[|sent| - 1];
      var again, met := SamePageAgain(cfg, clean, bodies), SameCursorAgain(cfg, sent, bodies);
      var more := MoreToAsk(cfg, SizeOf(cfg, params), clean, |AllItems(bodies)|, LastTotal(bodies), last);
      && (PageRepeated in r.truncated <==> again)
      && (CursorRepeated in r.truncated <==> !again && met)
      && (MaxPages in r.truncated <==> !again && !met && more)
      && (CursorMissing in r.truncated <==>
            !again && !more && last.Object? && cfg.hasMoreField != "" && last.page.more == Some(true))
      && (SignalMissing in r.truncated <==>
            |bodies| == 1 && !(last.Object? && last.page.next != "") && cfg.mode == Cursor && cfg.nextCursorPath == ""
            && cfg.hasMoreField == "")
    ensures MaxPages in r.truncated ==> |bodies| == MAX_PAGES
  {
    LogLengths(cfg, params, server, sent, bodies);
    hide Logged, FailsFor, AllItems, LastTotal, PageSize, CleanParams, MoreToAsk, SamePageAgain, SameCursorAgain,
      FindingAfter, SizeOf;
    assert r.truncated == Marks(cfg, SizeOf(cfg, params), sent, bodies) by {
      MarksOf(cfg, params, server, sent, bodies, r);
    }
    FindingIs(cfg, SizeOf(cfg, params), sent, bodies);
  }

  lemma MarksOf(
      cfg: Config, params: Params, server: (nat, Params) -> Body, sent: seq<Params>, bodies: seq<Body>, r: Result)
    requires IsRun(cfg, params, server, sent, bodies, r) && r.Items?
    ensures |sent| == |bodies| > 0 && r.truncated == Marks(cfg, SizeOf(cfg, params), sent, bodies)
    ensures MaxPages in r.truncated ==> |bodies| == MAX_PAGES
  {
    LogLengths(cfg, params, server, sent, bodies);
    hide Logged, FailsFor, AllItems, Marks, PageSize, CleanParams;
  }

  lemma FindingIs(cfg: Config, size: int, sent: seq<Params>, bodies: seq<Body>)
    requires |sent| == |bodies| > 0
    ensures
      var last, clean := bodies[|bodies| - 1], sent[|sent| - 1];
      FindingAfter(cfg, size, sent, bodies) ==
        if SamePageAgain(cfg, clean, bodies) then Some(PageRepeated)
        else if SameCursorAgain(cfg, sent, bodies) then Some(CursorRepeated)
        else if MoreToAsk(cfg, size, clean, |AllItems(bodies)|, LastTotal(bodies), last) then Some(MaxPages)
        else if last.Object? && cfg.hasMoreField != "" && last.page.more == Some(true) then Some(CursorMissing)
        else None
  {
    var n, clean := |bodies| - 1, sent[|sent| - 1];
    hide AllItems, LastTotal, RepeatsLast, CursorMetBefore, Asked, MoreToAsk, SamePageAgain, SameCursorAgain;
    SamePageAgainIff(cfg, clean, bodies);
    SameCursorAgainIff(cfg, sent, bodies);
    MoreToAskIff(cfg, size, clean, |AllItems(bodies)|, LastTotal(bodies), bodies[n]);
    NamedIsMore(cfg, size, clean, |AllItems(bodies)|, LastTotal(bodies), bodies[n]);
  }

  lemma NamedIsMore(cfg: Config, size: int, clean: Params, got: nat, told: nat, body: Body)
    ensures NamesCursor(body) ==> MoreToAsk(cfg, size, clean, got, told, body)
  {
  }

  /** A run goes on from an answer exactly as long as nothing is met again and there is more to ask for. */
  lemma WentOn(
      cfg: Config, params: Params, server: (nat, Params) -> Body, sent: seq<Params>, bodies: seq<Body>, i: nat)
    requires Logged(cfg, params, server, sent, bodies) && i + 1 < |sent|
    ensures |sent| == |bodies| && !bodies[i].Failed?
    ensures !SamePageAgain(cfg, sent[i], bodies[..i + 1]) && !SameCursorAgain(cfg, sent[..i + 1], bodies[..i + 1])
    ensures MoreToAsk(cfg, SizeOf(cfg, params), sent[i], |AllItems(bodies[..i + 1])|, LastTotal(bodies[..i + 1]),
      bodies[i])
  {
    LoggedAt(cfg, params, server, sent, bodies, i + 1);
    var size, seen := SizeOf(cfg, params), bodies[..i + 1];
    assert seen[|seen| - 1] == bodies[i] && sent[..i + 1][0] == sent[0];
    hide SamePageAgain, SameCursorAgain, MoreToAsk, AllItems, LastTotal, Asked, RepeatsLast, FirstParams, IsRequest,
      SizeOf, CursorMetBefore, AskedFor;
    assert !FailsFor(seen) && !CursorMetBefore(cfg, sent[0], seen);
    SamePageAgainIff(cfg, sent[i], seen);
    SameCursorAgainIff(cfg, sent[..i + 1], seen);
    MoreToAskIff(cfg, size, sent[i], |AllItems(seen)|, LastTotal(seen), bodies[i]);
  }

  /** A run fails exactly when its last request does, or brings a collection in another field than one before. */
  lemma FailsIff(
      cfg: Config, params: Params, server: (nat, Params) -> Body, sent: seq<Params>, bodies: seq<Body>, r: Result)
    requires IsRun(cfg, params, server, sent, bodies, r)
    ensures |bodies| > 0
    ensures r.Error? <==>
      var n, last := |bodies| - 1, bodies[|bodies| - 1];
      || last.Failed?
      || exists i :: 0 <= i < n && HasItems(bodies[i]) && HasItems(last) && EnvelopeOf(bodies[i]) != EnvelopeOf(last)
  {
    LogLengths(cfg, params, server, sent, bodies);
    hide Logged, AllItems, Marks, PageSize, CleanParams;
  }
}

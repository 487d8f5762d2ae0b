/** The limit/offset pagers behind the study-wide commands. */
module OffsetPagers {
  import opened Basics
  import opened Numerals

  /** One batch: its elements, and the limit and total the server echoes. */
  datatype Reply<+T> = Failed | Batch(items: seq<T>, limit: int, total: int)

  /** How a pager asks: its page size, and whether it judges a batch by the limit echoed or by the one it sent. */
  datatype Pager = Pager(page: nat, echo: bool)

  const INTERVIEWS := Pager(100, true)
  const TRANSCRIPTS := Pager(50, false)
  const DELIVERIES := Pager(200, true)
  const DEFAULT_CAP := 500

  /** The size a batch must reach for another to be asked for. */
  function Effective<T>(p: Pager, r: Reply<T>): int
    requires r.Batch?
  {
    if p.echo && r.limit > 0 then r.limit else p.page
  }

  function Span<T>(l: seq<T>, from: nat, count: nat): seq<T> {
    l[Min(from, |l|)..Min(from + count, |l|)]
  }

  /** Where batch number `i` begins. */
  function Offset(p: Pager, i: nat): nat {
    i * p.page
  }

  lemma OffsetNext(p: Pager, i: nat)
    ensures Offset(p, i + 1) == Offset(p, i) + p.page
    ensures Offset(p, 0) == 0
  {
  }

  /** The server pages through `l` but never serves more than `cap` at a time, and says so. */
  ghost predicate Capped<T(!new)>(server: (nat, nat, nat) -> Reply<T>, l: seq<T>, cap: nat) {
    forall i: nat, limit: nat, offset: nat ::
      server(i, limit, offset) == Batch(Span(l, offset, Min(cap, limit)), Min(cap, limit), |l|)
  }

  /** The run against such a server after `requests` batches. */
  ghost predicate CappedRun<T>(p: Pager, l: seq<T>, cap: nat, limit: nat, requests: nat, out: seq<T>) {
    if cap >= p.page then out == Span(l, 0, Offset(p, requests))
    else
      && (requests > 0 ==> |out| >= Min(cap, |l|) && out[..Min(cap, |l|)] == Span(l, 0, cap))
      && (requests == 1 ==> |out| == Min(cap, |l|))
      && (requests >= 2 ==> cap < |l| && cap < limit)
      && (|out| > cap ==> p.page < |l| && out[cap] == l[p.page])
  }

  /** What holds before another batch is asked for. */
  ghost predicate CappedSoFar<T>(p: Pager, l: seq<T>, cap: nat, limit: nat, requests: nat, offset: nat, out: seq<T>) {
    && CappedRun(p, l, cap, limit, requests, out) && |out| < limit
    && (requests == 0 ==> out == [] && offset == 0)
    && (requests == 1 ==> offset == p.page)
    && (requests > 0 ==> |out| < |l| && offset >= p.page && (cap < p.page ==> cap < |l|))
    && (cap < p.page && requests >= 2 ==> |out| > cap)
    && (cap >= p.page ==> |out| == offset == Offset(p, requests))
  }

  lemma CappedStep<T>(p: Pager, l: seq<T>, cap: nat, limit: nat, requests: nat, offset: nat, out: seq<T>)
    requires p.page > 0 && cap > 0 && CappedSoFar(p, l, cap, limit, requests, offset, out)
    ensures var batch := Span(l, offset, Min(cap, p.page));
            var all := out + batch;
            && CappedRun(p, l, cap, limit, requests + 1, all)
            && (cap >= p.page && (|batch| < p.page || |all| >= |l|) ==> |all| >= |l|)
            && (|batch| >= Min(cap, p.page) && |all| < |l| && |all| < limit ==>
                  CappedSoFar(p, l, cap, limit, requests + 1, offset + p.page, all))
  {
    var all := out + Span(l, offset, Min(cap, p.page));
    OffsetNext(p, requests);
    if cap < p.page && requests == 1 && |all| > cap {
      assert all[cap] == Span(l, p.page, cap)[0];
    }
  }

  /** What such a server's next batch leads to. */
  lemma CappedReply<T(!new)>(
      p: Pager, l: seq<T>, cap: nat, limit: nat, server: (nat, nat, nat) -> Reply<T>, requests: nat, offset: nat,
      out: seq<T>, reply: Reply<T>)
    requires p.page > 0 && cap > 0 && Capped(server, l, cap) && CappedSoFar(p, l, cap, limit, requests, offset, out)
    requires reply == server(requests, p.page, offset)
    ensures reply.Batch? && CappedRun(p, l, cap, limit, requests + 1, out + reply.items)
    ensures |reply.items| < Effective(p, reply) || |out + reply.items| >= Min(reply.total, limit) ==>
      cap >= p.page ==> |out + reply.items| >= Min(limit, |l|)
    ensures |reply.items| >= Effective(p, reply) && |out + reply.items| < Min(reply.total, limit) ==>
      CappedSoFar(p, l, cap, limit, requests + 1, offset + p.page, out + reply.items)
  {
    hide CappedRun, CappedSoFar, Span;
    CappedStep(p, l, cap, limit, requests, offset, out);
  }

  /** Everything received. */
  function Received<T>(replies: seq<Reply<T>>): seq<T> {
    if replies == [] then []
    else
      var last := replies[|replies| - 1];
      Received(replies[..|replies| - 1]) + if last.Batch? then last.items else []
  }

  /** Another batch is asked for: the last one was full, and neither the limit nor the total has been reached. */
  predicate WantsMore<T>(p: Pager, limit: nat, replies: seq<Reply<T>>)
    requires replies != []
  {
    var last, got := replies[|replies| - 1], |Received(replies)|;
    last.Batch? && |last.items| >= Effective(p, last) && got < last.total && got < limit
  }

  /** The batches at offsets 0, `page`, 2 * `page`, ... were asked for, each because the ones before left more to
      get. */
  ghost predicate Logged<T(!new)>(p: Pager, limit: nat, server: (nat, nat, nat) -> Reply<T>, replies: seq<Reply<T>>) {
    && (forall i :: 0 <= i < |replies| ==> replies[i] == server(i, p.page, Offset(p, i)))
    && (forall k :: 0 < k < |replies| ==> WantsMore(p, limit, replies[..k]))
  }

  lemma ReceivedSnoc<T>(replies: seq<Reply<T>>, reply: Reply<T>)
    ensures Received(replies + [reply]) == Received(replies) + if reply.Batch? then reply.items else []
  {
    assert (replies + [reply])[..|replies|] == replies;
  }

  lemma LoggedSnoc<T(!new)>(
      p: Pager, limit: nat, server: (nat, nat, nat) -> Reply<T>, replies: seq<Reply<T>>, reply: Reply<T>)
    requires Logged(p, limit, server, replies) && (replies != [] ==> WantsMore(p, limit, replies))
    requires reply == server(|replies|, p.page, Offset(p, |replies|))
    ensures Logged(p, limit, server, replies + [reply])
    ensures Received(replies + [reply]) == Received(replies) + if reply.Batch? then reply.items else []
    ensures WantsMore(p, limit, replies + [reply]) <==>
      reply.Batch? && |reply.items| >= Effective(p, reply) && |Received(replies + [reply])| < Min(reply.total, limit)
  {
    var all := replies + [reply];
    ReceivedSnoc(replies, reply);
    hide Received;
    assert all[..|replies|] == replies;
    forall k | 0 < k < |all|
      ensures WantsMore(p, limit, all[..k])
    {
      assert all[..k] == replies[..k];
      assert k == |replies| ==> replies[..k] == replies;
    }
  }

  /** What holds before another batch is asked for. */
  ghost predicate Going<T(!new)>(
      p: Pager, limit: nat, server: (nat, nat, nat) -> Reply<T>, l: seq<T>, cap: nat, replies: seq<Reply<T>>,
      all: seq<T>)
  {
    && Logged(p, limit, server, replies) && all == Received(replies) && (replies != [] ==> WantsMore(p, limit, replies))
    && |replies| <= |all| < limit && (!p.echo ==> Offset(p, |replies|) <= |all|)
    && (cap > 0 && Capped(server, l, cap) ==> CappedSoFar(p, l, cap, limit, |replies|, Offset(p, |replies|), all))
  }

  /** What holds at the end. Whatever the server says, what it sends is kept in order, until a batch fails or leaves
      nothing more to get; every batch but the last brings something. */
  ghost predicate Over<T(!new)>(
      p: Pager, limit: nat, server: (nat, nat, nat) -> Reply<T>, replies: seq<Reply<T>>, out: Option<seq<T>>)
  {
    && replies != [] && Logged(p, limit, server, replies) && !WantsMore(p, limit, replies)
    && (if replies[|replies| - 1].Failed? then out.None? else out == Some(Received(replies)))
    && |replies| <= limit && (!p.echo ==> Offset(p, |replies|) < limit + p.page)
  }

  /** Against a server that caps its batches. */
  ghost predicate CappedOver<T(!new)>(
      p: Pager, limit: nat, server: (nat, nat, nat) -> Reply<T>, l: seq<T>, cap: nat, requests: nat,
      out: Option<seq<T>>)
  {
    cap > 0 && Capped(server, l, cap) ==>
      && out.Some? && requests > 0 && CappedRun(p, l, cap, limit, requests, out.value)
      && (cap >= p.page ==> |out.value| >= Min(limit, |l|))
  }

  lemma Start<T(!new)>(p: Pager, limit: nat, server: (nat, nat, nat) -> Reply<T>, l: seq<T>, cap: nat)
    requires limit > 0
    ensures Going(p, limit, server, l, cap, [], []) && Offset(p, 0) == 0
  {
  }

  lemma Step<T(!new)>(
      p: Pager, limit: nat, server: (nat, nat, nat) -> Reply<T>, l: seq<T>, cap: nat, replies: seq<Reply<T>>,
      all: seq<T>,
      reply: Reply<T>)
    requires p.page > 0 && Going(p, limit, server, l, cap, replies, all)
    requires reply == server(|replies|, p.page, Offset(p, |replies|))
    ensures
      if reply.Failed? then
        Over(p, limit, server, replies + [reply], None) && CappedOver(p, limit, server, l, cap, |replies| + 1, None)
      else
        var after := all + reply.items;
        if |reply.items| < Effective(p, reply) || |after| >= Min(reply.total, limit)
        then Over(p, limit, server, replies + [reply], Some(after))
          && CappedOver(p, limit, server, l, cap, |replies| + 1, Some(after))
        else Going(p, limit, server, l, cap, replies + [reply], after)
  {
    hide CappedRun, CappedSoFar, Logged, Received, WantsMore, Offset, Capped;
    var requests := |replies|;
    OffsetNext(p, requests);
    LoggedSnoc(p, limit, server, replies, reply);
    if cap > 0 && Capped(server, l, cap) {
      CappedReply(p, l, cap, limit, server, requests, Offset(p, requests), all, reply);
    }
  }

  /** The loop the pagers share: batches at offsets 0, `page`, 2 * `page`, ... */
  method FetchBatches<T(!new)>(
      p: Pager, limit: nat, server: (nat, nat, nat) -> Reply<T>, ghost l: seq<T>, ghost cap: nat)
      returns (out: Option<seq<T>>, ghost replies: seq<Reply<T>>)
    requires p.page > 0 && limit > 0
    ensures Over(p, limit, server, replies, out)
    ensures CappedOver(p, limit, server, l, cap, |replies|, out)
    ensures cap >= p.page && Capped(server, l, cap) ==> out.Some? && |out.value| >= Min(limit, |l|)
  {
    replies := [];
    Start(p, limit, server, l, cap);
    hide Going, Over, CappedRun, Capped, Offset;
    var all: seq<T> := [];
    var requests, offset := 0, 0;
    while |all| < limit
      invariant |replies| == requests && offset == Offset(p, requests)
      invariant
        if |all| < limit then Going(p, limit, server, l, cap, replies, all)
        else Over(p, limit, server, replies, Some(all)) && CappedOver(p, limit, server, l, cap, requests, Some(all))
      decreases limit - |all|
    {
      OffsetNext(p, requests);
      var reply := server(requests, p.page, offset);
      Step(p, limit, server, l, cap, replies, all, reply);
      replies := replies + [reply];
      requests := requests + 1;
      if reply.Failed? {
        return None, replies;
      }
      all := all + reply.items;
      if |reply.items| < Effective(p, reply) || |all| >= reply.total {
        break;
      }
      offset := offset + p.page;
    }
    out := Some(all);
  }

  /** The limit in force: no limit means the default cap. */
  function LimitFor(asked: int): nat {
    if asked <= 0 then DEFAULT_CAP else asked
  }

  /** `deuteroListInterviews` and `deuteroBulkFetchTranscripts`: the batches, cut to the limit. Against a server that
      pages truthfully but caps its batches, the answer is right exactly when the cap does not bite: the offset moves
      on by the page that was asked for, not by what was served. */
  method FetchUpTo<T(!new)>(
      p: Pager, asked: int, server: (nat, nat, nat) -> Reply<T>, ghost l: seq<T>, ghost cap: nat)
      returns (out: Option<seq<T>>, ghost replies: seq<Reply<T>>)
    requires p.page > 0
    ensures Over(p, LimitFor(asked), server, replies, if out.None? then None else Some(Received(replies)))
    ensures out.Some? ==> out.value == Received(replies)[..Min(LimitFor(asked), |Received(replies)|)]
    ensures cap > 0 && Capped(server, l, cap) && (forall i, j :: 0 <= i < j < |l| ==> l[i] != l[j]) ==>
      && out.Some?
      && (out.value == l[..Min(LimitFor(asked), |l|)] <==> cap >= p.page || |l| <= cap || LimitFor(asked) <= cap)
  {
    var limit := LimitFor(asked);
    var all, log := FetchBatches(p, limit, server, l, cap);
    replies := log;
    if all.None? {
      return None, replies;
    }
    var items := all.value;
    assert items == items[..|items|];
    if |items| > limit {
      items := items[..limit];
    }
    out := Some(items);
    if cap > 0 && Capped(server, l, cap) && forall i, j :: 0 <= i < j < |l| ==> l[i] != l[j] {
      CappedAnswer(p, l, cap, limit, |replies|, all.value);
    }
  }

  lemma CappedAnswer<T>(p: Pager, l: seq<T>, cap: nat, limit: nat, requests: nat, all: seq<T>)
    requires cap > 0 && limit > 0 && requests > 0 && CappedRun(p, l, cap, limit, requests, all)
    requires cap >= p.page ==> |all| >= Min(limit, |l|)
    requires forall i, j :: 0 <= i < j < |l| ==> l[i] != l[j]
    ensures all[..Min(limit, |all|)] == l[..Min(limit, |l|)] <==> cap >= p.page || |l| <= cap || limit <= cap
  {
    var got, want := all[..Min(limit, |all|)], l[..Min(limit, |l|)];
    if cap < p.page {
      if cap < |l| && cap < limit {
        if |all| > cap {
          assert got[cap] == l[p.page] && want[cap] == l[cap];
        }
      } else if limit <= cap {
        assert got == all[..Min(cap, |l|)][..Min(limit, |l|)];
      }
    }
  }

  /** Batch `i` is asked for at `i` pages, after batches that each filled a page, by the limit the server echoed where
      that counts, and left both the limit and the total unreached; the last one did not, or failed. */
  lemma OverIs<T(!new)>(
      p: Pager, limit: nat, server: (nat, nat, nat) -> Reply<T>, replies: seq<Reply<T>>, out: Option<seq<T>>, i: nat)
    requires Over(p, limit, server, replies, out) && i < |replies|
    ensures replies[i] == server(i, p.page, i * p.page)
    ensures i == |replies| - 1 <==>
      || replies[i].Failed?
      || |replies[i].items| < (if p.echo && replies[i].limit > 0 then replies[i].limit else p.page)
      || |Received(replies[..i + 1])| >= replies[i].total
      || |Received(replies[..i + 1])| >= limit
    ensures out.None? <==> replies[|replies| - 1].Failed?
    ensures out.Some? ==> out.value == Received(replies)
  {
    hide Received;
    assert replies[..|replies|] == replies && replies[..i + 1][i] == replies[i];
    assert i < |replies| - 1 ==> WantsMore(p, limit, replies[..i + 1]);
  }

  lemma {:induction false} ReceivedIs<T>(replies: seq<Reply<T>>, parts: seq<seq<T>>)
    requires |parts| == |replies|
    requires forall i :: 0 <= i < |replies| ==> parts[i] == if replies[i].Batch? then replies[i].items else []
    ensures Received(replies) == Concat(parts)
  {
    if replies != [] {
      ReceivedIs(replies[..|replies| - 1], parts[..|parts| - 1]);
    }
  }

  /** `deuteroListInterviews`: the cohort is whole exactly when the cap does not bite. */
  method ListInterviews<T(!new)>(asked: int, server: (nat, nat, nat) -> Reply<T>, ghost l: seq<T>, ghost cap: nat)
      returns (out: Option<seq<T>>, ghost replies: seq<Reply<T>>)
    ensures
      var limit := if asked > 0 then asked else 500;
      && Over(Pager(100, true), limit, server, replies, if out.None? then None else Some(Received(replies)))
      && (out.Some? ==> out.value == Received(replies)[..Min(limit, |Received(replies)|)])
    ensures cap > 0 && Capped(server, l, cap) && (forall i, j :: 0 <= i < j < |l| ==> l[i] != l[j]) ==>
      var limit := if asked > 0 then asked else 500;
      && out.Some?
      && (out.value == l[..Min(limit, |l|)] <==> cap >= 100 || |l| <= cap || limit <= cap)
  {
    out, replies := FetchUpTo(INTERVIEWS, asked, server, l, cap);
  }

  /** `deuteroBulkFetchTranscripts`. */
  method BulkFetchTranscripts<T(!new)>(asked: int, server: (nat, nat, nat) -> Reply<T>, ghost l: seq<T>, ghost cap: nat)
      returns (out: Option<seq<T>>, ghost replies: seq<Reply<T>>)
    ensures
      var limit := if asked > 0 then asked else 500;
      && Over(Pager(50, false), limit, server, replies, if out.None? then None else Some(Received(replies)))
      && (out.Some? ==> out.value == Received(replies)[..Min(limit, |Received(replies)|)])
    ensures cap > 0 && Capped(server, l, cap) && (forall i, j :: 0 <= i < j < |l| ==> l[i] != l[j]) ==>
      var limit := if asked > 0 then asked else 500;
      && out.Some?
      && (out.value == l[..Min(limit, |l|)] <==> cap >= 50 || |l| <= cap || limit <= cap)
  {
    out, replies := FetchUpTo(TRANSCRIPTS, asked, server, l, cap);
  }

  /** How many deliveries `reconcile` reads at most, but for the last batch. */
  function DeliveryCap(flagLimit: int): (n: nat)
    ensures n > 0
  {
    if Wrap(flagLimit * 10) <= 0 then DEFAULT_CAP * 10 else Wrap(flagLimit * 10)
  }

  /** The deliveries `reconcile` joins with; they are not cut to the cap. */
  method ListDeliveries<T(!new)>(flagLimit: int, server: (nat, nat, nat) -> Reply<T>, ghost l: seq<T>, ghost cap: nat)
      returns (out: Option<seq<T>>, ghost replies: seq<Reply<T>>)
    ensures
      var limit := if Wrap(10 * flagLimit) > 0 then Wrap(10 * flagLimit) else 5000;
      && Over(Pager(200, true), limit, server, replies, out)
      && (cap >= 200 && Capped(server, l, cap) ==> out.Some? && |out.value| >= Min(limit, |l|))
  {
    out, replies := FetchBatches(DELIVERIES, DeliveryCap(flagLimit), server, l, cap);
  }
}

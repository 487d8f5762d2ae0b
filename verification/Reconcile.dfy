/** Completions that no webhook delivery reported. */
module Reconcile {
  import opened Basics
  import opened Numerals
  import opened Sorting

  datatype Interview = Interview(id: string, completed: bool, externalId: Option<string>, endTime: Option<string>)

  datatype Delivery = Delivery(externalId: Option<string>, success: bool, status: Option<int>, error: Option<string>)

  datatype Row = Row(externalId: string, interviewId: string, completedAt: string,
                     attempts: nat, lastStatus: string, lastError: string)

  datatype Report = Report(completed: nat, withId: nat, withoutId: nat, delivered: nat, neverDelivered: nat,
                           unattributed: nat, missing: seq<Row>)

  datatype Aggregate = Aggregate(attempts: nat, delivered: bool, lastStatus: string, lastError: string)

  const NONE_SEEN := Aggregate(0, false, "", "")

  function Deref(s: Option<string>): string {
    s.GetOr("")
  }

  // ----- What is to be reported

  /** A delivery for the participant `id`. */
  predicate IsFor(d: Delivery, id: string) {
    d.externalId == Some(id)
  }

  /** Some delivery for `id` succeeded. */
  predicate WasDelivered(deliveries: seq<Delivery>, id: string) {
    exists k :: 0 <= k < |deliveries| && IsFor(deliveries[k], id) && deliveries[k].success
  }

  function Attempts(deliveries: seq<Delivery>, id: string): nat {
    if deliveries == [] then 0
    else Attempts(deliveries[..|deliveries| - 1], id) + if IsFor(deliveries[|deliveries| - 1], id) then 1 else 0
  }

  /** The status of the last delivery for `id` that has one. */
  function LastStatus(deliveries: seq<Delivery>, id: string): string {
    if deliveries == [] then ""
    else
      var d := deliveries[|deliveries| - 1];
      if IsFor(d, id) && d.status.Some? then Itoa(d.status.value) else LastStatus(deliveries[..|deliveries| - 1], id)
  }

  /** The error of the last delivery for `id` that has one. */
  function LastError(deliveries: seq<Delivery>, id: string): string {
    if deliveries == [] then ""
    else
      var d := deliveries[|deliveries| - 1];
      if IsFor(d, id) && Deref(d.error) != "" then d.error.value else LastError(deliveries[..|deliveries| - 1], id)
  }

  /** A completion with an id of ours to join on and no successful delivery for it. */
  predicate IsMissing(iv: Interview, deliveries: seq<Delivery>) {
    iv.completed && Deref(iv.externalId) != "" && !WasDelivered(deliveries, iv.externalId.value)
  }

  function RowFor(iv: Interview, deliveries: seq<Delivery>): Row
    requires iv.externalId.Some?
  {
    var id := iv.externalId.value;
    Row(id, iv.id, Deref(iv.endTime), Attempts(deliveries, id), LastStatus(deliveries, id), LastError(deliveries, id))
  }

  /** The nested-loop anti-join: for each interview, look through all the deliveries. */
  function AntiJoin(interviews: seq<Interview>, deliveries: seq<Delivery>): seq<Row> {
    if interviews == [] then []
    else
      var iv := interviews[|interviews| - 1];
      AntiJoin(interviews[..|interviews| - 1], deliveries)
        + if IsMissing(iv, deliveries) then [RowFor(iv, deliveries)] else []
  }

  predicate ById(a: Row, b: Row) {
    StringLess(a.externalId, b.externalId)
  }

  function Count(interviews: seq<Interview>, p: Interview -> bool): nat {
    if interviews == [] then 0
    else Count(interviews[..|interviews| - 1], p) + if p(interviews[|interviews| - 1]) then 1 else 0
  }

  predicate IsUnattributed(d: Delivery) {
    Deref(d.externalId) == ""
  }

  function CountUnattributed(deliveries: seq<Delivery>): nat {
    if deliveries == [] then 0
    else
      CountUnattributed(deliveries[..|deliveries| - 1])
        + if IsUnattributed(deliveries[|deliveries| - 1]) then 1 else 0
  }

  // ----- The hash join

  /** What the deliveries say of one participant. */
  function AggregateFor(deliveries: seq<Delivery>, id: string): Aggregate {
    Aggregate(Attempts(deliveries, id), WasDelivered(deliveries, id), LastStatus(deliveries, id),
      LastError(deliveries, id))
  }

  ghost predicate IsIndex(deliveries: seq<Delivery>, byExternal: map<string, Aggregate>) {
    && (forall id :: id in byExternal <==> id != "" && Attempts(deliveries, id) > 0)
    && (forall id :: id in byExternal ==> byExternal[id] == AggregateFor(deliveries, id))
  }

  function Aggregated(a: Aggregate, d: Delivery): Aggregate {
    Aggregate(
      a.attempts + 1,
      a.delivered || d.success,
      if d.status.Some? then Itoa(d.status.value) else a.lastStatus,
      if Deref(d.error) != "" then d.error.value else a.lastError)
  }

  /** The aggregates by participant; a participant with no delivery yet starts from nothing. */
  method IndexDeliveries(deliveries: seq<Delivery>) returns (byExternal: map<string, Aggregate>, unattributed: nat)
    ensures IsIndex(deliveries, byExternal) && unattributed == CountUnattributed(deliveries)
  {
    byExternal, unattributed := map[], 0;
    for i := 0 to |deliveries|
      invariant IsIndex(deliveries[..i], byExternal) && unattributed == CountUnattributed(deliveries[..i])
    {
      var d := deliveries[i];
      IndexGrows(deliveries[..i], d, byExternal);
      assert deliveries[..i + 1] == deliveries[..i] + [d];
      if d.externalId.None? || d.externalId.value == "" {
        unattributed := unattributed + 1;
        continue;
      }
      var key := d.externalId.value;
      var a := if key in byExternal then byExternal[key] else NONE_SEEN;
      byExternal := byExternal[key := Aggregated(a, d)];
    }
    assert deliveries[..|deliveries|] == deliveries;
  }

  lemma IndexGrows(deliveries: seq<Delivery>, d: Delivery, byExternal: map<string, Aggregate>)
    requires IsIndex(deliveries, byExternal)
    ensures CountUnattributed(deliveries + [d]) == CountUnattributed(deliveries) + if IsUnattributed(d) then 1 else 0
    ensures IsUnattributed(d) ==> IsIndex(deliveries + [d], byExternal)
    ensures !IsUnattributed(d) ==>
      var key := d.externalId.value;
      var a := if key in byExternal then byExternal[key] else NONE_SEEN;
      IsIndex(deliveries + [d], byExternal[key := Aggregated(a, d)])
  {
    assert (deliveries + [d])[..|deliveries|] == deliveries;
    hide Attempts, WasDelivered, LastStatus, LastError;
    forall id
      ensures AggregateFor(deliveries + [d], id) ==
        if IsFor(d, id) then Aggregated(AggregateFor(deliveries, id), d) else AggregateFor(deliveries, id)
      ensures Attempts(deliveries, id) == 0 ==> AggregateFor(deliveries, id) == NONE_SEEN
    {
      AggregateSnoc(deliveries, d, id);
      if Attempts(deliveries, id) == 0 {
        NoAttempts(deliveries, id);
      }
    }
  }

  lemma AggregateSnoc(deliveries: seq<Delivery>, d: Delivery, id: string)
    ensures AggregateFor(deliveries + [d], id) ==
      if IsFor(d, id) then Aggregated(AggregateFor(deliveries, id), d) else AggregateFor(deliveries, id)
  {
    assert (deliveries + [d])[..|deliveries|] == deliveries;
    DeliveredSnoc(deliveries, d, id);
    hide WasDelivered;
  }

  lemma DeliveredSnoc(deliveries: seq<Delivery>, d: Delivery, id: string)
    ensures WasDelivered(deliveries + [d], id) <==> WasDelivered(deliveries, id) || (IsFor(d, id) && d.success)
  {
    var all := deliveries + [d];
    assert all[|deliveries|] == d && forall k :: 0 <= k < |deliveries| ==> all[k] == deliveries[k];
  }

  lemma {:induction false} NoAttempts(deliveries: seq<Delivery>, id: string)
    requires Attempts(deliveries, id) == 0
    ensures !WasDelivered(deliveries, id) && LastStatus(deliveries, id) == "" && LastError(deliveries, id) == ""
  {
    if deliveries != [] {
      NoAttempts(deliveries[..|deliveries| - 1], id);
    }
  }

  /** The report on `interviews` as read so far, its rows not yet sorted. */
  ghost predicate Reports(interviews: seq<Interview>, deliveries: seq<Delivery>, r: Report) {
    && r.completed == Count(interviews, (iv: Interview) => iv.completed)
    && r.withoutId == Count(interviews, (iv: Interview) => iv.completed && Deref(iv.externalId) == "")
    && r.withId == r.delivered + r.neverDelivered && r.completed == r.withId + r.withoutId
    && r.neverDelivered == |AntiJoin(interviews, deliveries)|
    && r.unattributed == CountUnattributed(deliveries)
  }

  /** `buildReconcile`: one pass over the deliveries, one over the interviews. */
  method BuildReconcile(interviews: seq<Interview>, deliveries: seq<Delivery>) returns (r: Report)
    ensures Reports(interviews, deliveries, r)
    ensures r.missing == StableSort(AntiJoin(interviews, deliveries), ById)
  {
    hide IsIndex, Attempts, WasDelivered, LastStatus, LastError, CountUnattributed, StableSort, StringLess;
    var byExternal, unattributed := IndexDeliveries(deliveries);
    r := Report(0, 0, 0, 0, 0, unattributed, []);
    for i := 0 to |interviews|
      invariant Reports(interviews[..i], deliveries, r) && r.missing == AntiJoin(interviews[..i], deliveries)
    {
      var iv := interviews[i];
      assert interviews[..i + 1][..i] == interviews[..i];
      if !iv.completed {
        continue;
      }
      r := r.(completed := r.completed + 1);
      var ext := Deref(iv.externalId);
      if ext == "" {
        r := r.(withoutId := r.withoutId + 1);
        continue;
      }
      r := r.(withId := r.withId + 1);
      LookUp(deliveries, byExternal, ext);
      if ext in byExternal && byExternal[ext].delivered {
        r := r.(delivered := r.delivered + 1);
        continue;
      }
      var a := if ext in byExternal then byExternal[ext] else NONE_SEEN;
      r := r.(neverDelivered := r.neverDelivered + 1,
              missing := r.missing + [Row(ext, iv.id, Deref(iv.endTime), a.attempts, a.lastStatus, a.lastError)]);
    }
    assert interviews[..|interviews|] == interviews;
    r := r.(missing := StableSort(r.missing, ById));
  }

  lemma LookUp(deliveries: seq<Delivery>, byExternal: map<string, Aggregate>, id: string)
    requires IsIndex(deliveries, byExternal) && id != ""
    ensures (if id in byExternal then byExternal[id] else NONE_SEEN)
         == AggregateFor(deliveries, id)
  {
    if id !in byExternal {
      NoAttempts(deliveries, id);
    }
  }

  // ----- Which completions are missing

  /** The rows are those of exactly the missing completions, in order of participant id. */
  lemma MissingExactly(interviews: seq<Interview>, deliveries: seq<Delivery>, missing: seq<Row>)
    requires missing == StableSort(AntiJoin(interviews, deliveries), ById)
    ensures Ordered(missing, ById)
    ensures forall row :: row in missing <==>
      exists iv :: iv in interviews && IsMissing(iv, deliveries) && row == RowFor(iv, deliveries)
  {
    StringLessStrictWeak();
    assert StrictWeak(ById);
    StableSortOrdered(AntiJoin(interviews, deliveries), ById);
    SameElements(missing, AntiJoin(interviews, deliveries));
    forall row
      ensures row in AntiJoin(interviews, deliveries) <==>
        exists iv :: iv in interviews && IsMissing(iv, deliveries) && row == RowFor(iv, deliveries)
    {
      AntiJoinMembers(interviews, deliveries, row);
    }
  }

  lemma {:induction false} AntiJoinMembers(interviews: seq<Interview>, deliveries: seq<Delivery>, row: Row)
    ensures row in AntiJoin(interviews, deliveries) <==>
      exists iv :: iv in interviews && IsMissing(iv, deliveries) && row == RowFor(iv, deliveries)
  {
    if interviews != [] {
      var front, last := interviews[..|interviews| - 1], interviews[|interviews| - 1];
      AntiJoinMembers(front, deliveries, row);
      assert forall iv :: iv in interviews <==> iv in front || iv == last;
    }
  }

  // ----- The report, item by item

  lemma {:induction false} AttemptsAre(deliveries: seq<Delivery>, id: string)
    ensures Attempts(deliveries, id) == |IndicesOf(deliveries, (d: Delivery) => d.externalId == Some(id))|
  {
    var heard := (d: Delivery) => d.externalId == Some(id);
    if deliveries == [] {
      assert IndicesOf(deliveries, heard) == {};
    } else {
      var front, last := deliveries[..|deliveries| - 1], deliveries[|deliveries| - 1];
      AttemptsAre(front, id);
      IndicesSnoc(front, last, heard);
      assert front + [last] == deliveries;
    }
  }

  lemma {:induction false} UnattributedAre(deliveries: seq<Delivery>)
    ensures CountUnattributed(deliveries)
         == |IndicesOf(deliveries, (d: Delivery) => d.externalId in {None, Some("")})|
  {
    var of := (d: Delivery) => d.externalId in {None, Some("")};
    if deliveries == [] {
      assert IndicesOf(deliveries, of) == {};
    } else {
      var front, last := deliveries[..|deliveries| - 1], deliveries[|deliveries| - 1];
      UnattributedAre(front);
      IndicesSnoc(front, last, of);
      assert front + [last] == deliveries;
    }
  }

  lemma {:induction false} CountIs(interviews: seq<Interview>, p: Interview -> bool)
    ensures Count(interviews, p) == |IndicesOf(interviews, p)|
  {
    if interviews == [] {
      assert IndicesOf(interviews, p) == {};
    } else {
      var front, last := interviews[..|interviews| - 1], interviews[|interviews| - 1];
      CountIs(front, p);
      IndicesSnoc(front, last, p);
      assert front + [last] == interviews;
    }
  }

  /** The status and the error shown are the last heard for the participant, each skipping deliveries without one. */
  lemma {:induction false} LastHeard(deliveries: seq<Delivery>, id: string)
    ensures
      var told := (d: Delivery) => d.externalId == Some(id) && d.status.Some?;
      if Where(deliveries, told) == [] then LastStatus(deliveries, id) == ""
      else LastStatus(deliveries, id) == Itoa(Where(deliveries, told)[|Where(deliveries, told)| - 1].status.GetOr(0))
    ensures
      var failed := (d: Delivery) => d.externalId == Some(id) && d.error !in {None, Some("")};
      if Where(deliveries, failed) == [] then LastError(deliveries, id) == ""
      else LastError(deliveries, id) == Where(deliveries, failed)[|Where(deliveries, failed)| - 1].error.GetOr("")
  {
    var told := (d: Delivery) => d.externalId == Some(id) && d.status.Some?;
    var failed := (d: Delivery) => d.externalId == Some(id) && d.error !in {None, Some("")};
    WhereNone(told);
    WhereNone(failed);
    hide Where, Itoa;
    if deliveries != [] {
      var front, last := deliveries[..|deliveries| - 1], deliveries[|deliveries| - 1];
      assert front + [last] == deliveries;
      LastHeard(front, id);
      WhereSnoc(front, last, told);
      WhereSnoc(front, last, failed);
    }
  }

  /** The completions of participant `id` of which no delivery succeeded. */
  ghost predicate Unheard(iv: Interview, deliveries: seq<Delivery>, id: string) {
    && iv.completed && iv.externalId == Some(id)
    && forall k :: 0 <= k < |deliveries| && deliveries[k].externalId == Some(id) ==> !deliveries[k].success
  }

  lemma {:induction false} ShownSnoc<T, U>(s: seq<T>, x: T, f: T -> U)
    ensures Shown(s + [x], f) == Shown(s, f) + [f(x)]
  {
    if s == [] {
      assert [] + [x] == [x];
    } else {
      ShownSnoc(s[1..], x, f);
      assert (s + [x])[1..] == s[1..] + [x];
    }
  }

  /** A participant's rows, in order, are those of their unheard completions. */
  lemma {:induction false} AntiJoinOf(interviews: seq<Interview>, deliveries: seq<Delivery>, id: string)
    requires id != ""
    ensures Where(AntiJoin(interviews, deliveries), (r: Row) => r.externalId == id)
         == Shown(Where(interviews, (iv: Interview) => Unheard(iv, deliveries, id)), RowOf(deliveries, id))
  {
    var theirs, row := (r: Row) => r.externalId == id, RowOf(deliveries, id);
    var unheard := (iv: Interview) => Unheard(iv, deliveries, id);
    NothingShown(row);
    WhereNone(theirs);
    WhereNone(unheard);
    hide Where, Shown, Attempts, LastStatus, LastError, Unheard, IsMissing;
    if interviews != [] {
      var front, last := interviews[..|interviews| - 1], interviews[|interviews| - 1];
      assert front + [last] == interviews;
      AntiJoinOf(front, deliveries, id);
      UnheardIff(last, deliveries, id);
      WhereSnoc(front, last, unheard);
      if IsMissing(last, deliveries) {
        WhereSnoc(AntiJoin(front, deliveries), RowFor(last, deliveries), theirs);
      } else {
        assert AntiJoin(interviews, deliveries) == AntiJoin(front, deliveries);
      }
      if unheard(last) {
        ShownSnoc(Where(front, unheard), last, row);
        assert row(last) == RowFor(last, deliveries);
      } else {
        assert Where(interviews, unheard) == Where(front, unheard);
      }
    }
  }

  ghost function RowOf(deliveries: seq<Delivery>, id: string): Interview -> Row {
    (iv: Interview) =>
      Row(id, iv.id, iv.endTime.GetOr(""), Attempts(deliveries, id), LastStatus(deliveries, id),
        LastError(deliveries, id))
  }

  lemma NothingShown<T, U>(f: T -> U)
    ensures Shown([], f) == []
  {
  }

  lemma UnheardIff(iv: Interview, deliveries: seq<Delivery>, id: string)
    requires id != ""
    ensures Unheard(iv, deliveries, id) <==> IsMissing(iv, deliveries) && iv.externalId == Some(id)
    ensures IsMissing(iv, deliveries) ==> iv.externalId.Some? && iv.externalId.value != ""
  {
  }

  /** For each participant the report lists exactly their unheard completions, in order of arrival, with what was heard
      of the participant; the participants follow each other in order of id, and the counts are those of the data. */
  lemma ReportIs(interviews: seq<Interview>, deliveries: seq<Delivery>, r: Report, id: string)
    requires Reports(interviews, deliveries, r) && r.missing == StableSort(AntiJoin(interviews, deliveries), ById)
    ensures forall i, j :: 0 <= i < j < |r.missing| ==> !StringLess(r.missing[j].externalId, r.missing[i].externalId)
    ensures Where(r.missing, (row: Row) => row.externalId == id)
         == if id == "" then []
            else Shown(Where(interviews, (iv: Interview) => Unheard(iv, deliveries, id)), RowOf(deliveries, id))
    ensures r.completed == |IndicesOf(interviews, (iv: Interview) => iv.completed)|
    ensures r.withoutId ==
      |IndicesOf(interviews, (iv: Interview) => iv.completed && iv.externalId in {None, Some("")})|
    ensures r.unattributed == |IndicesOf(deliveries, (d: Delivery) => d.externalId in {None, Some("")})|
    ensures r.neverDelivered == |r.missing| && r.completed == r.withoutId + r.delivered + r.neverDelivered
  {
    hide *;
    MissingInOrder(interviews, deliveries, r.missing);
    CountsAre(interviews, deliveries, r);
    SortedOf(AntiJoin(interviews, deliveries), id);
    if id == "" {
      NoBlankRows(interviews, deliveries);
    } else {
      AntiJoinOf(interviews, deliveries, id);
    }
  }

  lemma MissingInOrder(interviews: seq<Interview>, deliveries: seq<Delivery>, missing: seq<Row>)
    requires missing == StableSort(AntiJoin(interviews, deliveries), ById)
    ensures forall i, j :: 0 <= i < j < |missing| ==> !StringLess(missing[j].externalId, missing[i].externalId)
  {
    MissingExactly(interviews, deliveries, missing);
    hide AntiJoin, StableSort;
  }

  lemma CountsAre(interviews: seq<Interview>, deliveries: seq<Delivery>, r: Report)
    requires Reports(interviews, deliveries, r) && r.missing == StableSort(AntiJoin(interviews, deliveries), ById)
    ensures r.completed == |IndicesOf(interviews, (iv: Interview) => iv.completed)|
    ensures r.withoutId ==
      |IndicesOf(interviews, (iv: Interview) => iv.completed && iv.externalId in {None, Some("")})|
    ensures r.unattributed == |IndicesOf(deliveries, (d: Delivery) => d.externalId in {None, Some("")})|
    ensures r.neverDelivered == |r.missing| && r.completed == r.withoutId + r.delivered + r.neverDelivered
  {
    hide Count, AntiJoin, CountUnattributed, IndicesOf;
    CountIs(interviews, (iv: Interview) => iv.completed);
    CountIs(interviews, (iv: Interview) => iv.completed && Deref(iv.externalId) == "");
    SameIndices(interviews, (iv: Interview) => iv.completed && Deref(iv.externalId) == "",
      (iv: Interview) => iv.completed && iv.externalId in {None, Some("")});
    UnattributedAre(deliveries);
    assert |multiset(r.missing)| == |r.missing|;
    assert |multiset(AntiJoin(interviews, deliveries))| == |AntiJoin(interviews, deliveries)|;
  }

  lemma SameIndices<T>(s: seq<T>, p: T -> bool, q: T -> bool)
    requires forall x :: x in s ==> p(x) == q(x)
    ensures IndicesOf(s, p) == IndicesOf(s, q)
  {
  }

  /** Sorting keeps the rows of one participant in their order. */
  lemma SortedOf(rows: seq<Row>, id: string)
    ensures Where(StableSort(rows, ById), (row: Row) => row.externalId == id)
         == Where(rows, (row: Row) => row.externalId == id)
  {
    hide Where;
    StringLessStrictWeak();
    StableSortKeepsTies(rows, ById, (row: Row) => row.externalId == id);
  }

  lemma {:induction false} NoBlankRows(interviews: seq<Interview>, deliveries: seq<Delivery>)
    ensures Where(AntiJoin(interviews, deliveries), (row: Row) => row.externalId == "") == []
  {
    var blank := (row: Row) => row.externalId == "";
    WhereNone(blank);
    hide Where;
    if interviews != [] {
      var front, last := interviews[..|interviews| - 1], interviews[|interviews| - 1];
      NoBlankRows(front, deliveries);
      if IsMissing(last, deliveries) {
        WhereSnoc(AntiJoin(front, deliveries), RowFor(last, deliveries), blank);
      } else {
        assert AntiJoin(interviews, deliveries) == AntiJoin(front, deliveries);
      }
    }
  }

  // ----- The order of the deliveries

  /** A row without what was last heard: the only part that depends on the order of the deliveries. */
  function WithoutLast(row: Row): Row {
    row.(lastStatus := "", lastError := "")
  }

  function AllWithoutLast(rows: seq<Row>): (r: seq<Row>)
    ensures |r| == |rows|
  {
    if rows == [] then [] else [WithoutLast(rows[0])] + AllWithoutLast(rows[1..])
  }

  /** Reordering the log changes no missing completion, no number of attempts, and so no count. */
  lemma DeliveryOrderIsIrrelevant(interviews: seq<Interview>, log: seq<Delivery>, other: seq<Delivery>)
    requires multiset(log) == multiset(other)
    ensures AllWithoutLast(StableSort(AntiJoin(interviews, log), ById))
         == AllWithoutLast(StableSort(AntiJoin(interviews, other), ById))
    ensures CountUnattributed(log) == CountUnattributed(other)
  {
    SameUnattributed(log, other);
    SameJoin(interviews, log, other);
    SortWithoutLast(AntiJoin(interviews, log));
    SortWithoutLast(AntiJoin(interviews, other));
  }

  lemma {:induction false} SameJoin(interviews: seq<Interview>, log: seq<Delivery>, other: seq<Delivery>)
    requires multiset(log) == multiset(other)
    ensures AllWithoutLast(AntiJoin(interviews, log)) == AllWithoutLast(AntiJoin(interviews, other))
  {
    if interviews != [] {
      var iv := interviews[|interviews| - 1];
      SameJoin(interviews[..|interviews| - 1], log, other);
      SameRow(iv, log, other);
      var front := interviews[..|interviews| - 1];
      WithoutLastConcat(AntiJoin(front, log), if IsMissing(iv, log) then [RowFor(iv, log)] else []);
      WithoutLastConcat(AntiJoin(front, other), if IsMissing(iv, other) then [RowFor(iv, other)] else []);
    }
  }

  lemma SameRow(iv: Interview, log: seq<Delivery>, other: seq<Delivery>)
    requires multiset(log) == multiset(other)
    ensures IsMissing(iv, log) <==> IsMissing(iv, other)
    ensures iv.externalId.Some? ==> WithoutLast(RowFor(iv, log)) == WithoutLast(RowFor(iv, other))
  {
    if iv.externalId.Some? {
      SameElements(log, other);
      SameDelivered(log, other, iv.externalId.value);
      SameDelivered(other, log, iv.externalId.value);
      SameAttempts(log, other, iv.externalId.value);
    }
  }

  lemma {:induction false} WithoutLastConcat(a: seq<Row>, b: seq<Row>)
    ensures AllWithoutLast(a + b) == AllWithoutLast(a) + AllWithoutLast(b)
  {
    if a == [] {
      assert a + b == b;
    } else {
      WithoutLastConcat(a[1..], b);
      assert (a + b)[1..] == a[1..] + b;
    }
  }

  lemma SameDelivered(log: seq<Delivery>, other: seq<Delivery>, id: string)
    requires forall d :: d in log ==> d in other
    ensures WasDelivered(log, id) ==> WasDelivered(other, id)
  {
    if k :| 0 <= k < |log| && IsFor(log[k], id) && log[k].success {
      assert log[k] in other;
    }
  }

  lemma {:induction false} AttemptsConcat(a: seq<Delivery>, b: seq<Delivery>, id: string)
    ensures Attempts(a + b, id) == Attempts(a, id) + Attempts(b, id)
  {
    if b == [] {
      assert a + b == a;
    } else {
      AttemptsConcat(a, b[..|b| - 1], id);
      assert (a + b)[..|a + b| - 1] == a + b[..|b| - 1];
    }
  }

  lemma {:induction false} UnattributedConcat(a: seq<Delivery>, b: seq<Delivery>)
    ensures CountUnattributed(a + b) == CountUnattributed(a) + CountUnattributed(b)
  {
    if b == [] {
      assert a + b == a;
    } else {
      UnattributedConcat(a, b[..|b| - 1]);
      assert (a + b)[..|a + b| - 1] == a + b[..|b| - 1];
    }
  }

  lemma {:induction false} SameUnattributed(log: seq<Delivery>, other: seq<Delivery>)
    requires multiset(log) == multiset(other)
    ensures CountUnattributed(log) == CountUnattributed(other)
    decreases |log|
  {
    SameElements(log, other);
    if log != [] {
      assert log[0] in other;
      var k :| 0 <= k < |other| && other[k] == log[0];
      UnattributedWithout(log, 0);
      UnattributedWithout(other, k);
      AttemptsWithout(log, 0, "");
      AttemptsWithout(other, k, "");
      SameUnattributed(Without(log, 0), Without(other, k));
    }
  }

  lemma UnattributedWithout(log: seq<Delivery>, k: nat)
    requires k < |log|
    ensures CountUnattributed(log) == CountUnattributed(Without(log, k)) + CountUnattributed([log[k]])
  {
    hide CountUnattributed;
    assert log == log[..k + 1] + log[k + 1..] && log[..k + 1] == log[..k] + [log[k]];
    UnattributedConcat(log[..k + 1], log[k + 1..]);
    UnattributedConcat(log[..k], [log[k]]);
    UnattributedConcat(log[..k], log[k + 1..]);
  }

  function Without(log: seq<Delivery>, k: nat): seq<Delivery>
    requires k < |log|
  {
    log[..k] + log[k + 1..]
  }

  lemma AttemptsWithout(log: seq<Delivery>, k: nat, id: string)
    requires k < |log|
    ensures Attempts(log, id) == Attempts(Without(log, k), id) + if IsFor(log[k], id) then 1 else 0
    ensures multiset(Without(log, k)) == multiset(log) - multiset{log[k]}
  {
    assert log == log[..k + 1] + log[k + 1..] && log[..k + 1] == log[..k] + [log[k]];
    AttemptsConcat(log[..k + 1], log[k + 1..], id);
    AttemptsConcat(log[..k], log[k + 1..], id);
    assert log[..k + 1][..k] == log[..k];
  }

  lemma {:induction false} SameAttempts(log: seq<Delivery>, other: seq<Delivery>, id: string)
    requires multiset(log) == multiset(other)
    ensures Attempts(log, id) == Attempts(other, id)
    decreases |log|
  {
    SameElements(log, other);
    if log != [] {
      assert log[0] in other;
      var k :| 0 <= k < |other| && other[k] == log[0];
      AttemptsWithout(log, 0, id);
      AttemptsWithout(other, k, id);
      SameAttempts(Without(log, 0), Without(other, k), id);
    }
  }

  lemma WithoutLastCons(row: Row, rows: seq<Row>)
    ensures AllWithoutLast([row] + rows) == [WithoutLast(row)] + AllWithoutLast(rows)
  {
    assert ([row] + rows)[1..] == rows;
  }

  lemma {:induction false} InsertWithoutLast(row: Row, rows: seq<Row>)
    ensures AllWithoutLast(Insert(row, rows, ById)) == Insert(WithoutLast(row), AllWithoutLast(rows), ById)
  {
    if rows == [] {
      WithoutLastCons(row, rows);
    } else {
      hide AllWithoutLast, StringLess;
      assert rows == [rows[0]] + rows[1..];
      WithoutLastCons(rows[0], rows[1..]);
      assert AllWithoutLast(rows)[1..] == AllWithoutLast(rows[1..]);
      WithoutLastCons(row, rows);
      WithoutLastCons(rows[0], Insert(row, rows[1..], ById));
      InsertWithoutLast(row, rows[1..]);
    }
  }

  lemma {:induction false} SortWithoutLast(rows: seq<Row>)
    ensures AllWithoutLast(StableSort(rows, ById)) == StableSort(AllWithoutLast(rows), ById)
  {
    if rows != [] {
      SortWithoutLast(rows[1..]);
      InsertWithoutLast(rows[0], StableSort(rows[1..], ById));
      assert AllWithoutLast(rows)[1..] == AllWithoutLast(rows[1..]);
    }
  }
}

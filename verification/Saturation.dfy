/** Where new interviews stop contributing new language. */
module Saturation {
  import opened Basics
  import opened Sorting

  /** A message; `participant` says its type is known and is a participant's turn. */
  datatype Message = Message(participant: bool, content: Option<string>)

  /** A transcript with its start as an instant, if it parses. */
  datatype Transcript = Transcript(id: string, start: Option<int>, messages: seq<Message>)

  datatype Point = Point(index: nat, id: string, newTerms: nat, totalTerms: nat, newShare: real)

  // ----- Tokens

  const STOP_WORDS: set<string> :=
    {"that", "this", "with", "have", "just", "like", "really", "think", "know", "would",
     "they", "there", "then", "them", "what", "when", "your", "about", "because", "been",
     "were", "from", "into", "more", "some", "very", "much", "kind", "sort", "thing",
     "yeah", "okay", "mean", "also", "make"}

  predicate IsWordChar(c: char) {
    'a' <= c <= 'z' || '0' <= c <= '9' || c == '\''
  }

  /** `s[i..j]` is a run of word characters that cannot be extended. */
  predicate IsRun(s: string, i: nat, j: nat) {
    && i < j <= |s| && (forall k :: i <= k < j ==> IsWordChar(s[k]))
    && (i == 0 || !IsWordChar(s[i - 1])) && (j == |s| || !IsWordChar(s[j]))
  }

  predicate IsTerm(w: string) {
    |w| >= 4 && w !in STOP_WORDS
  }

  /** The terms of a lower-case text: its runs, but for short words and stop words. */
  ghost function Tokens(s: string): set<string> {
    set i, j | 0 <= i < j <= |s| && IsRun(s, i, j) && IsTerm(s[i..j]) :: s[i..j]
  }

  /** Whether `w` is a term whose run ends before `n`. */
  ghost predicate EndsBefore(s: string, n: nat, w: string) {
    exists i: nat, j: nat :: j < n && IsRun(s, i, j) && s[i..j] == w && IsTerm(w)
  }

  /** Where the word characters leading up to `n` begin. */
  function RunStart(s: string, n: nat): (i: nat)
    requires n <= |s|
    ensures i <= n && (forall k :: i <= k < n ==> IsWordChar(s[k])) && (i == 0 || !IsWordChar(s[i - 1]))
  {
    if n == 0 || !IsWordChar(s[n - 1]) then n else RunStart(s, n - 1)
  }

  predicate EndsRun(s: string, n: nat)
    requires n <= |s|
  {
    n == |s| || !IsWordChar(s[n])
  }

  /** The terms whose runs end before `n`, one for each, in order. */
  function Words(s: string, n: nat): seq<string>
    requires n <= |s| + 1
  {
    if n == 0 then []
    else
      var run := s[RunStart(s, n - 1)..n - 1];
      Words(s, n - 1) + if EndsRun(s, n - 1) && IsTerm(run) then [run] else []
  }

  /** `tokenizeForSaturation`, after lower-casing: every run that is a term, in order. */
  method Tokenize(s: string) returns (out: seq<string>)
    ensures out == Words(s, |s| + 1)
    ensures forall w :: w in out <==> w in Tokens(s)
  {
    hide Tokens, IsTerm, IsRun, IsWordChar;
    out := [];
    var b := "";
    for i := 0 to |s|
      invariant b == s[RunStart(s, i)..i] && out == Words(s, i)
    {
      if IsWordChar(s[i]) {
        b := b + [s[i]];
      } else {
        out := Flush(b, out);
        b := "";
      }
    }
    out := Flush(b, out);
    WordsAreTokens(s);
  }

  method Flush(b: string, out: seq<string>) returns (r: seq<string>)
    ensures r == out + if IsTerm(b) then [b] else []
  {
    r := out;
    if |b| == 0 || |b| < 4 || b in STOP_WORDS {
      return;
    }
    r := out + [b];
  }

  /** What is returned is the terms: the runs that cannot be extended, short words and stop words apart. */
  lemma {:induction false} WordsEnd(s: string, n: nat, w: string)
    requires n <= |s| + 1
    ensures w in Words(s, n) <==> EndsBefore(s, n, w)
  {
    if n > 0 {
      var m := n - 1;
      WordsEnd(s, m, w);
      forall i: nat
        ensures IsRun(s, i, m) <==> i == RunStart(s, m) < m && EndsRun(s, m)
      {
        OneRun(s, i, m);
      }
    }
  }

  lemma OneRun(s: string, i: nat, n: nat)
    requires n <= |s|
    ensures IsRun(s, i, n) <==> i == RunStart(s, n) < n && EndsRun(s, n)
  {
    var k := RunStart(s, n);
    assert k < i < n ==> IsWordChar(s[i - 1]);
    assert i < k <= n ==> !IsWordChar(s[k - 1]);
  }

  lemma WordsAreTokens(s: string)
    ensures forall w :: w in Words(s, |s| + 1) <==> w in Tokens(s)
  {
    forall w
      ensures w in Words(s, |s| + 1) <==> w in Tokens(s)
    {
      WordsEnd(s, |s| + 1, w);
    }
  }

  // ----- Terms of a transcript and of a corpus

  ghost function MessageTerms(lower: string -> string, m: Message): set<string> {
    if m.participant && m.content.Some? then Tokens(lower(m.content.value)) else {}
  }

  ghost function TermsOf(lower: string -> string, messages: seq<Message>): set<string> {
    if messages == [] then {}
    else TermsOf(lower, messages[..|messages| - 1]) + MessageTerms(lower, messages[|messages| - 1])
  }

  /** Every term some transcript holds. */
  ghost function Corpus(lower: string -> string, trs: seq<Transcript>): set<string> {
    if trs == [] then {}
    else Corpus(lower, trs[..|trs| - 1]) + TermsOf(lower, trs[|trs| - 1].messages)
  }

  lemma {:induction false} CorpusIs(lower: string -> string, trs: seq<Transcript>, w: string)
    ensures w in Corpus(lower, trs) <==> exists t :: t in trs && w in TermsOf(lower, t.messages)
  {
    if trs != [] {
      var front, last := trs[..|trs| - 1], trs[|trs| - 1];
      CorpusIs(lower, front, w);
      assert forall t :: t in trs <==> t in front || t == last;
    }
  }

  // ----- Chronological order

  /** By start; transcripts without one come last, by id. */
  predicate Earlier(a: Transcript, b: Transcript) {
    if a.start.Some? && b.start.Some? then a.start.value < b.start.value
    else if a.start.Some? != b.start.Some? then a.start.Some?
    else StringLess(a.id, b.id)
  }

  lemma EarlierStrictWeak()
    ensures StrictWeak(Earlier)
  {
    StringLessStrictWeak();
  }

  // ----- The curve

  ghost function Share(newTerms: nat, total: nat): real {
    if total > 0 then newTerms as real / total as real else 0.0
  }

  /** The point of a transcript: how many of its terms none of those before it has used. */
  ghost function PointFor(lower: string -> string, before: seq<Transcript>, t: Transcript): Point {
    var terms := TermsOf(lower, t.messages);
    var unseen := |terms - Corpus(lower, before)|;
    Point(|before| + 1, t.id, unseen, |terms|, Share(unseen, |terms|))
  }

  /** Point `i` of the curve counts the terms transcript `i` is the first to use. */
  ghost predicate IsCurve(lower: string -> string, ordered: seq<Transcript>, curve: seq<Point>) {
    && |curve| == |ordered|
    && forall i :: 0 <= i < |curve| ==> curve[i] == PointFor(lower, ordered[..i], ordered[i])
  }

  /** The least number of interviews after which every one contributes less than the threshold. */
  ghost predicate IsPlateau(curve: seq<Point>, threshold: real, plateau: nat) {
    && plateau <= |curve|
    && FlatAfter(curve, threshold, plateau)
    && (forall p: nat :: FlatAfter(curve, threshold, p) ==> plateau <= p)
  }

  ghost predicate FlatAfter(curve: seq<Point>, threshold: real, p: nat) {
    forall k :: p <= k < |curve| ==> curve[k].newShare < threshold
  }

  /** `buildSaturation`. */
  method BuildSaturation(lower: string -> string, trs: seq<Transcript>, threshold: real)
      returns (curve: seq<Point>, plateau: nat, ghost ordered: seq<Transcript>)
    ensures IsCurve(lower, StableSort(trs, Earlier), curve)
    ensures IsPlateau(curve, threshold, plateau)
    // The curve follows the transcripts from the earliest start on, those without one last and by id.
    ensures multiset(ordered) == multiset(trs) && IsCurve(lower, ordered, curve) && IsChronological(ordered)
    ensures forall k :: 0 <= k < |curve| ==> curve[k].id == ordered[k].id && curve[k].index == k + 1
    // From the plateau on every share is below the threshold, and the one before it is not.
    ensures plateau <= |curve| && forall k :: plateau <= k < |curve| ==> curve[k].newShare < threshold
    ensures plateau > 0 ==> curve[plateau - 1].newShare >= threshold
  {
    hide IsCurve, IsPlateau, IsChronological;
    var sorted := StableSort(trs, Earlier);
    Chronological(trs);
    curve := MeasureCurve(lower, sorted);
    plateau := FindPlateau(curve, threshold);
    ordered := sorted;
    CurveFollows(lower, ordered, curve);
    PlateauEdge(curve, threshold, plateau);
  }

  /** From the earliest start on; those without one come last, by id. */
  ghost predicate IsChronological(ordered: seq<Transcript>) {
    forall i, j | 0 <= i < j < |ordered| ::
      && (ordered[i].start.Some? && ordered[j].start.Some? ==> ordered[i].start.value <= ordered[j].start.value)
      && (ordered[j].start.Some? ==> ordered[i].start.Some?)
      && (ordered[i].start.None? ==> ordered[i].id == ordered[j].id || StringLess(ordered[i].id, ordered[j].id))
  }

  lemma CurveFollows(lower: string -> string, ordered: seq<Transcript>, curve: seq<Point>)
    requires IsCurve(lower, ordered, curve)
    ensures |curve| == |ordered|
    ensures forall k :: 0 <= k < |curve| ==> curve[k].id == ordered[k].id && curve[k].index == k + 1
  {
    hide TermsOf, Corpus, Share;
  }

  lemma PlateauEdge(curve: seq<Point>, threshold: real, plateau: nat)
    requires IsPlateau(curve, threshold, plateau)
    ensures plateau <= |curve| && forall k :: plateau <= k < |curve| ==> curve[k].newShare < threshold
    ensures plateau > 0 ==> curve[plateau - 1].newShare >= threshold
  {
    if plateau > 0 && curve[plateau - 1].newShare < threshold {
      assert FlatAfter(curve, threshold, plateau - 1);
    }
  }

  lemma Chronological(trs: seq<Transcript>)
    ensures IsChronological(StableSort(trs, Earlier))
  {
    var ordered := StableSort(trs, Earlier);
    EarlierStrictWeak();
    StableSortOrdered(trs, Earlier);
    hide StableSort, StringLess;
    forall i, j | 0 <= i < j < |ordered|
      ensures ordered[i].start.Some? && ordered[j].start.Some? ==> ordered[i].start.value <= ordered[j].start.value
      ensures ordered[j].start.Some? ==> ordered[i].start.Some?
      ensures ordered[i].start.None? ==> ordered[i].id == ordered[j].id || StringLess(ordered[i].id, ordered[j].id)
    {
      assert !Earlier(ordered[j], ordered[i]);
      StringLessTotal(ordered[i].id, ordered[j].id);
    }
  }

  /** Transcripts with the same start, or with the same id and no start, keep the order in which they arrived. */
  lemma TiesKeepArrival(trs: seq<Transcript>, t: Transcript, same: Transcript -> bool)
    requires forall u :: same(u) <==> u.start == t.start && (t.start.None? ==> u.id == t.id)
    ensures Where(StableSort(trs, Earlier), same) == Where(trs, same)
  {
    StringLessTotal(t.id, t.id);
    StableSortKeepsTies(trs, Earlier, same);
  }

  /** What the points count: the terms of a transcript that no transcript before it has used. */
  lemma PointsCount(lower: string -> string, ordered: seq<Transcript>, curve: seq<Point>, k: nat)
    requires IsCurve(lower, ordered, curve) && k < |curve|
    ensures
      var terms, before := TermsOf(lower, ordered[k].messages), Corpus(lower, ordered[..k]);
      && curve[k].totalTerms == |terms| && curve[k].newTerms == |terms - before|
      && (|terms| > 0 ==> curve[k].newShare * curve[k].totalTerms as real == curve[k].newTerms as real)
      && (|terms| == 0 ==> curve[k].newShare == 0.0)
  {
    hide TermsOf, Corpus;
    assert curve[k] == PointFor(lower, ordered[..k], ordered[k]);
  }

  /** The terms of transcripts are those of their participants' turns. */
  lemma CorpusHolds(lower: string -> string, trs: seq<Transcript>, w: string)
    ensures w in Corpus(lower, trs) <==> exists t, m :: t in trs && m in t.messages && IsTermOf(lower, m, w)
  {
    hide TermsOf, Corpus, IsTermOf;
    CorpusIs(lower, trs, w);
    if t :| t in trs && w in TermsOf(lower, t.messages) {
      TermsIff(lower, t.messages, w);
    }
    if t, m :| t in trs && m in t.messages && IsTermOf(lower, m, w) {
      TermsIff(lower, t.messages, w);
    }
  }

  /** `w` is a maximal run of lower-case letters, digits and apostrophes in a participant's turn, of at least four
      characters and no stop word. */
  ghost predicate IsTermOf(lower: string -> string, m: Message, w: string) {
    m.participant && m.content.Some? && w !in STOP_WORDS && |w| >= 4 && IsWordOf(lower(m.content.value), w)
  }

  ghost predicate IsWordOf(s: string, w: string) {
    exists i: nat, j: nat :: j <= |s| && IsRun(s, i, j) && s[i..j] == w
  }

  lemma {:induction false} TermsIff(lower: string -> string, messages: seq<Message>, w: string)
    ensures w in TermsOf(lower, messages) <==> exists m :: m in messages && IsTermOf(lower, m, w)
  {
    if messages != [] {
      var front, last := messages[..|messages| - 1], messages[|messages| - 1];
      TermsIff(lower, front, w);
      assert forall m :: m in messages <==> m in front || m == last;
      assert w in MessageTerms(lower, last) <==> IsTermOf(lower, last, w);
    }
  }

  /** What a run is. */
  lemma RunsAre(s: string, i: nat, j: nat)
    ensures IsRun(s, i, j) <==>
      && i < j <= |s|
      && (forall k :: i <= k < j ==> 'a' <= s[k] <= 'z' || '0' <= s[k] <= '9' || s[k] == '\'')
      && (i == 0 || !('a' <= s[i - 1] <= 'z' || '0' <= s[i - 1] <= '9' || s[i - 1] == '\''))
      && (j == |s| || !('a' <= s[j] <= 'z' || '0' <= s[j] <= '9' || s[j] == '\''))
  {
  }

  method MeasureCurve(lower: string -> string, ordered: seq<Transcript>) returns (curve: seq<Point>)
    ensures IsCurve(lower, ordered, curve)
    ensures forall k :: 0 <= k < |curve| ==> curve[k].index == k + 1
  {
    hide PointFor, TermsOf, Corpus;
    var seen: set<string> := {};
    curve := [];
    CorpusOfNone(lower, ordered);
    for i := 0 to |ordered|
      invariant seen == Corpus(lower, ordered[..i])
      invariant |curve| == i && forall k :: 0 <= k < i ==> curve[k] == PointFor(lower, ordered[..k], ordered[k])
      invariant forall k :: 0 <= k < i ==> curve[k].index == k + 1
    {
      var point;
      point, seen := MeasureOne(lower, i, ordered[i], seen, ordered[..i]);
      curve := curve + [point];
      CorpusSnoc(lower, ordered, i);
    }
  }

  method MeasureOne(lower: string -> string, i: nat, t: Transcript, seen: set<string>, ghost before: seq<Transcript>)
      returns (p: Point, seen': set<string>)
    requires seen == Corpus(lower, before) && |before| == i
    ensures p == PointFor(lower, before, t) && p.index == i + 1
    ensures seen' == seen + TermsOf(lower, t.messages)
  {
    var terms := CollectTerms(lower, t.messages);
    var newCount;
    newCount, seen' := CountNew(terms, seen);
    var share := 0.0;
    if |terms| > 0 {
      share := newCount as real / |terms| as real;
    }
    p := Point(i + 1, t.id, newCount, |terms|, share);
  }

  lemma CorpusOfNone(lower: string -> string, ordered: seq<Transcript>)
    ensures Corpus(lower, ordered[..0]) == {}
    ensures ordered[..|ordered|] == ordered
  {
  }

  lemma CorpusSnoc(lower: string -> string, ordered: seq<Transcript>, i: nat)
    requires i < |ordered|
    ensures Corpus(lower, ordered[..i + 1]) == Corpus(lower, ordered[..i]) + TermsOf(lower, ordered[i].messages)
  {
    assert ordered[..i + 1][..i] == ordered[..i];
  }

  method FindPlateau(curve: seq<Point>, threshold: real) returns (plateau: nat)
    requires forall k :: 0 <= k < |curve| ==> curve[k].index == k + 1
    ensures IsPlateau(curve, threshold, plateau)
  {
    plateau := 0;
    var i := |curve|;
    while i > 0
      invariant 0 <= i <= |curve| && plateau == 0
      invariant FlatAfter(curve, threshold, i)
    {
      i := i - 1;
      if curve[i].newShare >= threshold {
        plateau := curve[i].index;
        break;
      }
    }
  }

  method CollectTerms(lower: string -> string, messages: seq<Message>) returns (terms: set<string>)
    ensures terms == TermsOf(lower, messages)
  {
    hide Tokens, Words;
    terms := {};
    for i := 0 to |messages|
      invariant terms == TermsOf(lower, messages[..i])
    {
      assert messages[..i + 1][..i] == messages[..i];
      var m := messages[i];
      if m.content.None? || !m.participant {
        continue;
      }
      var words := Tokenize(lower(m.content.value));
      terms := terms + set w | w in words;
    }
    assert messages[..|messages|] == messages;
  }

  method CountNew(terms: set<string>, before: set<string>) returns (newCount: nat, seen: set<string>)
    ensures newCount == |terms - before| && seen == before + terms
  {
    newCount, seen := 0, before;
    var pending := terms;
    while pending != {}
      invariant pending <= terms && seen == before + (terms - pending)
      invariant newCount + |pending - before| == |terms - before|
      decreases pending
    {
      var t :| t in pending;
      OneFewer(pending, before, t);
      pending := pending - {t};
      if t !in seen {
        newCount := newCount + 1;
        seen := seen + {t};
      }
    }
  }

  lemma OneFewer(pending: set<string>, before: set<string>, t: string)
    requires t in pending
    ensures |pending - before| == |pending - {t} - before| + if t in before then 0 else 1
  {
    assert pending - before == pending - {t} - before + if t in before then {} else {t};
  }

  // ----- What the curve adds up to

  function TotalNew(curve: seq<Point>): nat {
    if curve == [] then 0 else TotalNew(curve[..|curve| - 1]) + curve[|curve| - 1].newTerms
  }

  lemma NewOnTop(before: set<string>, terms: set<string>)
    ensures |before + terms| == |before| + |terms - before|
  {
    assert before + terms == before + (terms - before);
  }

  lemma {:induction false} CurveCountsEachTermOnce(lower: string -> string, ordered: seq<Transcript>, curve: seq<Point>)
    requires IsCurve(lower, ordered, curve)
    ensures TotalNew(curve) == |Corpus(lower, ordered)|
  {
    if ordered != [] {
      var n := |ordered| - 1;
      FrontCurve(lower, ordered, curve);
      CurveCountsEachTermOnce(lower, ordered[..n], curve[..n]);
      NewOnTop(Corpus(lower, ordered[..n]), TermsOf(lower, ordered[n].messages));
      assert curve[n] == PointFor(lower, ordered[..n], ordered[n]);
    }
  }

  lemma FrontCurve(lower: string -> string, ordered: seq<Transcript>, curve: seq<Point>)
    requires ordered != [] && IsCurve(lower, ordered, curve)
    ensures IsCurve(lower, ordered[..|ordered| - 1], curve[..|ordered| - 1])
  {
    hide PointFor;
    var front := ordered[..|ordered| - 1];
    forall k | 0 <= k < |front|
      ensures curve[k] == PointFor(lower, front[..k], front[k])
    {
      assert front[..k] == ordered[..k];
    }
  }

  /** Whatever order the transcripts arrive in, the new terms add up to the distinct terms of the whole corpus. */
  lemma NewTermsAreTheCorpus(lower: string -> string, trs: seq<Transcript>, curve: seq<Point>)
    requires IsCurve(lower, StableSort(trs, Earlier), curve)
    ensures TotalNew(curve) == |Corpus(lower, trs)|
  {
    var ordered := StableSort(trs, Earlier);
    CurveCountsEachTermOnce(lower, ordered, curve);
    SameElements(ordered, trs);
    forall w
      ensures w in Corpus(lower, ordered) <==> w in Corpus(lower, trs)
    {
      CorpusIs(lower, ordered, w);
      CorpusIs(lower, trs, w);
    }
    assert Corpus(lower, ordered) == Corpus(lower, trs);
  }

  /** When no two transcripts tie, the curve does not depend on the order they arrive in. */
  lemma CurveIgnoresArrivalOrder(
      lower: string -> string, trs: seq<Transcript>, others: seq<Transcript>, curve: seq<Point>, other: seq<Point>)
    requires multiset(trs) == multiset(others) && NoTies(trs, Earlier)
    requires IsCurve(lower, StableSort(trs, Earlier), curve) && IsCurve(lower, StableSort(others, Earlier), other)
    ensures curve == other
  {
    EarlierStrictWeak();
    StableSortOrdered(trs, Earlier);
    StableSortOrdered(others, Earlier);
    SameElements(StableSort(trs, Earlier), trs);
    OrderedUnique(StableSort(trs, Earlier), StableSort(others, Earlier), Earlier);
  }
}

/** The `--compact` projection of a list of rows. */
module Compact {
  import opened Basics

  /** A decoded row; what its values are does not matter here. */
  type Row<V> = map<string, V>

  const STATIC_FIELDS: set<string> :=
    {"id", "name", "title", "identifier", "code", "slug", "key",
     "status", "state", "type", "kind", "priority",
     "url", "email",
     "price", "amount", "cost", "fare", "rate", "currency",
     "rating", "score", "count",
     "language", "locale", "country", "region", "city", "domain",
     "created_at", "updated_at", "createdAt", "updatedAt", "date",
     "version"}

  const VERBOSE_FIELDS: set<string> :=
    {"description", "body", "content", "comments", "attachments", "html", "markdown", "_links", "links"}

  /** In how many rows `key` occurs. */
  function Occurrences<V>(rows: seq<Row<V>>, key: string): nat {
    if rows == [] then 0
    else Occurrences(rows[..|rows| - 1], key) + if key in rows[|rows| - 1] then 1 else 0
  }

  /** Four fifths of the rows, rounded up, but never all of two or more. */
  function Threshold(n: nat): (r: nat)
    ensures n >= 5 ==> 4 * n <= 5 * r < 4 * n + 5
    ensures n in {2, 3, 4} ==> r == n - 1
    ensures n >= 2 ==> r < n
  {
    var t := (n * 4 + 4) / 5;
    if n >= 2 && t > n - 1 then n - 1 else t
  }

  predicate SchemaAware(documented: seq<set<string>>) {
    exists i :: 0 <= i < |documented| && documented[i] != {}
  }

  /** Frequent enough to be kept without a schema. */
  predicate Frequent<V>(rows: seq<Row<V>>, documented: seq<set<string>>, key: string) {
    && !SchemaAware(documented) && key !in VERBOSE_FIELDS
    && 0 < Occurrences(rows, key) && Threshold(|rows|) <= Occurrences(rows, key)
  }

  predicate Kept<V>(rows: seq<Row<V>>, documented: seq<set<string>>, gravity: string -> bool, key: string) {
    || key in STATIC_FIELDS
    || (gravity(key) && exists i :: 0 <= i < |documented| && key in documented[i])
    || Frequent(rows, documented, key)
  }

  /** The row cut down to its kept keys, or the whole row when none is kept. */
  function CompactRow<V>(row: Row<V>, rows: seq<Row<V>>, documented: seq<set<string>>, gravity: string -> bool): Row<V>
  {
    if exists k :: k in row && Kept(rows, documented, gravity, k) then
      map k | k in row && Kept(rows, documented, gravity, k) :: row[k]
    else row
  }

  function CompactRows<V>(rows: seq<Row<V>>, documented: seq<set<string>>, gravity: string -> bool): (out: seq<Row<V>>)
    ensures |out| == |rows|
  {
    seq(|rows|, i requires 0 <= i < |rows| => CompactRow(rows[i], rows, documented, gravity))
  }

  // ----- The loops

  method CountKeys<V>(rows: seq<Row<V>>) returns (counts: map<string, nat>)
    ensures forall k :: k in counts <==> k !in VERBOSE_FIELDS && 0 < Occurrences(rows, k)
    ensures forall k :: k in counts ==> counts[k] == Occurrences(rows, k)
  {
    counts := map[];
    for i := 0 to |rows|
      invariant forall k :: k in counts <==> k !in VERBOSE_FIELDS && 0 < Occurrences(rows[..i], k)
      invariant forall k :: k in counts ==> counts[k] == Occurrences(rows[..i], k)
    {
      ghost var before := counts;
      var pending := rows[i].Keys;
      while pending != {}
        invariant pending <= rows[i].Keys
        invariant forall k :: k in counts <==> k in before || (k in rows[i] && k !in pending && k !in VERBOSE_FIELDS)
        invariant forall k :: k in counts ==>
          counts[k] == (if k in before then before[k] else 0) + (if k in rows[i] && k !in pending then 1 else 0)
        decreases pending
      {
        var k :| k in pending;
        pending := pending - {k};
        if k in VERBOSE_FIELDS {
          continue;
        }
        counts := counts[k := (if k in counts then counts[k] else 0) + 1];
      }
      assert rows[..i + 1][..i] == rows[..i];
    }
    assert rows[..|rows|] == rows;
  }

  method KeepFields<V>(rows: seq<Row<V>>, documented: seq<set<string>>, gravity: string -> bool)
      returns (keep: set<string>)
    ensures forall k :: k in keep <==> Kept(rows, documented, gravity, k)
  {
    keep := STATIC_FIELDS;
    for i := 0 to |documented|
      invariant forall k :: k in keep <==>
        k in STATIC_FIELDS || (gravity(k) && exists j :: 0 <= j < i && k in documented[j])
    {
      keep := keep + set field | field in documented[i] && gravity(field);
    }
    var schemaAware := false;
    for i := 0 to |documented|
      invariant !schemaAware
      invariant forall j :: 0 <= j < i ==> documented[j] == {}
    {
      if |documented[i]| > 0 {
        schemaAware := true;
        break;
      }
    }
    if !schemaAware && |rows| > 0 {
      var counts := CountKeys(rows);
      var threshold := (|rows| * 4 + 4) / 5;
      if |rows| >= 2 && threshold > |rows| - 1 {
        threshold := |rows| - 1;
      }
      keep := keep + set k | k in counts && counts[k] >= threshold;
    }
  }

  lemma CompactedIs<V>(
      row: Row<V>, compact: Row<V>, keep: set<string>, rows: seq<Row<V>>, documented: seq<set<string>>,
      gravity: string -> bool)
    requires forall k :: k in keep <==> Kept(rows, documented, gravity, k)
    requires var cut := map k | k in row && k in keep :: row[k];
             compact == if |cut| == 0 then row else cut
    ensures compact == CompactRow(row, rows, documented, gravity)
  {
    var cut := map k | k in row && k in keep :: row[k];
    assert cut.Keys == set k | k in row && k in keep;
    assert |cut| == |cut.Keys|;
    if k :| k in row && Kept(rows, documented, gravity, k) {
      assert k in cut.Keys;
    }
  }

  /** `compactListFields`. */
  method CompactListFields<V>(rows: seq<Row<V>>, documented: seq<set<string>>, gravity: string -> bool)
      returns (out: seq<Row<V>>)
    ensures out == CompactRows(rows, documented, gravity)
  {
    var keep := KeepFields(rows, documented, gravity);
    out := [];
    for i := 0 to |rows|
      invariant |out| == i
      invariant forall j :: 0 <= j < i ==> out[j] == CompactRow(rows[j], rows, documented, gravity)
    {
      var compact := map k | k in rows[i] && k in keep :: rows[i][k];
      if |compact| == 0 {
        compact := rows[i];
      }
      CompactedIs(rows[i], compact, keep, rows, documented, gravity);
      out := out + [compact];
    }
  }

  // ----- What compaction keeps

  /** Rows are neither added nor emptied nor altered, only cut down. */
  lemma CompactOnlyCuts<V>(rows: seq<Row<V>>, documented: seq<set<string>>, gravity: string -> bool, i: nat)
    requires i < |rows|
    ensures var out := CompactRows(rows, documented, gravity)[i];
            && out.Keys <= rows[i].Keys
            && (forall k :: k in out ==> out[k] == rows[i][k])
            && (out == map[] <==> rows[i] == map[])
            && (if exists k :: k in rows[i] && Kept(rows, documented, gravity, k)
                then forall k :: k in rows[i] ==> (k in out <==> Kept(rows, documented, gravity, k))
                else out == rows[i])
  {
    var out := CompactRows(rows, documented, gravity)[i];
    if k :| k in rows[i] && Kept(rows, documented, gravity, k) {
      assert k in out;
    }
  }

  lemma {:induction false} OccurrencesAre<V>(rows: seq<Row<V>>, key: string)
    ensures Occurrences(rows, key) == |IndicesOf(rows, (row: Row<V>) => key in row)|
  {
    var has := (row: Row<V>) => key in row;
    if rows == [] {
      assert IndicesOf(rows, has) == {};
    } else {
      var front, last := rows[..|rows| - 1], rows[|rows| - 1];
      OccurrencesAre(front, key);
      IndicesSnoc(front, last, has);
      assert front + [last] == rows;
    }
  }

  /** A key is kept when it is one of the lasting fields, when the schema documents it with enough gravity, or, without
      a schema, when it is not verbose and at least four in five rows carry it; of two to four rows, one may lack it. */
  lemma KeptIff<V>(rows: seq<Row<V>>, documented: seq<set<string>>, gravity: string -> bool, key: string)
    ensures
      var n, count := |rows|, |IndicesOf(rows, (row: Row<V>) => key in row)|;
      Kept(rows, documented, gravity, key) <==>
        || key in STATIC_FIELDS
        || (gravity(key) && exists i :: 0 <= i < |documented| && key in documented[i])
        || ((forall i :: 0 <= i < |documented| ==> documented[i] == {}) && key !in VERBOSE_FIELDS
            && count > 0 && (if n < 5 then count >= n - 1 else 5 * count >= 4 * n))
  {
    OccurrencesAre(rows, key);
    InFewRows(rows, key);
  }

  lemma {:induction false} InFewRows<V>(rows: seq<Row<V>>, key: string)
    ensures Occurrences(rows, key) <= |rows|
  {
    if rows != [] {
      InFewRows(rows[..|rows| - 1], key);
    }
  }

  lemma {:induction false} OneRowMissing<V>(rows: seq<Row<V>>, key: string, missing: nat)
    requires missing < |rows|
    requires forall i :: 0 <= i < |rows| && i != missing ==> key in rows[i]
    ensures Occurrences(rows, key) >= |rows| - 1
  {
    var front := rows[..|rows| - 1];
    if missing < |front| {
      OneRowMissing(front, key, missing);
    } else {
      InEveryRow(front, key);
    }
  }

  lemma {:induction false} InEveryRow<V>(rows: seq<Row<V>>, key: string)
    requires forall i :: 0 <= i < |rows| ==> key in rows[i]
    ensures Occurrences(rows, key) == |rows|
  {
    if rows != [] {
      InEveryRow(rows[..|rows| - 1], key);
    }
  }

  /** Without a schema, one row cannot veto a key that all the others carry. */
  lemma OneMissingRowCannotVeto<V>(
      rows: seq<Row<V>>, documented: seq<set<string>>, gravity: string -> bool, key: string, missing: nat)
    requires !SchemaAware(documented) && key !in VERBOSE_FIELDS
    requires |rows| >= 2 && missing < |rows| && forall i :: 0 <= i < |rows| && i != missing ==> key in rows[i]
    ensures forall i :: 0 <= i < |rows| && i != missing ==> key in CompactRows(rows, documented, gravity)[i]
  {
    OneRowMissing(rows, key, missing);
  }

  // ----- Compacting twice is compacting once

  lemma {:induction false} OccurrencesAfter<V>(
      part: seq<Row<V>>, out: seq<Row<V>>, rows: seq<Row<V>>, documented: seq<set<string>>, gravity: string -> bool,
      key: string)
    requires |out| == |part| && forall i :: 0 <= i < |part| ==> out[i] == CompactRow(part[i], rows, documented, gravity)
    ensures Occurrences(out, key) <= Occurrences(part, key)
    ensures Kept(rows, documented, gravity, key) ==> Occurrences(out, key) == Occurrences(part, key)
  {
    if part != [] {
      var n := |part| - 1;
      OccurrencesAfter(part[..n], out[..n], rows, documented, gravity, key);
    }
  }

  lemma CompactIdempotent<V>(rows: seq<Row<V>>, documented: seq<set<string>>, gravity: string -> bool)
    ensures var once := CompactRows(rows, documented, gravity);
            CompactRows(once, documented, gravity) == once
  {
    var once := CompactRows(rows, documented, gravity);
    forall k
      ensures Kept(once, documented, gravity, k) <==> Kept(rows, documented, gravity, k)
    {
      OccurrencesAfter(rows, once, rows, documented, gravity, k);
    }
    forall i | 0 <= i < |once|
      ensures CompactRow(once[i], once, documented, gravity) == once[i]
    {
      assert once[i] == CompactRow(rows[i], rows, documented, gravity);
    }
  }
}

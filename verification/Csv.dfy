/** The CSV printer, and the reader of section 2 of RFC 4180 that undoes it. */
module Csv {
  import opened Basics
  import opened Sorting

  // ----- Printing

  predicate NeedsQuotes(cell: string) {
    ',' in cell || '"' in cell || '\r' in cell || '\n' in cell
  }

  function Doubled(cell: string): string {
    if cell == "" then "" else (if cell[0] == '"' then "\"\"" else [cell[0]]) + Doubled(cell[1..])
  }

  function Escaped(cell: string): string {
    if NeedsQuotes(cell) then "\"" + Doubled(cell) + "\"" else cell
  }

  function Joined(cells: seq<string>): string {
    if cells == [] then ""
    else if |cells| == 1 then cells[0]
    else cells[0] + "," + Joined(cells[1..])
  }

  function EscapedAll(cells: seq<string>): (r: seq<string>)
    ensures |r| == |cells|
  {
    seq(|cells|, i requires 0 <= i < |cells| => Escaped(cells[i]))
  }

  function RowText(cells: seq<string>): (text: string)
    ensures text != ""
  {
    Joined(EscapedAll(cells)) + "\n"
  }

  function TableText(rows: seq<seq<string>>): string {
    if rows == [] then "" else TableText(rows[..|rows| - 1]) + RowText(rows[|rows| - 1])
  }

  /** `writeCSVRow`. */
  method WriteCSVRow(text: string, cells: seq<string>) returns (r: string)
    ensures r == text + RowText(cells)
  {
    var escaped := new string[|cells|];
    for i := 0 to |cells|
      invariant forall j :: 0 <= j < i ==> escaped[j] == Escaped(cells[j])
    {
      if NeedsQuotes(cells[i]) {
        escaped[i] := "\"" + Doubled(cells[i]) + "\"";
      } else {
        escaped[i] := cells[i];
      }
    }
    assert escaped[..] == EscapedAll(cells);
    r := text + (Joined(escaped[..]) + "\n");
  }

  /** How a value is shown; a missing or null one is the empty cell. */
  datatype Printer<!V> = Printer(isNull: V -> bool, show: V -> string)

  function CellOf<V>(p: Printer<V>, item: map<string, V>, key: string): string {
    if key in item && !p.isNull(item[key]) then p.show(item[key]) else ""
  }

  function CellsOf<V>(p: Printer<V>, item: map<string, V>, keys: seq<string>): (r: seq<string>)
    ensures |r| == |keys|
  {
    seq(|keys|, i requires 0 <= i < |keys| => CellOf(p, item, keys[i]))
  }

  function Table<V>(p: Printer<V>, items: seq<map<string, V>>, keys: seq<string>): (rows: seq<seq<string>>)
    ensures |rows| == |items| + 1
  {
    [keys] + seq(|items|, i requires 0 <= i < |items| => CellsOf(p, items[i], keys))
  }

  /** Every key of every row, once, in order. */
  ghost predicate IsHeader<V>(items: seq<map<string, V>>, keys: seq<string>) {
    && (forall k :: k in keys <==> exists i :: 0 <= i < |items| && k in items[i])
    && (forall i, j :: 0 <= i < j < |keys| ==> StringLess(keys[i], keys[j]))
  }

  /** `writeCSVRows`. */
  method WriteCSVRows<V>(p: Printer<V>, items: seq<map<string, V>>) returns (text: string, ghost keys: seq<string>)
    ensures items == [] ==> text == ""
    ensures items != [] ==> IsHeader(items, keys) && text == TableText(Table(p, items, keys))
  {
    hide RowText;
    if |items| == 0 {
      return "", [];
    }
    var header := HeaderKeys(items);
    text := WriteCSVRow("", header);
    var rows := Table(p, items, header);
    assert rows[..1] == [header] && TableText([header]) == RowText(header) by {
      var one: seq<seq<string>> := [header];
      assert one[..0] == [];
    }
    for i := 0 to |items|
      invariant text == TableText(rows[..i + 1])
    {
      var vals: seq<string> := [];
      for j := 0 to |header|
        invariant vals == CellsOf(p, items[i], header)[..j]
      {
        vals := vals + [CellOf(p, items[i], header[j])];
      }
      text := WriteCSVRow(text, vals);
      assert rows[..i + 2][..i + 1] == rows[..i + 1] && rows[i + 1] == vals;
    }
    assert rows[..|rows|] == rows;
    keys := header;
  }

  method HeaderKeys<V>(items: seq<map<string, V>>) returns (keys: seq<string>)
    ensures IsHeader(items, keys)
  {
    var keySet: set<string> := {};
    for i := 0 to |items|
      invariant forall k :: k in keySet <==> exists j :: 0 <= j < i && k in items[j]
    {
      keySet := keySet + items[i].Keys;
    }
    keys := SortedKeys(keySet);
  }

  // ----- Reading, by the rules of section 2 of RFC 4180 with LF line ends

  /** A field and what follows it. */
  datatype Field = Field(cell: string, rest: string)

  function ReadPlain(s: string): Option<Field> {
    if s == "" || s[0] == ',' || s[0] == '\n' then Some(Field("", s))
    else if s[0] == '"' || s[0] == '\r' then None
    else
      var tail := ReadPlain(s[1..]);
      if tail.None? then None else Some(Field([s[0]] + tail.value.cell, tail.value.rest))
  }

  /** The inside of a quoted field, past its closing quote. */
  function ReadQuoted(s: string): Option<Field> {
    if s == "" then None
    else if s[0] == '"' && |s| > 1 && s[1] == '"' then
      var tail := ReadQuoted(s[2..]);
      if tail.None? then None else Some(Field("\"" + tail.value.cell, tail.value.rest))
    else if s[0] == '"' then Some(Field("", s[1..]))
    else
      var tail := ReadQuoted(s[1..]);
      if tail.None? then None else Some(Field([s[0]] + tail.value.cell, tail.value.rest))
  }

  function ReadField(s: string): (f: Option<Field>)
    ensures f.Some? ==> |f.value.rest| <= |s|
  {
    if s != "" && s[0] == '"' then
      QuotedShrinks(s[1..]);
      ReadQuoted(s[1..])
    else
      PlainShrinks(s);
      ReadPlain(s)
  }

  datatype Record = Record(cells: seq<string>, rest: string)

  /** Fields separated by commas up to a line break or the end of the text. */
  function ReadRecord(s: string): (r: Option<Record>)
    ensures r.Some? && s != "" ==> |r.value.rest| < |s|
    decreases |s|
  {
    var f := ReadField(s);
    if f.None? then None
    else if f.value.rest == "" then Some(Record([f.value.cell], ""))
    else if f.value.rest[0] == '\n' then Some(Record([f.value.cell], f.value.rest[1..]))
    else if f.value.rest[0] != ',' then None
    else
      var tail := ReadRecord(f.value.rest[1..]);
      if tail.None? then None else Some(Record([f.value.cell] + tail.value.cells, tail.value.rest))
  }

  function ReadTable(s: string): Option<seq<seq<string>>>
    decreases |s|
  {
    if s == "" then Some([])
    else
      var r := ReadRecord(s);
      if r.None? then None
      else
        var tail := ReadTable(r.value.rest);
        if tail.None? then None else Some([r.value.cells] + tail.value)
  }

  lemma PlainShrinks(s: string)
    ensures ReadPlain(s).Some? ==> |ReadPlain(s).value.rest| <= |s|
  {
  }

  lemma QuotedShrinks(s: string)
    ensures ReadQuoted(s).Some? ==> |ReadQuoted(s).value.rest| < |s|
  {
  }

  // ----- The reader undoes the printer

  predicate EndsField(t: string) {
    t == "" || t[0] == ',' || t[0] == '\n'
  }

  lemma {:induction false} ReadPlainBack(cell: string, t: string)
    requires !NeedsQuotes(cell) && EndsField(t)
    ensures ReadPlain(cell + t) == Some(Field(cell, t))
  {
    if cell == "" {
      assert cell + t == t;
    } else {
      assert (cell + t)[1..] == cell[1..] + t;
      assert [cell[0]] + cell[1..] == cell;
      assert forall c :: c in cell[1..] ==> c in cell;
      ReadPlainBack(cell[1..], t);
    }
  }

  lemma {:induction false} ReadQuotedBack(cell: string, t: string)
    requires t == "" || t[0] != '"'
    ensures ReadQuoted(Doubled(cell) + "\"" + t) == Some(Field(cell, t))
  {
    var s := Doubled(cell) + "\"" + t;
    if cell == "" {
      assert s == "\"" + t && s[1..] == t;
    } else {
      var tail := Doubled(cell[1..]) + "\"" + t;
      ReadQuotedBack(cell[1..], t);
      hide ReadQuoted;
      if cell[0] == '"' {
        assert s == "\"\"" + tail;
        ReadEscapedQuote(tail);
        assert "\"" + cell[1..] == cell;
      } else {
        assert s == [cell[0]] + tail;
        ReadQuotedChar(cell[0], tail);
        assert [cell[0]] + cell[1..] == cell;
      }
    }
  }

  lemma ReadEscapedQuote(tail: string)
    requires ReadQuoted(tail).Some?
    ensures ReadQuoted("\"\"" + tail) == Some(Field("\"" + ReadQuoted(tail).value.cell, ReadQuoted(tail).value.rest))
  {
    var s := "\"\"" + tail;
    assert s[0] == '"' && s[1] == '"' && s[2..] == tail;
  }

  lemma ReadQuotedChar(c: char, tail: string)
    requires c != '"' && ReadQuoted(tail).Some?
    ensures ReadQuoted([c] + tail) == Some(Field([c] + ReadQuoted(tail).value.cell, ReadQuoted(tail).value.rest))
  {
    var s := [c] + tail;
    assert s[0] == c && s[1..] == tail;
  }

  lemma ReadFieldBack(cell: string, t: string)
    requires EndsField(t)
    ensures ReadField(Escaped(cell) + t) == Some(Field(cell, t))
  {
    hide ReadQuoted, ReadPlain, Doubled;
    if NeedsQuotes(cell) {
      assert (Escaped(cell) + t)[1..] == Doubled(cell) + "\"" + t;
      ReadQuotedBack(cell, t);
    } else {
      ReadPlainBack(cell, t);
      if cell == "" {
        assert Escaped(cell) + t == t;
      }
    }
  }

  lemma {:induction false} ReadRecordBack(cells: seq<string>, t: string)
    requires cells != []
    ensures ReadRecord(RowText(cells) + t) == Some(Record(cells, t))
  {
    hide Escaped, ReadField;
    var s := RowText(cells) + t;
    if |cells| == 1 {
      assert s == Escaped(cells[0]) + ("\n" + t);
      ReadFieldBack(cells[0], "\n" + t);
      assert ("\n" + t)[1..] == t;
      assert cells == [cells[0]];
    } else {
      assert EscapedAll(cells)[1..] == EscapedAll(cells[1..]);
      var tail := RowText(cells[1..]) + t;
      assert s == Escaped(cells[0]) + ("," + tail);
      ReadFieldBack(cells[0], "," + tail);
      assert ("," + tail)[1..] == tail;
      ReadRecordBack(cells[1..], t);
      assert cells == [cells[0]] + cells[1..];
    }
  }

  lemma {:induction false} TableTextCons(rows: seq<seq<string>>)
    requires rows != []
    ensures TableText(rows) == RowText(rows[0]) + TableText(rows[1..])
  {
    hide RowText;
    if |rows| > 1 {
      var front, last := rows[..|rows| - 1], RowText(rows[|rows| - 1]);
      TableTextCons(front);
      assert rows[1..][..|rows| - 2] == front[1..];
      assert TableText(rows[1..]) == TableText(front[1..]) + last;
      assert (RowText(rows[0]) + TableText(front[1..])) + last == RowText(rows[0]) + (TableText(front[1..]) + last);
    } else {
      assert rows[..0] == [] && rows[1..] == [];
    }
  }

  lemma {:induction false} ReadTableBack(rows: seq<seq<string>>)
    requires forall i :: 0 <= i < |rows| ==> rows[i] != []
    ensures ReadTable(TableText(rows)) == Some(rows)
  {
    hide ReadRecord, RowText;
    if rows != [] {
      TableTextCons(rows);
      ReadRecordBack(rows[0], TableText(rows[1..]));
      ReadTableBack(rows[1..]);
      assert rows == [rows[0]] + rows[1..];
    }
  }

  lemma EmptyRowText()
    ensures RowText([]) == RowText([""]) == "\n"
  {
    assert EscapedAll([""]) == [""];
  }

  lemma {:induction false} EmptyRowReadsAsOneCell(rows: seq<seq<string>>)
    ensures ReadTable(TableText(rows)).Some?
    ensures |ReadTable(TableText(rows)).value| == |rows|
    ensures forall i :: 0 <= i < |rows| ==>
      ReadTable(TableText(rows)).value[i] == if rows[i] == [] then [""] else rows[i]
  {
    hide RowText, ReadRecord;
    if rows != [] {
      TableTextCons(rows);
      if rows[0] == [] {
        EmptyRowText();
        ReadRecordBack([""], TableText(rows[1..]));
      } else {
        ReadRecordBack(rows[0], TableText(rows[1..]));
      }
      EmptyRowReadsAsOneCell(rows[1..]);
    }
  }

  lemma HasColumnsIff<V>(items: seq<map<string, V>>, keys: seq<string>)
    requires IsHeader(items, keys)
    ensures keys != [] <==> exists i :: 0 <= i < |items| && items[i] != map[]
  {
    if keys != [] {
      assert keys[0] in keys;
      var i :| 0 <= i < |items| && keys[0] in items[i];
      assert items[i] != map[];
    }
    if i :| 0 <= i < |items| && items[i] != map[] {
      var k :| k in items[i].Keys;
      assert k in keys;
    }
  }

  /** A cell is quoted only where it has to be. */
  lemma PlainIsPrintedAsIs(cell: string)
    ensures RowText([cell]) == cell + "\n" <==> !exists i :: 0 <= i < |cell| && cell[i] in {',', '"', '\r', '\n'}
    ensures (exists i :: 0 <= i < |cell| && cell[i] in {',', '"', '\r', '\n'}) ==>
      |Escaped(cell)| >= |cell| + 2 && Escaped(cell)[0] == Escaped(cell)[|Escaped(cell)| - 1] == '"'
  {
    assert EscapedAll([cell]) == [Escaped(cell)];
    DoubledGrows(cell);
  }

  lemma {:induction false} DoubledGrows(cell: string)
    ensures |Doubled(cell)| >= |cell|
  {
    if cell != "" {
      DoubledGrows(cell[1..]);
    }
  }

  /** Under each column a row reads back as what it holds there, and as the empty cell where it holds nothing. */
  lemma CellsReadBack<V>(p: Printer<V>, items: seq<map<string, V>>, keys: seq<string>, i: nat, j: nat)
    requires items != [] && IsHeader(items, keys) && i < |items| && j < |keys|
    ensures
      var table := ReadTable(TableText(Table(p, items, keys)));
      && table.Some? && |table.value| == |items| + 1 && table.value[0] == keys && |table.value[i + 1]| == |keys|
      && (keys[j] !in items[i] || p.isNull(items[i][keys[j]]) ==> table.value[i + 1][j] == "")
      && (keys[j] in items[i] && !p.isNull(items[i][keys[j]]) ==> table.value[i + 1][j] == p.show(items[i][keys[j]]))
  {
    hide ReadTable, TableText, IsHeader;
    ReadTableBack(Table(p, items, keys));
  }

  /** The printed table reads back as itself exactly when it has a column: every cell survives, whatever commas,
      quotes and line breaks it holds, but a row of no cells prints the line of a row of one empty cell. */
  lemma RoundTrip<V>(p: Printer<V>, items: seq<map<string, V>>, keys: seq<string>)
    requires items != [] && IsHeader(items, keys)
    ensures ReadTable(TableText(Table(p, items, keys))) == Some(Table(p, items, keys))
       <==> exists i :: 0 <= i < |items| && items[i] != map[]
  {
    hide ReadTable, TableText, IsHeader, CellOf;
    var rows := Table(p, items, keys);
    HasColumnsIff(items, keys);
    if keys != [] {
      ReadTableBack(rows);
    } else {
      EmptyRowReadsAsOneCell(rows);
      assert rows[0] == [];
    }
  }
}

/**
  The cell and row encoding of the table-to-CSV export (sidebar.js
  convertTableToCSV). Finding the table, its rows and their cells in the
  parsed markup is outside the model: a table arrives as the text content
  of each cell element, row by row, or as None when no table was found.
  Quoting follows section 2 (rules 5 to 7) of RFC 4180, and a decoder for
  one record written from that section is the encoder's partner.
*/
module Csv {
  import opened Wrappers
  import opened Text

  /** `s.replace(/"/g, '""')`. */
  function DoubleQuotes(s: string): (r: string)
    ensures |r| >= |s|
  {
    if s == [] then []
    else (if s[0] == '"' then "\"\"" else [s[0]]) + DoubleQuotes(s[1..])
  }

  /** Doubling adds exactly one character per quote. */
  lemma {:induction false} DoubleQuotesLength(s: string)
    ensures |DoubleQuotes(s)| == |s| + multiset(s)['"']
  {
    if s != [] {
      DoubleQuotesLength(s[1..]);
      assert s == [s[0]] + s[1..];
    }
  }

  /** Doubling quotes adds no comma or line feed and removes no quote, and
      changes nothing in a text without quotes. */
  lemma {:induction false} DoubleQuotesKeeps(s: string)
    ensures NeedsQuotes(DoubleQuotes(s)) <==> NeedsQuotes(s)
    ensures '"' !in s ==> DoubleQuotes(s) == s
  {
    if s != [] {
      DoubleQuotesKeeps(s[1..]);
      assert s == [s[0]] + s[1..];
    }
  }

  predicate NeedsQuotes(t: string) {
    ',' in t || '\n' in t || '"' in t
  }

  /** One cell: the trimmed text with quotes doubled, enclosed in quotes
      exactly when it contains a comma, a line feed or a quote. */
  function EncodeCell(text: string): string
  {
    var t := DoubleQuotes(Trim(text));
    if NeedsQuotes(t) then "\"" + t + "\"" else t
  }

  function EncodeCells(cells: seq<string>): (r: seq<string>)
    ensures |r| == |cells|
    ensures forall k :: 0 <= k < |cells| ==> r[k] == EncodeCell(cells[k])
  {
    seq(|cells|, k requires 0 <= k < |cells| => EncodeCell(cells[k]))
  }

  function TrimAll(cells: seq<string>): (r: seq<string>)
    ensures |r| == |cells|
    ensures forall k :: 0 <= k < |cells| ==> r[k] == Trim(cells[k])
  {
    seq(|cells|, k requires 0 <= k < |cells| => Trim(cells[k]))
  }

  // ---------------------------------------------------------------------
  // Decoding one record (RFC 4180, section 2)

  /** The rest of an escaped field after its opening quote: the field's
      text, with each doubled quote read as one, and what follows the
      closing quote. None when the closing quote is missing. */
  function ReadEscaped(s: string): (r: Option<(string, string)>)
    ensures r.Some? ==> |r.value.1| < |s|
  {
    if s == [] then None
    else if s[0] == '"' then
      if |s| >= 2 && s[1] == '"' then
        match ReadEscaped(s[2..])
        case None => None
        case Some((f, rest)) => Some(("\"" + f, rest))
      else Some(("", s[1..]))
    else
      match ReadEscaped(s[1..])
      case None => None
      case Some((f, rest)) => Some(([s[0]] + f, rest))
  }

  /** A non-escaped field: everything up to the next comma. */
  function ReadPlain(s: string): (r: (string, string))
    ensures |r.1| <= |s|
    ensures r.0 + r.1 == s
    ensures ',' !in r.0 && (r.1 == [] || r.1[0] == ',')
  {
    if s == [] || s[0] == ',' then ([], s)
    else
      var (f, rest) := ReadPlain(s[1..]);
      ([s[0]] + f, rest)
  }

  function ReadField(s: string): (r: Option<(string, string)>)
    ensures r.Some? ==> |r.value.1| <= |s|
  {
    if |s| > 0 && s[0] == '"' then ReadEscaped(s[1..]) else Some(ReadPlain(s))
  }

  /** The fields of one record, or None when it is malformed. */
  function DecodeRecord(s: string): Option<seq<string>>
    decreases |s|
  {
    match ReadField(s)
    case None => None
    case Some((f, rest)) =>
      if rest == [] then Some([f])
      else if rest[0] != ',' then None
      else
        match DecodeRecord(rest[1..])
        case None => None
        case Some(fs) => Some([f] + fs)
  }

  lemma {:induction false} ReadEscapedOfDoubled(x: string, t: string)
    requires t == [] || t[0] == ','
    ensures ReadEscaped(DoubleQuotes(x) + "\"" + t) == Some((x, t))
  {
    if x != [] {
      ReadEscapedOfDoubled(x[1..], t);
      var head := if x[0] == '"' then "\"\"" else [x[0]];
      assert DoubleQuotes(x) == head + DoubleQuotes(x[1..]);
      AfterHead(head, DoubleQuotes(x[1..]), "\"", t);
      assert [x[0]] + x[1..] == x;
    } else {
      assert DoubleQuotes(x) + "\"" + t == "\"" + t;
    }
  }

  lemma {:induction false} ReadPlainOf(x: string, t: string)
    requires ',' !in x && (t == [] || t[0] == ',')
    ensures ReadPlain(x + t) == (x, t)
  {
    if x != [] {
      var s := x + t;
      assert s[0] == x[0] && x[0] in x;
      assert s[1..] == x[1..] + t;
      ReadPlainOf(x[1..], t);
      assert [x[0]] + x[1..] == x;
    } else {
      assert x + t == t;
    }
  }

  /** An encoded cell followed by a comma or by nothing reads back as the
      trimmed text, leaving what followed it. */
  lemma ReadEncodedCell(text: string, t: string)
    requires t == [] || t[0] == ','
    ensures ReadField(EncodeCell(text) + t) == Some((Trim(text), t))
  {
    var x := Trim(text);
    var d := DoubleQuotes(x);
    DoubleQuotesKeeps(x);
    if NeedsQuotes(d) {
      Enclosed("\"", d, t);
      ReadEscapedOfDoubled(x, t);
    } else {
      assert d == x && EncodeCell(text) == x;
      ReadPlainOf(x, t);
      if x != [] {
        assert (x + t)[0] == x[0] && x[0] in x;
      }
    }
  }

  /** A text enclosed in `q` and followed by `t`: what follows the opening `q`. */
  lemma Enclosed<T>(q: seq<T>, d: seq<T>, t: seq<T>)
    ensures q + d + q + t == q + (d + q + t)
    ensures (q + (d + q + t))[|q|..] == d + q + t
  {
  }

  /** What follows a head `h`. */
  lemma AfterHead<T>(h: seq<T>, a: seq<T>, q: seq<T>, t: seq<T>)
    ensures (h + a) + q + t == h + (a + q + t)
    ensures (h + (a + q + t))[|h|..] == a + q + t
  {
  }

  /** Decoding a row's line by RFC 4180 gives back the trimmed cell texts. */
  lemma {:induction false} DecodeEncodedRow(cells: seq<string>)
    requires |cells| >= 1
    ensures DecodeRecord(Join(EncodeCells(cells), ",")) == Some(TrimAll(cells))
  {
    var e := EncodeCells(cells);
    if |cells| == 1 {
      ReadEncodedCell(cells[0], []);
      assert EncodeCell(cells[0]) + [] == Join(e, ",");
      assert TrimAll(cells) == [Trim(cells[0])];
    } else {
      var rest := Join(EncodeCells(cells[1..]), ",");
      assert EncodeCells(cells)[1..] == EncodeCells(cells[1..]);
      assert Join(e, ",") == EncodeCell(cells[0]) + ("," + rest);
      ReadEncodedCell(cells[0], "," + rest);
      assert ("," + rest)[1..] == rest;
      DecodeEncodedRow(cells[1..]);
      assert [Trim(cells[0])] + TrimAll(cells[1..]) == TrimAll(cells);
    }
  }

  // ---------------------------------------------------------------------
  // The whole table

  /** The rows that have at least one cell element, in order. */
  function RowsWithCells(rows: seq<seq<string>>): (r: seq<seq<string>>)
    ensures forall k :: 0 <= k < |r| ==> |r[k]| > 0
  {
    if rows == [] then []
    else (if |rows[0]| > 0 then [rows[0]] else []) + RowsWithCells(rows[1..])
  }

  function RowLines(rows: seq<seq<string>>): (r: seq<string>)
    ensures |r| == |rows|
    ensures forall k :: 0 <= k < |rows| ==> r[k] == Join(EncodeCells(rows[k]), ",")
  {
    seq(|rows|, k requires 0 <= k < |rows| => Join(EncodeCells(rows[k]), ","))
  }

  function NoTableError(): string { "No table found in HTML content" }
  function NoRowsError(): string { "No table rows found to convert to CSV" }

  /** The CSV text of a table: one line per row that has cells. */
  function TableToCsv(table: Option<seq<seq<string>>>): (r: Result<string, string>)
  {
    if table.None? then Err(NoTableError())
    else
      var lines := RowLines(RowsWithCells(table.value));
      if lines == [] then Err(NoRowsError()) else Ok(Join(lines, "\n"))
  }

  /** Without a table, or when no row has a cell, the export fails; the
      k-th line of a successful export decodes to the trimmed cells of the
      k-th row that has cells. */
  lemma CsvLinesDecode(table: Option<seq<seq<string>>>)
    ensures table.None? ==> TableToCsv(table) == Err(NoTableError())
    ensures table.Some? && RowsWithCells(table.value) == [] ==> TableToCsv(table) == Err(NoRowsError())
    ensures table.Some? && RowsWithCells(table.value) != [] ==>
              var rows := RowsWithCells(table.value);
              && TableToCsv(table) == Ok(Join(RowLines(rows), "\n"))
              && forall k :: 0 <= k < |rows| ==> DecodeRecord(RowLines(rows)[k]) == Some(TrimAll(rows[k]))
  {
    if table.Some? {
      var rows := RowsWithCells(table.value);
      forall k | 0 <= k < |rows|
        ensures DecodeRecord(RowLines(rows)[k]) == Some(TrimAll(rows[k]))
      {
        DecodeEncodedRow(rows[k]);
      }
    }
  }

  lemma {:induction false} RowsWithCellsAppend(rows: seq<seq<string>>, row: seq<string>)
    ensures RowsWithCells(rows + [row]) == RowsWithCells(rows) + (if |row| > 0 then [row] else [])
  {
    if rows != [] {
      assert (rows + [row])[1..] == rows[1..] + [row];
      RowsWithCellsAppend(rows[1..], row);
    } else {
      assert [row][1..] == [];
    }
  }

  lemma LinesStep(all: seq<seq<string>>, i: nat)
    requires i < |all|
    ensures RowLines(RowsWithCells(all[..i + 1]))
            == RowLines(RowsWithCells(all[..i])) + (if |all[i]| > 0 then [Join(EncodeCells(all[i]), ",")] else [])
  {
    assert all[..i + 1] == all[..i] + [all[i]];
    RowsWithCellsAppend(all[..i], all[i]);
    var a, b := RowsWithCells(all[..i]), (if |all[i]| > 0 then [all[i]] else []);
    assert RowLines(a + b) == RowLines(a) + RowLines(b);
  }

  /** The cells of one row, encoded and pushed in order. */
  method EncodeRow(row: seq<string>) returns (cells: seq<string>)
    ensures cells == EncodeCells(row)
  {
    cells := [];
    var j := 0;
    while j < |row|
      invariant 0 <= j <= |row|
      invariant cells == EncodeCells(row[..j])
    {
      EncodeCellsAppend(row[..j], row[j]);
      assert row[..j + 1] == row[..j] + [row[j]];
      cells := cells + [EncodeCell(row[j])];
      j := j + 1;
    }
    assert row[..j] == row;
  }

  lemma EncodeCellsAppend(cells: seq<string>, cell: string)
    ensures EncodeCells(cells + [cell]) == EncodeCells(cells) + [EncodeCell(cell)]
  {
  }

  /** The export: no table is an error, no line is an error, and the lines
      are otherwise joined by line feeds. */
  method ConvertTableToCsv(table: Option<seq<seq<string>>>) returns (r: Result<string, string>)
    ensures r == TableToCsv(table)
  {
    if table.None? {
      return Err(NoTableError());
    }
    var lines := EncodeRows(table.value);
    if lines == [] {
      return Err(NoRowsError());
    }
    r := Ok(Join(lines, "\n"));
  }

  /** The export loop: each row's cells are encoded and pushed, and a row
      without cells is skipped. */
  method EncodeRows(all: seq<seq<string>>) returns (lines: seq<string>)
    ensures lines == RowLines(RowsWithCells(all))
  {
    lines := [];
    var i := 0;
    while i < |all|
      invariant 0 <= i <= |all|
      invariant lines == RowLines(RowsWithCells(all[..i]))
    {
      var row := all[i];
      var cells := EncodeRow(row);
      LinesStep(all, i);
      if |cells| > 0 {
        lines := lines + [Join(cells, ",")];
      }
      i := i + 1;
    }
    assert all[..i] == all;
  }
}

/** The CSV layer of the IP-rule import and export (section 2 of RFC 4180, with some latitude). */
module Csv {
  import opened Common
  import opened Text

  type Row = seq<string>

  // ---------- printing ----------

  predicate Special(c: char) {
    c in {',', '"', '\n', '\r'}
  }

  function Doubled(s: string): string {
    if s == "" then "" else (if s[0] == '"' then "\"\"" else [s[0]]) + Doubled(s[1..])
  }

  predicate Plain(text: string) {
    forall c | c in text :: !Special(c)
  }

  function Escape(text: string): string {
    if Plain(text) then text else "\"" + Doubled(text) + "\""
  }

  function Escaped(row: Row): Row {
    seq(|row|, i requires 0 <= i < |row| => Escape(row[i]))
  }

  function PrintedRow(row: Row): string {
    Join(Escaped(row), ',')
  }

  function PrintedRows(rows: seq<Row>): seq<string> {
    seq(|rows|, i requires 0 <= i < |rows| => PrintedRow(rows[i]))
  }

  /** The exported file. */
  function Print(rows: seq<Row>): string {
    Join(PrintedRows(rows), '\n') + "\n"
  }

  // ---------- parsing ----------

  /** What String.prototype.trim removes. */
  predicate Blank(c: char) {
    c in {'\t', '\n', '\U{0B}', '\U{0C}', '\r', ' ', '\U{A0}', '\U{1680}', '\U{2028}', '\U{2029}', '\U{202F}',
          '\U{205F}', '\U{3000}', '\U{FEFF}'}
    || '\U{2000}' <= c <= '\U{200A}'
  }

  predicate HasText(row: Row) {
    exists cell | cell in row :: exists c | c in cell :: !Blank(c)
  }

  function WithText(rows: seq<Row>): seq<Row> {
    if rows == [] then []
    else WithText(rows[..|rows| - 1]) + if HasText(rows[|rows| - 1]) then [rows[|rows| - 1]] else []
  }

  datatype Scanner = Scanner(rows: seq<Row>, row: Row, cell: string, inQuotes: bool) {
    function EndCell(): Scanner {
      this.(row := row + [cell], cell := "")
    }

    function EndRow(): Scanner {
      this.(rows := rows + [row + [cell]], row := [], cell := "")
    }
  }

  const START := Scanner([], [], "", false)

  function Scan(s: string, st: Scanner): Scanner
    decreases |s|
  {
    if s == "" then st
    else if st.inQuotes then
      if s[0] != '"' then Scan(s[1..], st.(cell := st.cell + [s[0]]))
      else if |s| > 1 && s[1] == '"' then Scan(s[2..], st.(cell := st.cell + "\""))
      else Scan(s[1..], st.(inQuotes := false))
    else if s[0] == '"' then Scan(s[1..], st.(inQuotes := true))
    else if s[0] == ',' then Scan(s[1..], st.EndCell())
    else if s[0] == '\r' && |s| > 1 && s[1] == '\n' then Scan(s[2..], st.EndRow())
    else if s[0] == '\n' || s[0] == '\r' then Scan(s[1..], st.EndRow())
    else Scan(s[1..], st.(cell := st.cell + [s[0]]))
  }

  /** The rows with any text in them; None if a quote is left open. */
  function Parsed(text: string): Option<seq<Row>> {
    var st := Scan(text, START);
    if st.inQuotes then None else Some(WithText(st.EndRow().rows))
  }

  method FilterRows(rows: seq<Row>) returns (out: seq<Row>)
    ensures out == WithText(rows)
  {
    out := [];
    for i := 0 to |rows|
      invariant out == WithText(rows[..i])
    {
      assert rows[..i + 1][..i] == rows[..i];
      if HasText(rows[i]) {
        out := out + [rows[i]];
      }
    }
    assert rows[..|rows|] == rows;
  }

  method ParseCSVRows(source: string) returns (r: Option<seq<Row>>)
    ensures r == Parsed(source)
  {
    var st := START;
    var i := 0;
    while i < |source|
      invariant 0 <= i <= |source|
      invariant Scan(source, START) == Scan(source[i..], st)
    {
      var ch, next := source[i], i + 1 < |source| && source[i + 1] == '"';
      var crlf := ch == '\r' && i + 1 < |source| && source[i + 1] == '\n';
      assert source[i..][1..] == source[i + 1..];
      if st.inQuotes {
        if ch == '"' {
          if next {
            assert source[i..][2..] == source[i + 2..];
            st := st.(cell := st.cell + "\"");
            i := i + 1;
          } else {
            st := st.(inQuotes := false);
          }
        } else {
          st := st.(cell := st.cell + [ch]);
        }
      } else if ch == '"' {
        st := st.(inQuotes := true);
      } else if ch == ',' {
        st := st.EndCell();
      } else if ch == '\n' || ch == '\r' {
        st := st.EndRow();
        if crlf {
          assert source[i..][2..] == source[i + 2..];
          i := i + 1;
        }
      } else {
        st := st.(cell := st.cell + [ch]);
      }
      i := i + 1;
    }
    if st.inQuotes {
      return None;
    }
    var rows := FilterRows(st.EndRow().rows);
    return Some(rows);
  }

  // ---------- printing, then parsing ----------

  lemma {:induction false} ScanPlain(text: string, rest: string, st: Scanner)
    requires !st.inQuotes && Plain(text)
    ensures Scan(text + rest, st) == Scan(rest, st.(cell := st.cell + text))
    decreases |text|
  {
    if text == "" {
      assert text + rest == rest && st.cell + text == st.cell;
    } else {
      assert text[0] in text;
      assert (text + rest)[1..] == text[1..] + rest;
      ScanPlain(text[1..], rest, st.(cell := st.cell + [text[0]]));
      assert st.cell + [text[0]] + text[1..] == st.cell + text;
    }
  }

  lemma {:induction false} ScanQuoted(text: string, rest: string, st: Scanner)
    requires st.inQuotes && (rest == "" || rest[0] != '"')
    ensures Scan(Doubled(text) + "\"" + rest, st) == Scan(rest, st.(cell := st.cell + text, inQuotes := false))
    decreases |text|
  {
    var s := Doubled(text) + "\"" + rest;
    if text == "" {
      assert s == "\"" + rest && s[1..] == rest && st.cell + text == st.cell;
    } else {
      var n := if text[0] == '"' then 2 else 1;
      assert s[n..] == Doubled(text[1..]) + "\"" + rest;
      assert s[0] == text[0] && (n == 2 ==> s[1] == '"');
      assert n == 2 ==> "\"" == [text[0]];
      ScanQuoted(text[1..], rest, st.(cell := st.cell + [text[0]]));
      assert st.cell + [text[0]] + text[1..] == st.cell + text;
    }
  }

  /** A quoted piece adds to the cell what it quotes, wherever in the cell it stands. */
  lemma {:induction false} ScanQuotedPiece(text: string, rest: string, st: Scanner)
    requires !st.inQuotes && (rest == "" || rest[0] != '"')
    ensures Scan("\"" + Doubled(text) + "\"" + rest, st) == Scan(rest, st.(cell := st.cell + text))
  {
    var s, inner := "\"" + Doubled(text) + "\"" + rest, Doubled(text) + "\"" + rest;
    assert s[0] == '"' && s[1..] == inner;
    var open := st.(inQuotes := true);
    assert Scan(s, st) == Scan(inner, open);
    ScanQuoted(text, rest, open);
  }

  /** A printed cell is read back whole, whatever is in it. */
  lemma {:induction false} ScanCell(text: string, rest: string, st: Scanner)
    requires !st.inQuotes && st.cell == "" && (rest == "" || rest[0] != '"')
    ensures Scan(Escape(text) + rest, st) == Scan(rest, st.(cell := text))
  {
    assert st.cell + text == text;
    if Plain(text) {
      assert Escape(text) == text;
      ScanPlain(text, rest, st);
    } else {
      assert Escape(text) == "\"" + Doubled(text) + "\"";
      ScanQuotedPiece(text, rest, st);
    }
  }

  lemma {:induction false} DoubledOfConcat(a: string, b: string)
    ensures Doubled(a + b) == Doubled(a) + Doubled(b)
    ensures Doubled("\"") == "\"\""
    ensures '"' !in a ==> Doubled(a) == a
  {
    assert "\""[1..] == "";
    if a == "" {
      assert a + b == b;
    } else {
      assert (a + b)[1..] == a[1..] + b;
      DoubledOfConcat(a[1..], b);
      assert a == [a[0]] + a[1..];
    }
  }

  /** A cell without commas, quotes and line ends is printed as it is, any other between quotes. */
  lemma EscapeIs(text: string)
    ensures Escape(text) == if ',' !in text && '"' !in text && '\n' !in text && '\r' !in text then text
                            else "\"" + Doubled(text) + "\""
  {
  }

  /** A row without cells is printed like a row with one empty cell. */
  function CellsRead(row: Row): Row {
    if row == [] then [""] else row
  }

  predicate IsLineEnd(eol: string) {
    eol in {"\n", "\r\n", "\r"}
  }

  lemma ScanEnds(eol: string, rest: string, st: Scanner)
    requires !st.inQuotes && IsLineEnd(eol) && (rest == "" || rest[0] != '\n')
    ensures Scan(eol + rest, st) == Scan(rest, st.EndRow())
    ensures Scan("," + rest, st) == Scan(rest, st.EndCell())
  {
    assert ("," + rest)[1..] == rest && (eol + rest)[|eol|..] == rest;
  }

  lemma ScanNewline(rest: string, st: Scanner)
    requires !st.inQuotes
    ensures Scan("\n" + rest, st) == Scan(rest, st.EndRow())
    ensures Scan("," + rest, st) == Scan(rest, st.EndCell())
  {
    assert ("\n" + rest)[1..] == rest && ("," + rest)[1..] == rest;
  }

  lemma EscapeStarts(text: string)
    ensures Escape(text) == "" || Escape(text)[0] !in {'\n', '\r'}
  {
    assert text != "" ==> text[0] in text;
  }

  lemma RowStarts(row: Row)
    ensures PrintedRow(row) == "" || PrintedRow(row)[0] !in {'\n', '\r'}
  {
    if row != [] {
      EscapeStarts(row[0]);
    }
  }

  lemma {:induction false} ScanRow(row: Row, eol: string, rest: string, st: Scanner)
    requires !st.inQuotes && st.cell == "" && IsLineEnd(eol) && (eol == "\n" || rest == "" || rest[0] != '\n')
    ensures Scan(PrintedRow(row) + (eol + rest), st) ==
            Scan(rest, st.(rows := st.rows + [st.row + CellsRead(row)], row := [], cell := ""))
    decreases |row|
  {
    hide Scan, Escape, IsLineEnd;
    if row == [] {
      assert PrintedRow(row) + (eol + rest) == eol + rest;
      EndsLine(eol, rest, st);
    } else if |row| == 1 {
      assert PrintedRow(row) == Escape(row[0]) && [row[0]] == row;
      EolStarts(eol, rest);
      ScanCell(row[0], eol + rest, st);
      EndsLine(eol, rest, st.(cell := row[0]));
    } else {
      var tail := PrintedRow(row[1..]) + (eol + rest);
      PrintedFirst(row);
      assert PrintedRow(row) + (eol + rest) == Escape(row[0]) + ("," + tail);
      ScanCell(row[0], "," + tail, st);
      ScanNewline(tail, st.(cell := row[0]));
      ScanRow(row[1..], eol, rest, st.(row := st.row + [row[0]]));
      assert st.row + [row[0]] + row[1..] == st.row + row;
    }
  }

  lemma EolStarts(eol: string, rest: string)
    requires IsLineEnd(eol)
    ensures eol + rest != "" && (eol + rest)[0] != '"'
  {
  }

  lemma EndsLine(eol: string, rest: string, st: Scanner)
    requires !st.inQuotes && IsLineEnd(eol) && (eol == "\n" || rest == "" || rest[0] != '\n')
    ensures Scan(eol + rest, st) == Scan(rest, st.EndRow())
  {
    if eol == "\n" {
      ScanNewline(rest, st);
    } else {
      ScanEnds(eol, rest, st);
    }
  }

  lemma PrintedFirst(row: Row)
    requires |row| > 1
    ensures PrintedRow(row) == Escape(row[0]) + "," + PrintedRow(row[1..])
  {
    assert Escaped(row)[1..] == Escaped(row[1..]);
  }

  function RowsRead(rows: seq<Row>): seq<Row> {
    if rows == [] then [[""]] else seq(|rows|, i requires 0 <= i < |rows| => CellsRead(rows[i]))
  }

  lemma PrintedFirstRow(rows: seq<Row>)
    requires |rows| > 1
    ensures Print(rows) == PrintedRow(rows[0]) + ("\n" + Print(rows[1..]))
    ensures RowsRead(rows) == [CellsRead(rows[0])] + RowsRead(rows[1..])
  {
    assert PrintedRows(rows)[1..] == PrintedRows(rows[1..]);
  }

  function OnlyRow(rows: seq<Row>): Row
    requires |rows| <= 1
  {
    if rows == [] then [] else rows[0]
  }

  lemma PrintedOnlyRow(rows: seq<Row>)
    requires |rows| <= 1
    ensures Print(rows) == PrintedRow(OnlyRow(rows)) + ("\n" + "")
    ensures RowsRead(rows) == [CellsRead(OnlyRow(rows))]
  {
  }

  lemma ScanNothing(st: Scanner)
    ensures Scan("", st) == st
  {
  }

  lemma {:induction false} ScanRows(rows: seq<Row>, st: Scanner)
    requires !st.inQuotes && st.cell == "" && st.row == []
    ensures Scan(Print(rows), st) == st.(rows := st.rows + RowsRead(rows))
    decreases |rows|
  {
    hide Scan, Print, PrintedRow, RowsRead, CellsRead, OnlyRow;
    if |rows| <= 1 {
      var row := OnlyRow(rows);
      PrintedOnlyRow(rows);
      ScanRow(row, "\n", "", st);
      assert st.row + CellsRead(row) == CellsRead(row);
      ScanNothing(st.(rows := st.rows + [CellsRead(row)]));
    } else {
      var first := CellsRead(rows[0]);
      PrintedFirstRow(rows);
      ScanRow(rows[0], "\n", Print(rows[1..]), st);
      assert st.row + first == first;
      var next := st.(rows := st.rows + [first]);
      ScanRows(rows[1..], next);
      assert next.rows + RowsRead(rows[1..]) == st.rows + ([first] + RowsRead(rows[1..]));
    }
  }

  lemma EmptyCellHasNoText()
    ensures !HasText([""])
  {
  }

  lemma WithTextOfOneMore(rows: seq<Row>, row: Row)
    ensures WithText(rows + [row]) == WithText(rows) + if HasText(row) then [row] else []
  {
    assert (rows + [row])[..|rows|] == rows;
  }

  lemma {:induction false} ReadingKeepsText(rows: seq<Row>)
    ensures WithText(RowsRead(rows)) == WithText(rows)
  {
    EmptyCellHasNoText();
    if |rows| <= 1 {
      assert RowsRead(rows)[..0] == [];
    } else {
      var n := |rows| - 1;
      ReadingKeepsText(rows[..n]);
      assert RowsRead(rows) == RowsRead(rows[..n]) + [CellsRead(rows[n])];
      WithTextOfOneMore(RowsRead(rows[..n]), CellsRead(rows[n]));
    }
  }

  /** What is exported is read back, for all rows and any commas, quotes and line ends inside their
      cells; only rows without any text are dropped. */
  lemma ParseAfterPrint(rows: seq<Row>)
    ensures Parsed(Print(rows)) == Some(WithText(rows))
  {
    EmptyCellHasNoText();
    hide Scan, Print, RowsRead;
    ScanRows(rows, START);
    var st := Scan(Print(rows), START);
    assert st.rows == RowsRead(rows);
    assert st.row + [st.cell] == [""];
    assert st.EndRow().rows == RowsRead(rows) + [[""]];
    WithTextOfOneMore(RowsRead(rows), [""]);
    ReadingKeepsText(rows);
    assert WithText(st.EndRow().rows) == WithText(rows);
  }

  lemma {:induction false} WithTextIsAll(rows: seq<Row>)
    ensures |WithText(rows)| <= |rows|
    ensures WithText(rows) == rows <==> forall i :: 0 <= i < |rows| ==> HasText(rows[i])
    ensures |WithText(rows)| == |rows| ==> WithText(rows) == rows
  {
    if rows != [] {
      var n := |rows| - 1;
      WithTextIsAll(rows[..n]);
      assert rows == rows[..n] + [rows[n]];
      assert forall i :: 0 <= i < n ==> rows[..n][i] == rows[i];
    }
  }

  /** The round trip is the identity exactly when every row has some text. */
  lemma RoundTripExactly(rows: seq<Row>)
    ensures Parsed(Print(rows)) == Some(rows) <==> forall i :: 0 <= i < |rows| ==> HasText(rows[i])
  {
    ParseAfterPrint(rows);
    WithTextIsAll(rows);
  }

  // ---------- files from elsewhere ----------

  /** The rows as other programs write them: with any of the three line ends. */
  function Written(rows: seq<Row>, eol: string): string {
    if rows == [] then "" else PrintedRow(rows[0]) + (eol + Written(rows[1..], eol))
  }

  lemma WrittenStarts(rows: seq<Row>, eol: string)
    requires IsLineEnd(eol) && eol != "\n"
    ensures Written(rows, eol) == "" || Written(rows, eol)[0] != '\n'
  {
    if rows != [] {
      RowStarts(rows[0]);
    }
  }

  lemma {:induction false} ScanWritten(rows: seq<Row>, eol: string, st: Scanner)
    requires !st.inQuotes && st.cell == "" && st.row == [] && IsLineEnd(eol)
    ensures Scan(Written(rows, eol), st) == st.(rows := st.rows + AllRead(rows))
    decreases |rows|
  {
    if rows == [] {
      ScanNothing(st);
      assert st.rows + AllRead(rows) == st.rows;
    } else {
      var next := st.(rows := st.rows + [CellsRead(rows[0])]);
      if eol != "\n" {
        WrittenStarts(rows[1..], eol);
      }
      hide Scan, PrintedRow, CellsRead;
      ScanRow(rows[0], eol, Written(rows[1..], eol), st);
      assert st.row + CellsRead(rows[0]) == CellsRead(rows[0]);
      ScanWritten(rows[1..], eol, next);
      assert next.rows + AllRead(rows[1..]) == st.rows + AllRead(rows);
    }
  }

  function AllRead(rows: seq<Row>): seq<Row> {
    seq(|rows|, i requires 0 <= i < |rows| => CellsRead(rows[i]))
  }

  lemma {:induction false} AllReadKeepsText(rows: seq<Row>)
    ensures WithText(AllRead(rows)) == WithText(rows)
  {
    EmptyCellHasNoText();
    if rows != [] {
      var n := |rows| - 1;
      AllReadKeepsText(rows[..n]);
      assert AllRead(rows) == AllRead(rows[..n]) + [CellsRead(rows[n])];
      WithTextOfOneMore(AllRead(rows[..n]), CellsRead(rows[n]));
    }
  }

  /** A file means the same rows whichever line ends it has. */
  lemma LineEndsAlike(rows: seq<Row>, eol: string)
    requires IsLineEnd(eol)
    ensures Parsed(Written(rows, eol)) == Some(WithText(rows))
  {
    EmptyCellHasNoText();
    hide Scan, Written, AllRead;
    ScanWritten(rows, eol, START);
    var st := Scan(Written(rows, eol), START);
    assert st.rows == AllRead(rows);
    assert st.row + [st.cell] == [""];
    assert st.EndRow().rows == AllRead(rows) + [[""]];
    WithTextOfOneMore(AllRead(rows), [""]);
    AllReadKeepsText(rows);
    assert WithText(st.EndRow().rows) == WithText(rows);
  }

  lemma {:induction false} WithTextOfConcat(a: seq<Row>, b: seq<Row>)
    ensures WithText(a + b) == WithText(a) + WithText(b)
    decreases |b|
  {
    hide HasText;
    if b == [] {
      assert a + b == a;
    } else {
      var n := |b| - 1;
      WithTextOfConcat(a, b[..n]);
      assert a + b == (a + b[..n]) + [b[n]] && b == b[..n] + [b[n]];
      WithTextOfOneMore(a + b[..n], b[n]);
      WithTextOfOneMore(b[..n], b[n]);
    }
  }

  // ---------- when parsing fails ----------

  function Quotes(s: string): nat {
    if s == "" then 0 else (if s[0] == '"' then 1 else 0) + Quotes(s[1..])
  }

  lemma {:induction false} QuotesToggle(s: string, st: Scanner)
    ensures Scan(s, st).inQuotes <==> (st.inQuotes <==> Quotes(s) % 2 == 0)
    decreases |s|
  {
    if s != "" {
      if |s| > 1 {
        assert s[1..][1..] == s[2..];
        assert Quotes(s) == (if s[0] == '"' then 1 else 0) + (if s[1] == '"' then 1 else 0) + Quotes(s[2..]);
      }
      if st.inQuotes {
        if s[0] != '"' {
          QuotesToggle(s[1..], st.(cell := st.cell + [s[0]]));
        } else if |s| > 1 && s[1] == '"' {
          QuotesToggle(s[2..], st.(cell := st.cell + "\""));
        } else {
          QuotesToggle(s[1..], st.(inQuotes := false));
        }
      } else if s[0] == '"' {
        QuotesToggle(s[1..], st.(inQuotes := true));
      } else if s[0] == ',' {
        QuotesToggle(s[1..], st.EndCell());
      } else if s[0] == '\r' && |s| > 1 && s[1] == '\n' {
        QuotesToggle(s[2..], st.EndRow());
      } else if s[0] == '\n' || s[0] == '\r' {
        QuotesToggle(s[1..], st.EndRow());
      } else {
        QuotesToggle(s[1..], st.(cell := st.cell + [s[0]]));
      }
    }
  }

  /** A text is refused exactly when it has an odd number of quotes. */
  lemma ParseFailsExactly(text: string)
    ensures Parsed(text).None? <==> Quotes(text) % 2 == 1
  {
    QuotesToggle(text, START);
  }
}

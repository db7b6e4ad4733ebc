/** The quote-aware CSV reader and the printers it is meant to undo, in the format of section 2 of
    RFC 4180, with LF and CR accepted as line ends besides CRLF. */
module Csv {
  import opened Common

  type Table = seq<seq<string>>

  /** The reader's variables. */
  datatype Reader = Reader(rows: Table, row: seq<string>, cell: string, inQuotes: bool)

  const START := Reader([], [], "", false)

  function EndRow(r: Reader): Reader {
    Reader(r.rows + [r.row + [r.cell]], [], "", r.inQuotes)
  }

  /** Reading the rest of the input. */
  function Scan(s: string, r: Reader): Reader
    decreases |s|
  {
    if s == [] then r
    else if s[0] == '"' && r.inQuotes && |s| > 1 && s[1] == '"' then Scan(s[2..], r.(cell := r.cell + ['"']))
    else if s[0] == '"' then Scan(s[1..], r.(inQuotes := !r.inQuotes))
    else if s[0] == ',' && !r.inQuotes then Scan(s[1..], r.(row := r.row + [r.cell], cell := ""))
    else if (s[0] == '\n' || s[0] == '\r') && !r.inQuotes then
      Scan(if s[0] == '\r' && |s| > 1 && s[1] == '\n' then s[2..] else s[1..], EndRow(r))
    else Scan(s[1..], r.(cell := r.cell + [s[0]]))
  }

  function Finish(r: Reader): Table {
    if r.cell != "" || r.row != [] then EndRow(r).rows else r.rows
  }

  function Parse(csv: string): Table {
    Finish(Scan(csv, START))
  }

  method ParseCsv(csv: string) returns (rows: Table)
    ensures rows == Parse(csv)
  {
    rows := [];
    var row: seq<string>, cell: string, inQuotes := [], "", false;
    var index := 0;
    while index < |csv|
      invariant index <= |csv|
      invariant Scan(csv, START) == Scan(csv[index..], Reader(rows, row, cell, inQuotes))
    {
      var c := csv[index];
      var next := if index + 1 < |csv| then Some(csv[index + 1]) else None;
      ghost var rest := csv[index..];
      assert rest[1..] == csv[index + 1..];
      assert next.Some? ==> |rest| > 1 && rest[1] == next.value && rest[2..] == csv[index + 2..];
      if c == '"' && inQuotes && next == Some('"') {
        cell := cell + ['"'];
        index := index + 1;
      } else if c == '"' {
        inQuotes := !inQuotes;
      } else if c == ',' && !inQuotes {
        row := row + [cell];
        cell := "";
      } else if (c == '\n' || c == '\r') && !inQuotes {
        if c == '\r' && next == Some('\n') {
          index := index + 1;
        }
        row := row + [cell];
        rows := rows + [row];
        row := [];
        cell := "";
      } else {
        cell := cell + [c];
      }
      index := index + 1;
    }
    if |cell| > 0 || |row| > 0 {
      row := row + [cell];
      rows := rows + [row];
    }
  }

  // ---- printed tables ----

  predicate Special(c: char) {
    c == '"' || c == ',' || c == '\n' || c == '\r'
  }

  predicate IsPlain(s: string) {
    forall i | 0 <= i < |s| :: !Special(s[i])
  }

  /** `replaceAll('"', '""')` */
  function Double(s: string): string {
    if s == [] then [] else (if s[0] == '"' then "\"\"" else [s[0]]) + Double(s[1..])
  }

  datatype Cell = Cell(text: string, quoted: bool)

  predicate Printable(c: Cell) {
    c.quoted || IsPlain(c.text)
  }

  function Show(c: Cell): string {
    if c.quoted then "\"" + Double(c.text) + "\"" else c.text
  }

  function ShowRow(row: seq<Cell>): string {
    if row == [] then "" else if |row| == 1 then Show(row[0]) else Show(row[0]) + "," + ShowRow(row[1..])
  }

  datatype Eol = Lf | Cr | CrLf

  function ShowEol(e: Option<Eol>): string {
    match e
    case None => ""
    case Some(Lf) => "\n"
    case Some(Cr) => "\r"
    case Some(CrLf) => "\r\n"
  }

  /** A line and its end; only the last line may have none. */
  datatype Line = Line(cells: seq<Cell>, eol: Option<Eol>)

  function ShowLines(lines: seq<Line>): string {
    if lines == [] then ""
    else ShowRow(lines[0].cells) + ShowEol(lines[0].eol) + ShowLines(lines[1..])
  }

  predicate LineOk(l: Line) {
    forall c | c in l.cells :: Printable(c)
  }

  ghost predicate Lines(lines: seq<Line>) {
    && (forall i | 0 <= i < |lines| :: LineOk(lines[i]))
    && (forall i | 0 <= i < |lines| - 1 :: lines[i].eol.Some?)
  }

  function Texts(cells: seq<Cell>): seq<string> {
    seq(|cells|, i requires 0 <= i < |cells| => cells[i].text)
  }

  /** The row a line stands for: a line without cells reads as one empty cell. */
  function RowOf(l: Line): seq<string> {
    if l.cells == [] then [""] else Texts(l.cells)
  }

  /** The lines no reader of this kind can see: an unterminated line holding one empty cell, and a
      line that shows nothing but the LF which a CR before it takes as its own. */
  predicate Lost(l: Line, afterCr: bool) {
    (l.eol.None? && RowOf(l) == [""]) || (afterCr && l.eol == Some(Lf) && ShowRow(l.cells) == "")
  }

  function Visible(lines: seq<Line>, afterCr: bool): Table {
    if lines == [] then []
    else (if Lost(lines[0], afterCr) then [] else [RowOf(lines[0])]) + Visible(lines[1..], lines[0].eol == Some(Cr))
  }

  // ---- reading what was printed ----

  predicate NoQuote(s: string) {
    s == [] || s[0] != '"'
  }

  lemma {:induction false} ScanPlain(text: string, rest: string, r: Reader)
    requires IsPlain(text) && !r.inQuotes
    ensures Scan(text + rest, r) == Scan(rest, r.(cell := r.cell + text))
  {
    if text == [] {
      assert text + rest == rest && r.cell + text == r.cell;
    } else {
      var s := text + rest;
      assert s[0] == text[0] && s[1..] == text[1..] + rest;
      assert !Special(text[0]);
      ScanPlain(text[1..], rest, r.(cell := r.cell + [text[0]]));
      assert r.cell + [text[0]] + text[1..] == r.cell + text;
    }
  }

  lemma {:induction false} ScanQuoted(text: string, rest: string, r: Reader)
    requires r.inQuotes && NoQuote(rest)
    ensures Scan(Double(text) + "\"" + rest, r) == Scan(rest, r.(cell := r.cell + text, inQuotes := false))
  {
    var s := Double(text) + "\"" + rest;
    if text == [] {
      assert s == "\"" + rest && s[1..] == rest && r.cell + text == r.cell;
    } else {
      var tail := Double(text[1..]) + "\"" + rest;
      ScanQuoted(text[1..], rest, r.(cell := r.cell + [text[0]]));
      assert r.cell + [text[0]] + text[1..] == r.cell + text;
      if text[0] == '"' {
        assert s == "\"\"" + tail && s[2..] == tail;
      } else {
        assert s == [text[0]] + tail && s[1..] == tail;
      }
    }
  }

  lemma ScanCell(c: Cell, rest: string, r: Reader)
    requires Printable(c) && !r.inQuotes && r.cell == "" && NoQuote(rest)
    ensures Scan(Show(c) + rest, r) == Scan(rest, r.(cell := c.text))
  {
    if c.quoted {
      var s := Show(c) + rest;
      assert s == ['"'] + (Double(c.text) + "\"" + rest);
      assert s[1..] == Double(c.text) + "\"" + rest;
      ScanQuoted(c.text, rest, r.(inQuotes := true));
      assert "" + c.text == c.text;
    } else {
      ScanPlain(c.text, rest, r);
      assert "" + c.text == c.text;
    }
  }

  lemma {:induction false} ScanRow(cells: seq<Cell>, rest: string, r: Reader)
    requires cells != [] && LineOk(Line(cells, None))
    requires !r.inQuotes && r.cell == "" && NoQuote(rest)
    ensures Scan(ShowRow(cells) + rest, r)
      == Scan(rest, r.(row := r.row + Texts(cells)[..|cells| - 1], cell := cells[|cells| - 1].text))
  {
    assert Printable(cells[0]);
    if |cells| == 1 {
      ScanCell(cells[0], rest, r);
      assert Texts(cells)[..0] == [];
      assert r.row + [] == r.row;
    } else {
      ShowRowSplit(cells, rest);
      ScanField(cells[0], ShowRow(cells[1..]) + rest, r);
      ScanRow(cells[1..], rest, r.(row := r.row + [cells[0].text], cell := ""));
      TextsTail(cells, r.row);
    }
  }

  lemma ShowRowSplit(cells: seq<Cell>, rest: string)
    requires |cells| > 1
    ensures ShowRow(cells) + rest == Show(cells[0]) + ("," + (ShowRow(cells[1..]) + rest))
  {
    Regroup(Show(cells[0]), ",", ShowRow(cells[1..]), rest);
  }

  lemma ScanField(c: Cell, rest: string, r: Reader)
    requires Printable(c) && !r.inQuotes && r.cell == ""
    ensures Scan(Show(c) + ("," + rest), r) == Scan(rest, r.(row := r.row + [c.text], cell := ""))
  {
    ScanCell(c, "," + rest, r);
    ScanComma(rest, r.(cell := c.text));
  }

  lemma ScanComma(rest: string, r: Reader)
    requires !r.inQuotes
    ensures Scan("," + rest, r) == Scan(rest, r.(row := r.row + [r.cell], cell := ""))
  {
    assert ("," + rest)[1..] == rest;
  }

  lemma TextsTail(cells: seq<Cell>, row: seq<string>)
    requires |cells| > 1
    ensures row + [cells[0].text] + Texts(cells[1..])[..|cells| - 2] == row + Texts(cells)[..|cells| - 1]
  {
  }

  /** What follows a line end, as the reader sees it. */
  function AfterEol(e: Option<Eol>, rest: string): string {
    if e == Some(Cr) && rest != [] && rest[0] == '\n' then rest[1..] else rest
  }

  lemma ScanEol(e: Eol, rest: string, r: Reader)
    requires !r.inQuotes
    ensures Scan(ShowEol(Some(e)) + rest, r) == Scan(AfterEol(Some(e), rest), EndRow(r))
  {
    var s := ShowEol(Some(e)) + rest;
    match e {
      case Lf => assert s[1..] == rest;
      case Cr =>
        assert s[1..] == rest;
        if rest != [] && rest[0] == '\n' { assert s[2..] == rest[1..]; }
      case CrLf => assert s[2..] == rest;
    }
  }

  lemma ScanLine(l: Line, rest: string, rows: Table)
    requires LineOk(l) && l.eol.Some?
    ensures Scan(ShowRow(l.cells) + ShowEol(l.eol) + rest, Reader(rows, [], "", false))
      == Scan(AfterEol(l.eol, rest), Reader(rows + [RowOf(l)], [], "", false))
  {
    var r := Reader(rows, [], "", false);
    var tail := ShowEol(l.eol) + rest;
    assert ShowRow(l.cells) + ShowEol(l.eol) + rest == ShowRow(l.cells) + tail;
    if l.cells == [] {
      assert "" + tail == tail && [] + [""] == [""];
      ScanEol(l.eol.value, rest, r);
    } else {
      var n := |l.cells| - 1;
      ScanRow(l.cells, tail, r);
      ScanEol(l.eol.value, rest, r.(row := [] + Texts(l.cells)[..n], cell := l.cells[n].text));
      assert [] + Texts(l.cells)[..n] + [l.cells[n].text] == Texts(l.cells);
    }
  }

  lemma LastLine(l: Line, rows: Table)
    requires LineOk(l) && l.eol.None?
    ensures Finish(Scan(ShowRow(l.cells), Reader(rows, [], "", false)))
      == rows + if RowOf(l) == [""] then [] else [RowOf(l)]
  {
    var r := Reader(rows, [], "", false);
    if l.cells != [] {
      var n := |l.cells| - 1;
      ScanRow(l.cells, "", r);
      assert ShowRow(l.cells) + "" == ShowRow(l.cells);
      assert [] + Texts(l.cells)[..n] + [l.cells[n].text] == Texts(l.cells);
    }
  }

  /** A printed table starts with an LF only when its first line is the lone LF. */
  lemma ShowStart(lines: seq<Line>)
    requires Lines(lines)
    ensures var s := ShowLines(lines);
      s != [] && s[0] == '\n' <==> lines != [] && ShowRow(lines[0].cells) == "" && lines[0].eol == Some(Lf)
  {
    if lines != [] {
      assert LineOk(lines[0]);
      if ShowRow(lines[0].cells) != "" {
        assert lines[0].cells[0] in lines[0].cells;
        assert Printable(lines[0].cells[0]);
      } else if lines[0].eol.None? {
        assert |lines| == 1 && lines[1..] == [];
      }
    }
  }

  /** The line after a CR that the reader skips together with it. */
  predicate Swallowed(l: Line, rest: seq<Line>) {
    l.eol == Some(Cr) && rest != [] && ShowRow(rest[0].cells) == "" && rest[0].eol == Some(Lf)
  }

  lemma AfterLine(l: Line, rest: seq<Line>)
    requires Lines(rest)
    ensures AfterEol(l.eol, ShowLines(rest)) == ShowLines(if Swallowed(l, rest) then rest[1..] else rest)
  {
    ShowStart(rest);
    if Swallowed(l, rest) {
      assert ShowLines(rest) == "" + "\n" + ShowLines(rest[1..]);
      assert ShowLines(rest)[1..] == ShowLines(rest[1..]);
    }
  }

  function NextLines(lines: seq<Line>): seq<Line>
    requires lines != []
  {
    if Swallowed(lines[0], lines[1..]) then lines[2..] else lines[1..]
  }

  lemma VisibleSplit(lines: seq<Line>, rows: Table)
    requires lines != [] && lines[0].eol.Some?
    ensures rows + Visible(lines, false) == rows + [RowOf(lines[0])] + Visible(NextLines(lines), false)
  {
    var l, rest := lines[0], lines[1..];
    assert rest != [] ==> rest[1..] == lines[2..];
    if Swallowed(l, rest) {
      assert Visible(rest, true) == [] + Visible(rest[1..], false);
    }
    assert Visible(lines, false) == [RowOf(l)] + Visible(NextLines(lines), false);
  }

  /** What the reader makes of the remaining lines. */
  function ReadLines(lines: seq<Line>, rows: Table): Table {
    Finish(Scan(ShowLines(lines), Reader(rows, [], "", false)))
  }

  lemma ReadOneLine(lines: seq<Line>, rows: Table)
    requires Lines(lines) && lines != [] && lines[0].eol.Some?
    ensures ReadLines(lines, rows) == ReadLines(NextLines(lines), rows + [RowOf(lines[0])])
  {
    assert LineOk(lines[0]);
    assert |lines| > 1 ==> lines[1..][1..] == lines[2..];
    ScanLine(lines[0], ShowLines(lines[1..]), rows);
    AfterLine(lines[0], lines[1..]);
  }

  lemma ReadLastLine(lines: seq<Line>, rows: Table)
    requires Lines(lines) && lines != [] && lines[0].eol.None?
    ensures ReadLines(lines, rows) == rows + Visible(lines, false)
  {
    var l := lines[0];
    assert LineOk(l) && |lines| == 1;
    assert ShowLines(lines[1..]) == "" && Visible(lines[1..], false) == [];
    assert ShowLines(lines) == ShowRow(l.cells);
    LastLine(l, rows);
  }

  lemma {:induction false} ReadAllLines(lines: seq<Line>, rows: Table)
    requires Lines(lines)
    ensures ReadLines(lines, rows) == rows + Visible(lines, false)
    decreases |lines|
  {
    if lines == [] {
      assert rows + [] == rows;
    } else if lines[0].eol.None? {
      ReadLastLine(lines, rows);
    } else {
      ReadOneLine(lines, rows);
      ReadAllLines(NextLines(lines), rows + [RowOf(lines[0])]);
      VisibleSplit(lines, rows);
    }
  }

  /** Whatever cells are quoted and whatever mixture of line ends is used, the reader returns the
      rows of the printed lines, less exactly the lost ones. */
  lemma ParseShow(lines: seq<Line>)
    requires Lines(lines)
    ensures Parse(ShowLines(lines)) == Visible(lines, false)
  {
    ReadAllLines(lines, []);
    assert [] + Visible(lines, false) == Visible(lines, false);
  }

  // ---- text written as it is ----

  /** The rows, the cells of the row and the characters of the cell that the reader has taken stay. */
  ghost predicate Keeps(r: Reader, t: Table) {
    && r.rows <= t
    && (|t| > |r.rows| ==>
          && r.row <= t[|r.rows|] && |t[|r.rows|]| > |r.row|
          && r.cell <= t[|r.rows|][|r.row|])
  }

  lemma {:induction false} ScanKeeps(s: string, r: Reader)
    ensures Keeps(r, Finish(Scan(s, r)))
    decreases |s|
  {
    if s == [] {
    } else if s[0] == '"' && r.inQuotes && |s| > 1 && s[1] == '"' {
      ScanKeeps(s[2..], r.(cell := r.cell + ['"']));
    } else if s[0] == '"' {
      ScanKeeps(s[1..], r.(inQuotes := !r.inQuotes));
    } else if s[0] == ',' && !r.inQuotes {
      ScanKeeps(s[1..], r.(row := r.row + [r.cell], cell := ""));
    } else if (s[0] == '\n' || s[0] == '\r') && !r.inQuotes {
      ScanKeeps(if s[0] == '\r' && |s| > 1 && s[1] == '\n' then s[2..] else s[1..], EndRow(r));
    } else {
      ScanKeeps(s[1..], r.(cell := r.cell + [s[0]]));
    }
  }

  /** The cell being read, once the reader is done. */
  ghost predicate CellReads(s: string, r: Reader, text: string) {
    var t := Finish(Scan(s, r));
    |t| > |r.rows| && |t[|r.rows|]| > |r.row| && t[|r.rows|][|r.row|] == text
  }

  lemma CellEnds(rest: string, r: Reader, text: string)
    requires rest != [] && Special(rest[0]) && rest[0] != '"' && !r.inQuotes && r.cell != text
    ensures !CellReads(rest, r, text)
  {
    if rest[0] == ',' {
      ScanKeeps(rest[1..], r.(row := r.row + [r.cell], cell := ""));
    } else {
      ScanKeeps(if rest[0] == '\r' && |rest| > 1 && rest[1] == '\n' then rest[2..] else rest[1..], EndRow(r));
    }
  }

  function Quotes(n: nat): string {
    seq(n, _ => '"')
  }

  lemma {:induction false} ScanQuotes(n: nat, rest: string, r: Reader)
    requires r.inQuotes && NoQuote(rest)
    ensures Scan(Quotes(n) + rest, r) == Scan(rest, r.(cell := r.cell + Quotes(n / 2), inQuotes := n % 2 == 0))
  {
    var s := Quotes(n) + rest;
    if n == 0 {
      assert s == rest && r.cell + Quotes(0) == r.cell;
    } else if n == 1 {
      assert s[1..] == rest && r.cell + Quotes(0) == r.cell;
    } else {
      assert s[2..] == Quotes(n - 2) + rest;
      ScanQuotes(n - 2, rest, r.(cell := r.cell + ['"']));
      assert r.cell + ['"'] + Quotes((n - 2) / 2) == r.cell + Quotes(n / 2);
    }
  }

  /** A run of quotes outside quotes never comes out whole: the first is lost and the others are halved. */
  lemma QuotesMisread(n: nat, rest: string, r: Reader, text: string)
    requires n >= 1 && rest != [] && rest[0] != '"' && !r.inQuotes
    requires r.cell + Quotes(n) <= text
    ensures !CellReads(Quotes(n) + rest, r, text)
  {
    var q := r.(cell := r.cell + Quotes((n - 1) / 2), inQuotes := (n - 1) % 2 == 0);
    assert (Quotes(n) + rest)[1..] == Quotes(n - 1) + rest;
    ScanQuotes(n - 1, rest, r.(inQuotes := true));
    assert text[|q.cell|] == (r.cell + Quotes(n))[|q.cell|] == '"';
    if Special(rest[0]) && !q.inQuotes {
      CellEnds(rest, q, text);
    } else {
      ScanKeeps(rest[1..], q.(cell := q.cell + [rest[0]]));
    }
  }

  lemma FirstSpecial(text: string) returns (p: nat)
    requires !IsPlain(text)
    ensures p < |text| && Special(text[p]) && IsPlain(text[..p])
  {
    p := 0;
    while !Special(text[p])
      invariant p < |text| && IsPlain(text[..p])
      invariant exists i | p <= i < |text| :: Special(text[i])
      decreases |text| - p
    {
      p := p + 1;
    }
  }

  lemma {:induction false} QuoteRun(s: string) returns (n: nat)
    requires s != []
    ensures n <= |s| && s[..n] == Quotes(n) && NoQuote(s[n..]) && (s[0] == '"' ==> n >= 1)
  {
    if s[0] != '"' {
      n := 0;
    } else if |s| == 1 {
      n := 1;
    } else {
      n := QuoteRun(s[1..]);
      assert s[..n + 1] == ['"'] + s[1..][..n] && s[n + 1..] == s[1..][n..];
      n := n + 1;
    }
  }

  lemma MisreadFrom(p: nat, text: string, tail: string, r: Reader)
    requires p < |text| && Special(text[p]) && r.cell == text[..p] && !r.inQuotes
    requires tail != [] && tail[0] != '"'
    ensures !CellReads(text[p..] + tail, r, text)
  {
    var rest := text[p..] + tail;
    assert rest[0] == text[p];
    if text[p] == '"' {
      var n := QuoteRun(text[p..]);
      assert rest == Quotes(n) + (text[p..][n..] + tail);
      assert text[..p] + Quotes(n) == text[..p + n] <= text;
      QuotesMisread(n, text[p..][n..] + tail, r, text);
    } else {
      CellEnds(rest, r, text);
    }
  }

  /** A text with a comma, a quote or a line end, written as it is before a comma or a line end, is never
      read back as itself. */
  lemma Misread(text: string, tail: string, r: Reader)
    requires !IsPlain(text) && !r.inQuotes && r.cell == ""
    requires tail != [] && tail[0] != '"'
    ensures !CellReads(text + tail, r, text)
  {
    var p := FirstSpecial(text);
    ScanPlain(text[..p], text[p..] + tail, r);
    assert text + tail == text[..p] + (text[p..] + tail) && "" + text[..p] == text[..p];
    MisreadFrom(p, text, tail, r.(cell := text[..p]));
  }

  // ---- tables and the escaping printer ----

  /** `csvEscape` */
  function Escape(value: string): string {
    if IsPlain(value) then value else "\"" + Double(value) + "\""
  }

  function Escaped(value: string): Cell {
    Cell(value, !IsPlain(value))
  }

  function EscapedCells(row: seq<string>): seq<Cell> {
    seq(|row|, i requires 0 <= i < |row| => Escaped(row[i]))
  }

  function Join(parts: seq<string>, separator: string): string {
    if parts == [] then "" else if |parts| == 1 then parts[0] else parts[0] + separator + Join(parts[1..], separator)
  }

  function JoinEscaped(row: seq<string>): string {
    Join(seq(|row|, i requires 0 <= i < |row| => Escape(row[i])), ",")
  }

  /** Every row ended by the same line end, or, without `final`, joined by it. */
  function Print(t: Table, e: Eol, final: bool): string {
    if t == [] then ""
    else if |t| == 1 && !final then JoinEscaped(t[0])
    else JoinEscaped(t[0]) + ShowEol(Some(e)) + Print(t[1..], e, final)
  }

  function LinesOf(t: Table, e: Eol, final: bool): seq<Line> {
    if t == [] then []
    else [Line(EscapedCells(t[0]), if |t| == 1 && !final then None else Some(e))] + LinesOf(t[1..], e, final)
  }

  function Shown(cells: seq<Cell>): seq<string> {
    seq(|cells|, i requires 0 <= i < |cells| => Show(cells[i]))
  }

  lemma {:induction false} JoinIsRow(cells: seq<Cell>)
    ensures Join(Shown(cells), ",") == ShowRow(cells)
  {
    if |cells| > 1 {
      JoinIsRow(cells[1..]);
      assert Shown(cells)[1..] == Shown(cells[1..]);
    }
  }

  lemma JoinIsShow(row: seq<string>)
    ensures JoinEscaped(row) == ShowRow(EscapedCells(row))
  {
    JoinIsRow(EscapedCells(row));
    assert Shown(EscapedCells(row)) == seq(|row|, i requires 0 <= i < |row| => Escape(row[i]));
  }

  lemma {:induction false} PrintIsShow(t: Table, e: Eol, final: bool)
    ensures Print(t, e, final) == ShowLines(LinesOf(t, e, final)) && Lines(LinesOf(t, e, final))
    ensures |LinesOf(t, e, final)| == |t|
  {
    if t != [] {
      PrintIsShow(t[1..], e, final);
      JoinIsShow(t[0]);
      var lines := LinesOf(t, e, final);
      assert lines[1..] == LinesOf(t[1..], e, final);
      assert ShowRow(lines[0].cells) + "" + "" == ShowRow(lines[0].cells);
      forall i | 0 <= i < |lines| ensures LineOk(lines[i]) && (i < |lines| - 1 ==> lines[i].eol.Some?) {
        if i > 0 { assert lines[i] == LinesOf(t[1..], e, final)[i - 1]; }
      }
    }
  }

  /** A table a reader of this kind can return: no empty row, and no last row holding one empty cell
      when the last line has no end. */
  ghost predicate Readable(t: Table, final: bool) {
    && (forall i | 0 <= i < |t| :: t[i] != [])
    && (final || t == [] || t[|t| - 1] != [""])
  }

  /** Uniform line ends never merge, so only an unterminated last line can be lost. */
  lemma {:induction false} VisibleUniform(t: Table, e: Eol, final: bool, afterCr: bool)
    requires afterCr ==> e == Cr
    ensures |Visible(LinesOf(t, e, final), afterCr)| <= |t|
    ensures Visible(LinesOf(t, e, final), afterCr) == t <==> Readable(t, final)
  {
    if t != [] {
      var lines, rest := LinesOf(t, e, final), LinesOf(t[1..], e, final);
      assert lines[1..] == rest;
      var l := lines[0];
      VisibleUniform(t[1..], e, final, l.eol == Some(Cr));
      var v := Visible(rest, l.eol == Some(Cr));
      RowOfEscaped(t[0], l.eol);
      assert t == [t[0]] + t[1..];
      if Lost(l, afterCr) {
        assert |t| == 1 && t[1..] == [] && v == [];
      } else {
        assert Visible(lines, afterCr) == [RowOf(l)] + v;
        ReadableTail(t, final);
      }
    }
  }

  lemma RowOfEscaped(row: seq<string>, eol: Option<Eol>)
    ensures RowOf(Line(EscapedCells(row), eol)) == if row == [] then [""] else row
  {
    if row != [] { assert Texts(EscapedCells(row)) == row; }
  }

  lemma ReadableTail(t: Table, final: bool)
    requires t != [] && (|t| > 1 || final || t[0] != [""])
    ensures Readable(t, final) <==> t[0] != [] && Readable(t[1..], final)
  {
    var rest := t[1..];
    if t[0] != [] && Readable(rest, final) {
      forall i | 0 <= i < |t| ensures t[i] != [] {
        if i > 0 { assert t[i] == rest[i - 1]; }
      }
    }
    if Readable(t, final) {
      forall i | 0 <= i < |rest| ensures rest[i] != [] {
        assert rest[i] == t[i + 1];
      }
    }
  }

  /** Printing with `csvEscape`, commas and one kind of line end, then reading, gives the table back
      exactly when every row has a cell and an unterminated last row is not one empty cell. */
  lemma RoundTrip(t: Table, e: Eol, final: bool)
    ensures Parse(Print(t, e, final)) == t <==> Readable(t, final)
  {
    PrintIsShow(t, e, final);
    ParseShow(LinesOf(t, e, final));
    VisibleUniform(t, e, final, false);
  }
}

/** The analytics export: an always-quoting CSV printer with a guard against formula cells, read
    back with the question importer's reader. */
module AnalyticsCsv {
  import opened Common
  import opened Csv

  /** A field's value: a string, a date (as its ISO text), nothing, or anything else (as its JSON). */
  datatype Value = Str(text: string) | Date(iso: string) | Missing | Json(json: string)

  /** An object with its fields in key order, or a bare value, exported under the name "value". */
  datatype Row = Fields(fields: seq<(string, Value)>) | Bare(value: Value)

  function FieldsOf(row: Row): seq<(string, Value)> {
    match row
    case Fields(fields) => fields
    case Bare(v) => [("value", v)]
  }

  function Lookup(fields: seq<(string, Value)>, key: string): Value {
    if fields == [] then Missing else if fields[0].0 == key then fields[0].1 else Lookup(fields[1..], key)
  }

  function Keys(row: Row): seq<string> {
    var f := FieldsOf(row);
    seq(|f|, i requires 0 <= i < |f| => f[i].0)
  }

  function AllKeys(rows: seq<Row>): seq<string> {
    if rows == [] then [] else Keys(rows[0]) + AllKeys(rows[1..])
  }

  /** `Array.from(new Set(...))` */
  function FirstSeen(s: seq<string>): seq<string> {
    if s == [] then []
    else
      var seen := FirstSeen(s[..|s| - 1]);
      if s[|s| - 1] in seen then seen else seen + [s[|s| - 1]]
  }

  function Headers(rows: seq<Row>): seq<string> {
    FirstSeen(AllKeys(rows))
  }

  /** A missing value is printed as the JSON of the empty string: two quote characters. */
  function TextFor(v: Value): string {
    match v
    case Str(text) => text
    case Date(iso) => iso
    case Missing => "\"\""
    case Json(json) => json
  }

  predicate Formula(text: string) {
    text != [] && (text[0] == '=' || text[0] == '+' || text[0] == '-' || text[0] == '@')
  }

  function Guard(text: string): string {
    if Formula(text) then "'" + text else text
  }

  function CsvCell(v: Value): string {
    "\"" + Double(Guard(TextFor(v))) + "\""
  }

  function DataLine(row: Row, headers: seq<string>): string {
    Join(seq(|headers|, i requires 0 <= i < |headers| => CsvCell(Lookup(FieldsOf(row), headers[i]))), ",")
  }

  function DataLines(rows: seq<Row>, headers: seq<string>): seq<string> {
    seq(|rows|, i requires 0 <= i < |rows| => DataLine(rows[i], headers))
  }

  function Export(rows: seq<Row>, stamp: string): string {
    var headers := Headers(rows);
    "Generated At," + stamp + "\n" + Join([Join(headers, ",")] + DataLines(rows, headers), "\n")
  }

  // ---- the table a reader should see ----

  function DataRow(row: Row, headers: seq<string>): seq<string> {
    seq(|headers|, i requires 0 <= i < |headers| => Guard(TextFor(Lookup(FieldsOf(row), headers[i]))))
  }

  function Expected(rows: seq<Row>, stamp: string): Table {
    var headers := Headers(rows);
    [["Generated At", stamp], headers] + seq(|rows|, i requires 0 <= i < |rows| => DataRow(rows[i], headers))
  }

  // ---- headers ----

  ghost predicate IsFirst(s: seq<string>, k: string, i: nat) {
    i < |s| && s[i] == k && k !in s[..i]
  }

  /** The headers are the keys, each once, in the order in which they first appear. */
  lemma {:induction false} FirstSeenMeaning(s: seq<string>)
    ensures var r := FirstSeen(s);
      && (forall k :: k in r <==> k in s)
      && (forall i, j | 0 <= i < j < |r| ::
            r[i] != r[j] && forall m: nat, n: nat | IsFirst(s, r[i], m) && IsFirst(s, r[j], n) :: m < n)
  {
    if s != [] {
      var n := |s| - 1;
      FirstSeenMeaning(s[..n]);
      assert s == s[..n] + [s[n]];
      var r := FirstSeen(s);
      forall i, j, a: nat, b: nat | 0 <= i < j < |r| && IsFirst(s, r[i], a) && IsFirst(s, r[j], b) ensures a < b {
        assert s[..a] == s[..n][..a] && s[..b] == s[..n][..b];
        var seen := FirstSeen(s[..n]);
        assert r[i] == seen[i] && seen[i] in seen;
        assert r[i] in s[..n];
        assert IsFirst(s[..n], r[i], a);
        if b < n { assert IsFirst(s[..n], r[j], b); assert s[b] in s[..n]; }
      }
    }
  }

  // ---- reading back ----

  function PlainCells(texts: seq<string>): seq<Cell> {
    seq(|texts|, i requires 0 <= i < |texts| => Cell(texts[i], false))
  }

  function DataCells(row: Row, headers: seq<string>): seq<Cell> {
    var texts := DataRow(row, headers);
    seq(|texts|, i requires 0 <= i < |texts| => Cell(texts[i], true))
  }

  lemma HeaderLine(headers: seq<string>)
    ensures Join(headers, ",") == ShowRow(PlainCells(headers))
  {
    JoinIsRow(PlainCells(headers));
    assert Shown(PlainCells(headers)) == headers;
  }

  lemma DataLineIsRow(row: Row, headers: seq<string>)
    ensures DataLine(row, headers) == ShowRow(DataCells(row, headers))
  {
    JoinIsRow(DataCells(row, headers));
    assert Shown(DataCells(row, headers))
      == seq(|headers|, i requires 0 <= i < |headers| => CsvCell(Lookup(FieldsOf(row), headers[i])));
  }

  /** Lines joined by LF, as lines: all end in LF but the last. */
  function Joined(rows: seq<seq<Cell>>): seq<Line> {
    if rows == [] then []
    else [Line(rows[0], if |rows| == 1 then None else Some(Lf))] + Joined(rows[1..])
  }

  function ShownRows(rows: seq<seq<Cell>>): seq<string> {
    seq(|rows|, i requires 0 <= i < |rows| => ShowRow(rows[i]))
  }

  lemma {:induction false} JoinedShows(rows: seq<seq<Cell>>)
    requires forall i | 0 <= i < |rows| :: LineOk(Line(rows[i], None))
    ensures ShowLines(Joined(rows)) == Join(ShownRows(rows), "\n")
    ensures Lines(Joined(rows)) && |Joined(rows)| == |rows|
  {
    if rows != [] {
      var lines := Joined(rows);
      JoinedShows(rows[1..]);
      assert lines[1..] == Joined(rows[1..]);
      assert ShownRows(rows)[1..] == ShownRows(rows[1..]);
      assert ShowRow(rows[0]) + "" + "" == ShowRow(rows[0]);
      forall i | 0 <= i < |lines| ensures LineOk(lines[i]) && (i < |lines| - 1 ==> lines[i].eol.Some?) {
        if i > 0 { assert lines[i] == Joined(rows[1..])[i - 1]; }
        else { assert LineOk(Line(rows[0], None)); }
      }
    }
  }

  function RowsSeen(rows: seq<seq<Cell>>): Table {
    seq(|rows|, i requires 0 <= i < |rows| => RowOf(Line(rows[i], None)))
  }

  predicate LastLost(rows: seq<seq<Cell>>) {
    rows != [] && RowOf(Line(rows[|rows| - 1], None)) == [""]
  }

  /** The rows a reader sees: all, or all but a lost last one. */
  function Kept(rows: seq<seq<Cell>>): seq<seq<Cell>> {
    if LastLost(rows) then rows[..|rows| - 1] else rows
  }

  lemma KeptTail(rows: seq<seq<Cell>>)
    requires |rows| > 1
    ensures Kept(rows) == [rows[0]] + Kept(rows[1..])
  {
    assert rows[1..][|rows| - 2] == rows[|rows| - 1];
  }

  lemma SeenCons(first: seq<Cell>, rest: seq<seq<Cell>>)
    ensures RowsSeen([first] + rest) == [RowOf(Line(first, None))] + RowsSeen(rest)
  {
  }

  lemma {:induction false} JoinedVisible(rows: seq<seq<Cell>>)
    ensures Visible(Joined(rows), false) == RowsSeen(Kept(rows))
  {
    if rows == [] {
    } else if |rows| == 1 {
      assert Joined(rows) == [Line(rows[0], None)] && Visible([], false) == [];
      assert Joined(rows)[1..] == [];
    } else {
      assert Joined(rows)[1..] == Joined(rows[1..]);
      JoinedVisible(rows[1..]);
      KeptTail(rows);
      SeenCons(rows[0], Kept(rows[1..]));
    }
  }

  function StampCells(stamp: string): seq<Cell> {
    PlainCells(["Generated At", stamp])
  }

  function ExportedCells(rows: seq<Row>, stamp: string): seq<seq<Cell>> {
    var headers := Headers(rows);
    [StampCells(stamp), PlainCells(headers)]
      + seq(|rows|, i requires 0 <= i < |rows| => DataCells(rows[i], headers))
  }

  lemma BodyShows(rows: seq<Row>, headers: seq<string>, body: seq<seq<Cell>>)
    requires body ==
      [PlainCells(headers)] + seq(|rows|, i requires 0 <= i < |rows| => DataCells(rows[i], headers))
    ensures ShownRows(body) == [Join(headers, ",")] + DataLines(rows, headers)
  {
    HeaderLine(headers);
    forall i | 0 <= i < |rows| ensures DataLine(rows[i], headers) == ShowRow(DataCells(rows[i], headers)) {
      DataLineIsRow(rows[i], headers);
    }
  }

  lemma StampLine(stamp: string)
    ensures ShowRow(StampCells(stamp)) == "Generated At," + stamp
    ensures IsPlain(stamp) ==> LineOk(Line(StampCells(stamp), Some(Lf)))
  {
    HeaderLine(["Generated At", stamp]);
    assert Join(["Generated At", stamp], ",") == "Generated At" + "," + stamp == "Generated At," + stamp;
    assert IsPlain("Generated At");
    assert forall c | c in StampCells(stamp) :: c.text == "Generated At" || c.text == stamp;
  }

  lemma AllShown(rows: seq<Row>, stamp: string, headers: seq<string>, body: seq<seq<Cell>>)
    requires body ==
      [PlainCells(headers)] + seq(|rows|, i requires 0 <= i < |rows| => DataCells(rows[i], headers))
    ensures ShownRows([StampCells(stamp)] + body)
      == ["Generated At," + stamp] + ([Join(headers, ",")] + DataLines(rows, headers))
  {
    BodyShows(rows, headers, body);
    StampLine(stamp);
    ShownCons(StampCells(stamp), body);
  }

  lemma ShownCons(first: seq<Cell>, rest: seq<seq<Cell>>)
    ensures ShownRows([first] + rest) == [ShowRow(first)] + ShownRows(rest)
  {
  }

  lemma Plainly(rows: seq<Row>, stamp: string)
    requires IsPlain(stamp) && forall h | h in Headers(rows) :: IsPlain(h)
    ensures forall i | 0 <= i < |ExportedCells(rows, stamp)| :: LineOk(Line(ExportedCells(rows, stamp)[i], None))
  {
    StampLine(stamp);
  }

  lemma ExportShows(rows: seq<Row>, stamp: string)
    requires IsPlain(stamp) && forall h | h in Headers(rows) :: IsPlain(h)
    ensures Export(rows, stamp) == ShowLines(Joined(ExportedCells(rows, stamp)))
    ensures Lines(Joined(ExportedCells(rows, stamp)))
  {
    var headers := Headers(rows);
    var cells, lines := ExportedCells(rows, stamp), [Join(headers, ",")] + DataLines(rows, headers);
    assert cells == [StampCells(stamp)] + cells[1..];
    AllShown(rows, stamp, headers, cells[1..]);
    assert (["Generated At," + stamp] + lines)[1..] == lines;
    Plainly(rows, stamp);
    JoinedShows(cells);
  }

  lemma CellsSeen(rows: seq<Row>, stamp: string)
    requires Headers(rows) != []
    ensures RowsSeen(ExportedCells(rows, stamp)) == Expected(rows, stamp)
  {
    var headers := Headers(rows);
    assert Texts(StampCells(stamp)) == ["Generated At", stamp];
    assert Texts(PlainCells(headers)) == headers;
    forall i | 0 <= i < |rows| ensures Texts(DataCells(rows[i], headers)) == DataRow(rows[i], headers) {
    }
  }

  lemma NoRowsNoHeaders(rows: seq<Row>)
    requires Headers(rows) != []
    ensures rows != []
  {
  }

  lemma ReadKept(rows: seq<Row>, stamp: string)
    requires IsPlain(stamp) && forall h | h in Headers(rows) :: IsPlain(h)
    ensures Parse(Export(rows, stamp)) == RowsSeen(Kept(ExportedCells(rows, stamp)))
  {
    ExportShows(rows, stamp);
    ParseShow(Joined(ExportedCells(rows, stamp)));
    JoinedVisible(ExportedCells(rows, stamp));
  }

  /** With headers, the last row alone may be lost: when it is one empty cell. */
  lemma LastKept(rows: seq<Row>, stamp: string)
    requires Headers(rows) != []
    ensures rows != []
    ensures LastLost(ExportedCells(rows, stamp)) <==> DataRow(rows[|rows| - 1], Headers(rows)) == [""]
  {
    NoRowsNoHeaders(rows);
    var cells := ExportedCells(rows, stamp);
    var last := cells[|cells| - 1];
    assert last == DataCells(rows[|rows| - 1], Headers(rows));
    assert Texts(last) == DataRow(rows[|rows| - 1], Headers(rows));
  }

  lemma PlainReadBack(rows: seq<Row>, stamp: string)
    requires IsPlain(stamp) && forall h | h in Headers(rows) :: IsPlain(h)
    ensures Parse(Export(rows, stamp)) == Expected(rows, stamp)
      <==> Headers(rows) != [] && (|Headers(rows)| > 1 || DataRow(rows[|rows| - 1], Headers(rows)) != [""])
  {
    var cells := ExportedCells(rows, stamp);
    ReadKept(rows, stamp);
    if Headers(rows) == [] {
      assert Expected(rows, stamp)[1] == [];
      NeverEmpty(Kept(cells));
    } else {
      LastKept(rows, stamp);
      CellsSeen(rows, stamp);
      assert |RowsSeen(Kept(cells))| == |Kept(cells)| && |RowsSeen(cells)| == |cells|;
    }
  }

  lemma NeverEmpty(rows: seq<seq<Cell>>)
    ensures forall i | 0 <= i < |rows| :: RowsSeen(rows)[i] != []
  {
    forall i | 0 <= i < |rows| ensures RowOf(Line(rows[i], None)) != [] {
      if rows[i] != [] { assert |Texts(rows[i])| > 0; }
    }
  }

  // ---- headers are exported as they are ----

  /** The reader gets through plain headers up to any of them. */
  lemma {:induction false} ScanHeaders(headers: seq<string>, k: nat, tail: string, r: Reader)
    requires k < |headers| && (forall i | 0 <= i < k :: IsPlain(headers[i])) && !r.inQuotes && r.cell == ""
    ensures Scan(Join(headers, ",") + tail, r) == Scan(Join(headers[k..], ",") + tail, r.(row := r.row + headers[..k]))
  {
    if k == 0 {
      assert headers[0..] == headers && r.row + headers[..0] == r.row;
    } else {
      var rest := Join(headers[1..], ",") + tail;
      assert Join(headers, ",") + tail == headers[0] + ("," + rest);
      ScanField(Cell(headers[0], false), rest, r);
      ScanHeaders(headers[1..], k - 1, tail, r.(row := r.row + [headers[0]]));
      assert headers[1..][k - 1..] == headers[k..];
      assert r.row + [headers[0]] + headers[1..][..k - 1] == r.row + headers[..k];
    }
  }

  lemma HeaderMisread(headers: seq<string>, k: nat, tail: string, r: Reader)
    requires k < |headers| && (forall i | 0 <= i < k :: IsPlain(headers[i])) && !IsPlain(headers[k])
    requires !r.inQuotes && r.cell == "" && r.row == [] && tail != [] && tail[0] == '\n'
    ensures var t := Finish(Scan(Join(headers, ",") + tail, r)); |t| > |r.rows| ==> t[|r.rows|] != headers
  {
    var more := if k == |headers| - 1 then tail else "," + Join(headers[k + 1..], ",") + tail;
    assert Join(headers[k..], ",") + tail == headers[k] + more by {
      assert headers[k..][1..] == headers[k + 1..];
    }
    assert [] + headers[..k] == headers[..k];
    ScanHeaders(headers, k, tail, r);
    Misread(headers[k], more, r.(row := headers[..k]));
  }

  lemma FirstOdd(headers: seq<string>) returns (k: nat)
    requires !forall h | h in headers :: IsPlain(h)
    ensures k < |headers| && !IsPlain(headers[k]) && forall i | 0 <= i < k :: IsPlain(headers[i])
  {
    k := 0;
    while IsPlain(headers[k])
      invariant k < |headers| && forall i | 0 <= i < k :: IsPlain(headers[i])
      invariant exists i | k <= i < |headers| :: !IsPlain(headers[i])
      decreases |headers| - k
    {
      k := k + 1;
    }
  }

  lemma ExportStarts(rows: seq<Row>, stamp: string)
    requires rows != []
    ensures Export(rows, stamp) == ShowRow(StampCells(stamp)) + ShowEol(Some(Lf))
      + (Join(Headers(rows), ",") + ("\n" + Join(DataLines(rows, Headers(rows)), "\n")))
  {
    StampLine(stamp);
    JoinCons(Join(Headers(rows), ","), DataLines(rows, Headers(rows)));
  }

  lemma JoinCons(first: string, rest: seq<string>)
    requires rest != []
    ensures Join([first] + rest, "\n") == first + ("\n" + Join(rest, "\n"))
  {
    assert ([first] + rest)[1..] == rest;
    assert first + "\n" + Join(rest, "\n") == first + ("\n" + Join(rest, "\n"));
  }

  lemma OddHeader(rows: seq<Row>, stamp: string)
    requires IsPlain(stamp) && !forall h | h in Headers(rows) :: IsPlain(h)
    ensures Parse(Export(rows, stamp)) != Expected(rows, stamp)
  {
    var headers := Headers(rows);
    var k := FirstOdd(headers);
    NoRowsNoHeaders(rows);
    ExportStarts(rows, stamp);
    StampLine(stamp);
    var first := Line(StampCells(stamp), Some(Lf));
    var tail := "\n" + Join(DataLines(rows, headers), "\n");
    ScanLine(first, Join(headers, ",") + tail, []);
    HeaderMisread(headers, k, tail, Reader([] + [RowOf(first)], [], "", false));
  }

  /** The reader returns the time stamp, the headers and, for each record, the guarded text under each
      header, exactly when there is a header, none has a comma, a quote or a line end, and the last row is
      not one empty cell; with two such headers it always does. */
  lemma ReadBack(rows: seq<Row>, stamp: string)
    requires IsPlain(stamp)
    ensures Parse(Export(rows, stamp)) == Expected(rows, stamp) <==>
      && Headers(rows) != [] && (forall h | h in Headers(rows) :: IsPlain(h))
      && (|Headers(rows)| > 1 || DataRow(rows[|rows| - 1], Headers(rows)) != [""])
  {
    if forall h | h in Headers(rows) :: IsPlain(h) {
      PlainReadBack(rows, stamp);
    } else {
      OddHeader(rows, stamp);
    }
  }

  /** No exported cell starts like a formula, and a text that does not is exported as it is. */
  lemma Guarded(row: Row, headers: seq<string>, i: nat)
    requires i < |headers|
    ensures var text := TextFor(Lookup(FieldsOf(row), headers[i]));
      && !Formula(DataRow(row, headers)[i])
      && (if Formula(text) then DataRow(row, headers)[i][1..] == text else DataRow(row, headers)[i] == text)
  {
  }

  /** A field a record does not have, or has as null, reads back as two quote characters. */
  /** The text a field's value stands for in the export. */
  ghost predicate Stands(v: Value, text: string) {
    match v
    case Str(t) => text == t
    case Date(iso) => text == iso
    case Missing => text == "\"\""
    case Json(json) => text == json
  }

  /** The table to be read back: the stamp, the headers, and for each row under each header the text of the field of
      that name, behind an apostrophe when it begins like a formula. A bare value is a field named "value". */
  lemma CellMeaning(rows: seq<Row>, stamp: string, n: nat, i: nat, fields: seq<(string, Value)>, k: nat, text: string)
    requires n < |rows| && i < |Headers(rows)| && k < |fields|
    requires fields == if rows[n].Fields? then rows[n].fields else [("value", rows[n].value)]
    requires fields[k].0 == Headers(rows)[i] && forall j | 0 <= j < k :: fields[j].0 != Headers(rows)[i]
    requires Stands(fields[k].1, text)
    ensures var table := Expected(rows, stamp);
      && |table| == |rows| + 2 && table[0] == ["Generated At", stamp] && table[1] == Headers(rows)
      && |table[n + 2]| == |Headers(rows)|
      && table[n + 2][i] == if text != "" && text[0] in {'=', '+', '-', '@'} then "'" + text else text
  {
    LookupFound(fields, Headers(rows)[i], k);
    assert FieldsOf(rows[n]) == fields;
    assert Expected(rows, stamp)[n + 2] == DataRow(rows[n], Headers(rows));
  }

  lemma {:induction false} LookupFound(fields: seq<(string, Value)>, key: string, k: nat)
    requires k < |fields| && fields[k].0 == key && forall j | 0 <= j < k :: fields[j].0 != key
    ensures Lookup(fields, key) == fields[k].1
  {
    if k > 0 {
      assert forall j | 0 <= j < k - 1 :: fields[1..][j] == fields[j + 1];
      LookupFound(fields[1..], key, k - 1);
    }
  }

  lemma MissingField(row: Row, headers: seq<string>, i: nat)
    requires i < |headers|
    requires forall k | 0 <= k < |FieldsOf(row)| :: FieldsOf(row)[k].0 != headers[i] || FieldsOf(row)[k].1 == Missing
    ensures DataRow(row, headers)[i] == "\"\""
  {
    LookupMissing(FieldsOf(row), headers[i]);
  }

  lemma {:induction false} LookupMissing(fields: seq<(string, Value)>, key: string)
    requires forall i | 0 <= i < |fields| :: fields[i].0 != key || fields[i].1 == Missing
    ensures Lookup(fields, key) == Missing
  {
    if fields != [] { LookupMissing(fields[1..], key); }
  }
}

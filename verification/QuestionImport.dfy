/** The question import table: headers, validation of each row, detection of duplicate question
    texts, and the payload of the rows that pass. */
module QuestionImport {
  import opened Common
  import opened Text
  import Csv
  import Sorting

  const COLUMNS: seq<string> := [
    "topic", "title", "questionText", "questionType", "difficulty", "defaultMarks", "defaultNegativeMarks",
    "optionA", "optionB", "optionC", "optionD", "correctOption", "explanation", "tags"]

  /** The columns a row has, with their trimmed cells. */
  type Record = map<string, string>

  datatype Error = Error(row: nat, field: string, message: string)

  datatype QuestionOption = QuestionOption(optionKey: string, optionText: string, displayOrder: nat, isCorrect: bool)

  datatype Payload = Payload(
    subjectId: string, topic: string, title: string, questionText: string, difficulty: string,
    defaultMarks: real, defaultNegativeMarks: real, explanation: Option<string>,
    options: seq<QuestionOption>, tags: seq<string>)

  datatype PreviewRow = PreviewRow(
    row: nat, title: string, questionText: string, topic: string, difficulty: string,
    duplicate: bool, errors: seq<Error>, payload: Option<Payload>)

  datatype ParseResult = ParseResult(
    rows: seq<PreviewRow>, payload: seq<Payload>, missingColumns: seq<string>,
    totalRows: nat, validRows: nat, duplicateRows: nat, invalidRows: nat, errors: seq<Error>)

  function Get(r: Record, column: string): string {
    if column in r then r[column] else ""
  }

  function FindColumn(columns: seq<string>, header: string): string {
    if columns == [] then header
    else if Lower(columns[0]) == Lower(header) then columns[0]
    else FindColumn(columns[1..], header)
  }

  function NormalizeHeader(value: string): string {
    FindColumn(COLUMNS, Trim(value))
  }

  function Headers(rows: Csv.Table): seq<string> {
    if rows == [] then []
    else seq(|rows[0]|, i requires 0 <= i < |rows[0]| => NormalizeHeader(rows[0][i]))
  }

  function Without(columns: seq<string>, headers: seq<string>): seq<string> {
    if columns == [] then []
    else (if columns[0] in headers then [] else [columns[0]]) + Without(columns[1..], headers)
  }

  function MissingErrors(columns: seq<string>): seq<Error> {
    seq(|columns|, i requires 0 <= i < |columns| => Error(1, columns[i], "Missing column " + columns[i] + "."))
  }

  /** A later column of the same name overrides an earlier one. */
  function ReadColumns(columns: seq<string>, headers: seq<string>, row: seq<string>): Record {
    if headers == [] then map[]
    else
      var n := |headers| - 1;
      var r := ReadColumns(columns, headers[..n], row);
      if headers[n] in columns then r[headers[n] := Trim(if n < |row| then row[n] else "")] else r
  }

  function RowToRecord(headers: seq<string>, row: seq<string>): Record {
    ReadColumns(COLUMNS, headers, row)
  }

  predicate IsEmptyRecord(r: Record) {
    forall c | c in COLUMNS :: Get(r, c) == ""
  }

  function NormalizeQuestionText(value: string): string {
    Lower(CollapseSpaces(Trim(value)))
  }

  function NormalizeQuestionType(r: Record): string {
    var t := Upper(Trim(if "questionType" in r then r["questionType"] else "SINGLE_CHOICE"));
    if t == "MCQ" || t == "SINGLE CHOICE" then "SINGLE_CHOICE" else t
  }

  function ErrorIf(wrong: bool, e: Error): seq<Error> {
    if wrong then [e] else []
  }

  function CorrectOption(r: Record): string {
    Upper(Get(r, "correctOption"))
  }

  /** `Number(value)`, when it is finite. */
  type ToNumber = string -> Option<real>

  predicate ValidNumber(r: Record, field: string, toNumber: ToNumber) {
    field in r && Trim(r[field]) != "" && toNumber(r[field]).Some?
  }

  predicate OptionMissing(r: Record) {
    Get(r, "optionA") == "" || Get(r, "optionB") == "" || Get(r, "optionC") == "" || Get(r, "optionD") == ""
  }

  function TextErrors(r: Record, row: nat, subjectId: string): seq<Error> {
    ErrorIf(subjectId == "", Error(row, "subject", "Select a subject before importing."))
    + ErrorIf(Get(r, "topic") == "", Error(row, "topic", "topic is required."))
    + ErrorIf(Get(r, "title") == "", Error(row, "title", "title is required."))
    + ErrorIf(Get(r, "questionText") == "", Error(row, "questionText", "questionText is required."))
    + ErrorIf(NormalizeQuestionType(r) != "SINGLE_CHOICE",
        Error(row, "questionType", "Only SINGLE_CHOICE rows are supported by this simple importer."))
  }

  function ValueErrors(r: Record, row: nat, toNumber: ToNumber): seq<Error> {
    ErrorIf(OptionMissing(r),
        Error(row, "options", "SINGLE_CHOICE questions require optionA, optionB, optionC, and optionD."))
    + ErrorIf(CorrectOption(r) !in ["A", "B", "C", "D"],
        Error(row, "correctOption", "correctOption must be A, B, C, or D."))
    + ErrorIf(Upper(Get(r, "difficulty")) !in ["EASY", "MEDIUM", "HARD"],
        Error(row, "difficulty", "difficulty must be EASY, MEDIUM, or HARD."))
    + ErrorIf(!ValidNumber(r, "defaultMarks", toNumber),
        Error(row, "defaultMarks", "defaultMarks must be a valid number."))
    + ErrorIf(!ValidNumber(r, "defaultNegativeMarks", toNumber),
        Error(row, "defaultNegativeMarks", "defaultNegativeMarks must be a valid number."))
  }

  function ValidateRecord(r: Record, row: nat, subjectId: string, toNumber: ToNumber): seq<Error> {
    TextErrors(r, row, subjectId) + ValueErrors(r, row, toNumber)
  }

  function DuplicateError(row: nat): Error {
    Error(row, "questionText", "Duplicate question text was detected.")
  }

  function OptionFor(r: Record, key: string, order: nat): QuestionOption {
    QuestionOption(key, Get(r, "option" + key), order, key == CorrectOption(r))
  }

  function TrimmedNonEmpty(parts: seq<string>): seq<string> {
    if parts == [] then []
    else (if Trim(parts[0]) == "" then [] else [Trim(parts[0])]) + TrimmedNonEmpty(parts[1..])
  }

  function ToQuestionPayload(r: Record, subjectId: string, toNumber: ToNumber): Payload {
    var explanation := Trim(Get(r, "explanation"));
    Payload(
      subjectId, Get(r, "topic"), Get(r, "title"), Get(r, "questionText"),
      Upper(if "difficulty" in r then r["difficulty"] else "MEDIUM"),
      toNumber(Get(r, "defaultMarks")).GetOr(0.0), toNumber(Get(r, "defaultNegativeMarks")).GetOr(0.0),
      if explanation == "" then None else Some(explanation),
      [OptionFor(r, "A", 1), OptionFor(r, "B", 2), OptionFor(r, "C", 3), OptionFor(r, "D", 4)],
      TrimmedNonEmpty(Split(Get(r, "tags"), ',')))
  }

  /** How a record is validated and turned into a payload. */
  datatype Rules = Rules(validate: (Record, nat) -> seq<Error>, payload: Record -> Payload)

  function ImportRules(subjectId: string, toNumber: ToNumber): Rules {
    Rules((r: Record, row: nat) => ValidateRecord(r, row, subjectId, toNumber),
          (r: Record) => ToQuestionPayload(r, subjectId, toNumber))
  }

  // ---- the meaning of a parse ----

  /** The non-empty records, with the row number a spreadsheet shows. */
  function Records(headers: seq<string>, rows: Csv.Table): seq<(nat, Record)> {
    Gather(Parts(headers, rows), |Parts(headers, rows)|)
  }

  /** What each row after the headers contributes. */
  function Parts(headers: seq<string>, rows: Csv.Table): seq<seq<(nat, Record)>> {
    seq(if rows == [] then 0 else |rows| - 1,
        i requires 0 <= i < |rows| - 1 => Numbered(RowToRecord(headers, rows[i + 1]), i + 2))
  }

  /** The first `n` parts, one after the other. */
  function Gather<T>(parts: seq<seq<T>>, n: nat): seq<T>
    requires n <= |parts|
  {
    if n == 0 then [] else Gather(parts, n - 1) + parts[n - 1]
  }

  function Numbered(r: Record, n: nat): seq<(nat, Record)> {
    if IsEmptyRecord(r) then [] else [(n, r)]
  }

  function TextOf(r: Record): string {
    NormalizeQuestionText(Get(r, "questionText"))
  }

  /** A text is a duplicate when it is not blank and an existing question, or an earlier record of
      the file, valid or not, normalises to it. */
  ghost predicate Duplicate(records: seq<(nat, Record)>, i: nat, existing: seq<string>)
    requires i < |records|
  {
    && TextOf(records[i].1) != ""
    && ((exists k | 0 <= k < |existing| :: NormalizeQuestionText(existing[k]) == TextOf(records[i].1))
        || exists j | 0 <= j < i :: TextOf(records[j].1) == TextOf(records[i].1))
  }

  /** The preview of one record. */
  ghost predicate IsPreview(p: PreviewRow, records: seq<(nat, Record)>, i: nat, missing: seq<string>,
                            existing: seq<string>, rules: Rules)
    requires i < |records|
  {
    var (row, r) := records[i];
    && p.row == row && p.title == Get(r, "title") && p.questionText == Get(r, "questionText")
    && p.topic == Get(r, "topic") && p.difficulty == Get(r, "difficulty")
    && (p.duplicate <==> Duplicate(records, i, existing))
    && p.errors == rules.validate(r, row) + ErrorIf(p.duplicate, DuplicateError(row))
    && p.payload == (if p.errors == [] && missing == [] then Some(rules.payload(r)) else None)
  }

  function Payloads(rows: seq<PreviewRow>): seq<Payload> {
    if rows == [] then []
    else Payloads(rows[..|rows| - 1]) + match rows[|rows| - 1].payload case None => [] case Some(p) => [p]
  }

  function CountRows(rows: seq<PreviewRow>, p: PreviewRow -> bool): nat {
    if rows == [] then 0 else CountRows(rows[..|rows| - 1], p) + if p(rows[|rows| - 1]) then 1 else 0
  }

  function RowErrors(rows: seq<PreviewRow>): seq<Error> {
    if rows == [] then [] else RowErrors(rows[..|rows| - 1]) + rows[|rows| - 1].errors
  }

  function Flagged(r: PreviewRow): bool {
    r.duplicate
  }

  function Invalid(missing: seq<string>): PreviewRow -> bool {
    (r: PreviewRow) => r.errors != [] || missing != []
  }

  function Summarise(preview: seq<PreviewRow>, missing: seq<string>): ParseResult {
    ParseResult(preview, Payloads(preview), missing, |preview|, |Payloads(preview)|,
                CountRows(preview, Flagged), CountRows(preview, Invalid(missing)),
                MissingErrors(missing) + RowErrors(preview))
  }

  ghost predicate Previews(preview: seq<PreviewRow>, records: seq<(nat, Record)>, missing: seq<string>,
                           existing: seq<string>, rules: Rules)
  {
    && |preview| <= |records|
    && forall i | 0 <= i < |preview| :: IsPreview(preview[i], records, i, missing, existing, rules)
  }

  ghost predicate IsParse(result: ParseResult, rows: Csv.Table, subjectId: string, existing: seq<string>,
      toNumber: ToNumber) {
    var headers := Headers(rows);
    var records := Records(headers, rows);
    var missing := Without(COLUMNS, headers);
    && |result.rows| == |records|
    && Previews(result.rows, records, missing, existing, ImportRules(subjectId, toNumber))
    && result == Summarise(result.rows, missing)
  }

  ghost predicate SeenTexts(seen: set<string>, existing: seq<string>) {
    forall t :: t in seen <==> exists k | 0 <= k < |existing| :: NormalizeQuestionText(existing[k]) == t
  }

  ghost predicate FileTexts(texts: set<string>, records: seq<(nat, Record)>, n: nat) {
    n <= |records| && forall t :: t in texts <==> t != "" && exists j | 0 <= j < n :: TextOf(records[j].1) == t
  }

  lemma DuplicateTest(seen: set<string>, texts: set<string>, records: seq<(nat, Record)>, i: nat, existing: seq<string>)
    requires i < |records| && SeenTexts(seen, existing) && FileTexts(texts, records, i)
    ensures var text := TextOf(records[i].1);
      text != "" && (text in seen || text in texts) <==> Duplicate(records, i, existing)
  {
  }

  lemma FileTextsStep(texts: set<string>, records: seq<(nat, Record)>, i: nat)
    requires i < |records| && FileTexts(texts, records, i)
    ensures var text := TextOf(records[i].1);
      FileTexts(if text != "" then texts + {text} else texts, records, i + 1)
  {
  }

  /** The loop body for a record that is not empty. */
  method PreviewRecord(
    record: Record, rowNumber: nat, missing: seq<string>, rules: Rules,
    seenTexts: set<string>, fileTexts: set<string>,
    ghost records: seq<(nat, Record)>, ghost i: nat, ghost existing: seq<string>)
    returns (p: PreviewRow, texts: set<string>)
    requires i < |records| && records[i] == (rowNumber, record)
    requires SeenTexts(seenTexts, existing) && FileTexts(fileTexts, records, i)
    ensures IsPreview(p, records, i, missing, existing, rules)
    ensures FileTexts(texts, records, i + 1)
  {
    texts := fileTexts;
    var rowErrors := rules.validate(record, rowNumber);
    var text := NormalizeQuestionText(Get(record, "questionText"));
    var duplicate := |text| > 0 && (text in seenTexts || text in fileTexts);
    DuplicateTest(seenTexts, fileTexts, records, i, existing);
    FileTextsStep(fileTexts, records, i);
    if duplicate {
      rowErrors := rowErrors + [DuplicateError(rowNumber)];
    }
    if |text| > 0 {
      texts := texts + {text};
    }
    var payload :=
      if |rowErrors| == 0 && |missing| == 0 then Some(rules.payload(record)) else None;
    p := PreviewRow(
      rowNumber, Get(record, "title"), Get(record, "questionText"), Get(record, "topic"),
      Get(record, "difficulty"), duplicate, rowErrors, payload);
    assert rules.validate(record, rowNumber) + [] == rules.validate(record, rowNumber);
  }

  method ParseQuestionImportTable(rows: Csv.Table, subjectId: string, existing: seq<string>, toNumber: ToNumber)
    returns (result: ParseResult)
    ensures IsParse(result, rows, subjectId, existing, toNumber)
  {
    var headers := Headers(rows);
    var missing := Without(COLUMNS, headers);
    var preview := PreviewRows(rows, headers, missing, existing, ImportRules(subjectId, toNumber));
    result := Summarise(preview, missing);
  }

  method PreviewRows(rows: Csv.Table, headers: seq<string>, missing: seq<string>, existing: seq<string>, rules: Rules)
    returns (preview: seq<PreviewRow>)
    ensures |preview| == |Records(headers, rows)|
    ensures Previews(preview, Records(headers, rows), missing, existing, rules)
  {
    var seenTexts := set k | 0 <= k < |existing| :: NormalizeQuestionText(existing[k]);
    var fileTexts: set<string> := {};
    preview := [];
    var index := if |rows| == 0 then 0 else 1;
    ghost var records := Records(headers, rows);
    while index < |rows|
      invariant index <= |rows| && (|rows| > 0 ==> index >= 1)
      invariant index > 0 ==> |preview| == |Gather(Parts(headers, rows), index - 1)|
      invariant FileTexts(fileTexts, records, |preview|)
      invariant Previews(preview, records, missing, existing, rules)
    {
      var record := RowToRecord(headers, rows[index]);
      RecordsStep(headers, rows, index, record);
      index := index + 1;
      if IsEmptyRecord(record) {
        continue;
      }
      var p, texts := PreviewRecord(
        record, index, missing, rules, seenTexts, fileTexts, records, |preview|, existing);
      PreviewsStep(preview, p, records, missing, existing, rules);
      fileTexts := texts;
      preview := preview + [p];
    }
  }

  lemma {:induction false} GatherPrefix<T>(parts: seq<seq<T>>, n: nat)
    requires n <= |parts|
    ensures Gather(parts, n) <= Gather(parts, |parts|)
    decreases |parts| - n
  {
    if n < |parts| { GatherPrefix(parts, n + 1); }
  }

  /** One more part. */
  lemma GatherStep<T>(parts: seq<seq<T>>, n: nat, part: seq<T>)
    requires n < |parts| && parts[n] == part
    ensures |Gather(parts, n + 1)| == |Gather(parts, n)| + |part| <= |Gather(parts, |parts|)|
    ensures part != [] ==> Gather(parts, |parts|)[|Gather(parts, n)|] == part[0]
  {
    GatherPrefix(parts, n + 1);
    assert part != [] ==> Gather(parts, n + 1)[|Gather(parts, n)|] == part[0];
  }

  /** What a row adds to the records. */
  lemma RecordsStep(headers: seq<string>, rows: Csv.Table, index: nat, record: Record)
    requires 1 <= index < |rows| && record == RowToRecord(headers, rows[index])
    ensures var parts, records := Parts(headers, rows), Records(headers, rows);
      var n := |Gather(parts, index - 1)|;
      if IsEmptyRecord(record) then |Gather(parts, index)| == n
      else |Gather(parts, index)| == n + 1 <= |records| && records[n] == (index + 1, record)
  {
    GatherStep(Parts(headers, rows), index - 1, Numbered(record, index + 1));
  }

  lemma RecordSource(headers: seq<string>, rows: Csv.Table, i: nat)
    requires i < |Records(headers, rows)|
    ensures exists k | 0 <= k < |rows| :: Records(headers, rows)[i].1 == RowToRecord(headers, rows[k])
  {
    var (n, r) := Records(headers, rows)[i];
    assert (n, r) in Records(headers, rows);
    RecordIn(headers, rows, n, r, Parts(headers, rows));
    assert IsRecord(headers, rows[n - 1], r);
  }

  lemma PreviewsStep(preview: seq<PreviewRow>, p: PreviewRow, records: seq<(nat, Record)>, missing: seq<string>,
                     existing: seq<string>, rules: Rules)
    requires Previews(preview, records, missing, existing, rules)
    requires |preview| < |records| && IsPreview(p, records, |preview|, missing, existing, rules)
    ensures Previews(preview + [p], records, missing, existing, rules)
  {
    var more := preview + [p];
    forall i | 0 <= i < |more| ensures IsPreview(more[i], records, i, missing, existing, rules) {
      if i < |preview| {
        assert more[i] == preview[i] && IsPreview(preview[i], records, i, missing, existing, rules);
      }
    }
  }

  // ---- headers and records ----

  lemma {:induction false} FindColumnMeaning(columns: seq<string>, header: string)
    ensures var c := FindColumn(columns, header);
      if exists k | 0 <= k < |columns| :: SameLetters(columns[k], header)
      then c in columns && SameLetters(c, header) else c == header
  {
    if columns != [] {
      SameLower(columns[0], header);
      FindColumnMeaning(columns[1..], header);
      assert forall k | 1 <= k < |columns| :: columns[k] == columns[1..][k - 1];
    }
  }

  /** A header names the column that it spells, in whatever letter case and spacing around it; other headers
      only lose that spacing. */
  lemma HeaderMeaning(value: string, header: string)
    requires Trimmed(value, header)
    ensures OneOf(header, COLUMNS) ==>
      NormalizeHeader(value) in COLUMNS && SameLetters(NormalizeHeader(value), header)
    ensures !OneOf(header, COLUMNS) ==> NormalizeHeader(value) == header
  {
    TrimMeaning(value, header);
    HeaderFound(COLUMNS, header);
  }

  lemma HeaderFound(columns: seq<string>, header: string)
    ensures var c := FindColumn(columns, header);
      if OneOf(header, columns) then c in columns && SameLetters(c, header) else c == header
  {
    FindColumnMeaning(columns, header);
    if k :| 0 <= k < |columns| && SameLetters(header, columns[k]) {
      assert SameLetters(columns[k], header);
    }
    if k :| 0 <= k < |columns| && SameLetters(columns[k], header) {
      assert SameLetters(header, columns[k]);
    }
  }

  lemma {:induction false} WithoutMeaning(columns: seq<string>, headers: seq<string>)
    ensures forall c :: c in Without(columns, headers) <==> c in columns && c !in headers
  {
    if columns != [] {
      WithoutMeaning(columns[1..], headers);
      assert columns == [columns[0]] + columns[1..];
    }
  }

  /** The last header of that name. */
  ghost predicate LastHeader(headers: seq<string>, column: string, k: nat) {
    k < |headers| && headers[k] == column && column !in headers[k + 1..]
  }

  function CellAt(row: seq<string>, k: nat): string {
    if k < |row| then row[k] else ""
  }

  /** A record has the known columns among the headers, and in each the trimmed cell under its last header,
      blank where the row is too short. */
  lemma RecordMeaning(headers: seq<string>, row: seq<string>, column: string, k: nat)
    ensures column in RowToRecord(headers, row) <==> column in COLUMNS && column in headers
    ensures LastHeader(headers, column, k) && column in COLUMNS ==>
      column in RowToRecord(headers, row) && Trimmed(CellAt(row, k), RowToRecord(headers, row)[column])
  {
    ColumnsRead(COLUMNS, headers, row, column);
    if LastHeader(headers, column, k) && column in COLUMNS {
      CellRead(COLUMNS, headers, row, column, k);
      TrimMeaning(CellAt(row, k), Trim(CellAt(row, k)));
    }
  }

  lemma {:induction false} ColumnsRead(columns: seq<string>, headers: seq<string>, row: seq<string>, column: string)
    ensures column in ReadColumns(columns, headers, row) <==> column in columns && column in headers
  {
    if headers != [] {
      var n := |headers| - 1;
      assert headers == headers[..n] + [headers[n]];
      ColumnsRead(columns, headers[..n], row, column);
    }
  }

  lemma {:induction false} CellRead(columns: seq<string>, headers: seq<string>, row: seq<string>, column: string,
      k: nat)
    requires LastHeader(headers, column, k) && column in columns
    ensures column in ReadColumns(columns, headers, row)
    ensures ReadColumns(columns, headers, row)[column] == Trim(CellAt(row, k))
  {
    var n := |headers| - 1;
    if k < n {
      assert headers[k + 1..] == headers[..n][k + 1..] + [headers[n]];
      CellRead(columns, headers[..n], row, column, k);
    }
  }

  /** A row is passed over exactly when every cell under the last header of a known column is blank. */
  lemma EmptyMeaning(headers: seq<string>, row: seq<string>)
    ensures IsEmptyRecord(RowToRecord(headers, row)) <==>
      forall column, k | column in COLUMNS && LastHeader(headers, column, k) :: AllSpace(CellAt(row, k))
  {
    var r := RowToRecord(headers, row);
    forall column, k | column in COLUMNS && LastHeader(headers, column, k)
      ensures Get(r, column) == "" <==> AllSpace(CellAt(row, k))
    {
      RecordMeaning(headers, row, column, k);
      TrimMeaning(CellAt(row, k), r[column]);
      TrimmedBlank(CellAt(row, k));
    }
    forall column | column in COLUMNS && Get(r, column) != "" ensures exists k: nat :: LastHeader(headers, column, k) {
      RecordMeaning(headers, row, column, 0);
      var k := LastIndex(headers, column);
      assert LastHeader(headers, column, k);
    }
  }

  lemma {:induction false} LastIndex(headers: seq<string>, column: string) returns (k: nat)
    requires column in headers
    ensures LastHeader(headers, column, k)
  {
    var n := |headers| - 1;
    if headers[n] == column {
      k := n;
    } else {
      assert headers == headers[..n] + [headers[n]];
      k := LastIndex(headers[..n], column);
      assert headers[k + 1..] == headers[..n][k + 1..] + [headers[n]];
    }
  }

  /** The records are those of the rows after the first that are not passed over, each once and in order, with
      the number the row has in a spreadsheet. */
  lemma RecordsMeaning(headers: seq<string>, rows: Csv.Table)
    ensures Ascending(Records(headers, rows), |rows| + 1)
    ensures forall n: nat, r ::
      (n, r) in Records(headers, rows) <==> 2 <= n <= |rows| && IsRecord(headers, rows[n - 1], r)
  {
    var parts := Parts(headers, rows);
    RecordsAscend(headers, rows, parts, |parts|);
    forall n: nat, r
      ensures (n, r) in Gather(parts, |parts|) <==> 2 <= n <= |rows| && IsRecord(headers, rows[n - 1], r)
    {
      RecordIn(headers, rows, n, r, parts);
    }
  }

  /** The record of a row that is not passed over. */
  ghost predicate IsRecord(headers: seq<string>, row: seq<string>, r: Record) {
    r == RowToRecord(headers, row) && !IsEmptyRecord(r)
  }

  lemma RecordIn(headers: seq<string>, rows: Csv.Table, n: nat, r: Record, parts: seq<seq<(nat, Record)>>)
    requires parts == Parts(headers, rows)
    ensures (n, r) in Gather(parts, |parts|) <==> 2 <= n <= |rows| && IsRecord(headers, rows[n - 1], r)
  {
    var holds := 2 <= n <= |rows| && IsRecord(headers, rows[n - 1], r);
    forall k | 0 <= k < |parts| ensures (n, r) in parts[k] <==> k == n - 2 && holds {
      PartHolds(headers, rows, k, n, r, parts[k], holds);
    }
    GatherOne(parts, (n, r), n - 2, holds);
  }

  lemma PartHolds(headers: seq<string>, rows: Csv.Table, k: nat, n: nat, r: Record, part: seq<(nat, Record)>,
      holds: bool)
    requires k < |rows| - 1 && part == Parts(headers, rows)[k]
    requires holds == (2 <= n <= |rows| && IsRecord(headers, rows[n - 1], r))
    ensures (n, r) in part <==> k == n - 2 && holds
  {
    PartMeaning(headers, rows, k, n, r, part);
  }

  lemma GatherOne<T>(parts: seq<seq<T>>, x: T, n: int, holds: bool)
    requires forall k | 0 <= k < |parts| :: x in parts[k] <==> k == n && holds
    ensures x in Gather(parts, |parts|) <==> 0 <= n < |parts| && holds
  {
    GatherMeaning(parts, |parts|, x);
    if 0 <= n < |parts| { assert x in parts[n] <==> holds; }
  }

  lemma PartMeaning(headers: seq<string>, rows: Csv.Table, k: nat, n: nat, r: Record, part: seq<(nat, Record)>)
    requires k < |rows| - 1 && part == Parts(headers, rows)[k]
    ensures (n, r) in part <==> n == k + 2 && IsRecord(headers, rows[k + 1], r)
  {
    NumberedMeaning(RowToRecord(headers, rows[k + 1]), k + 2, n, r);
  }

  lemma NumberedMeaning(record: Record, k: nat, n: nat, r: Record)
    ensures (n, r) in Numbered(record, k) <==> n == k && r == record && !IsEmptyRecord(r)
  {
  }

  lemma {:induction false} GatherMeaning<T>(parts: seq<seq<T>>, n: nat, x: T)
    requires n <= |parts|
    ensures x in Gather(parts, n) <==> exists k | 0 <= k < n :: x in parts[k]
  {
    if n > 0 { GatherMeaning(parts, n - 1, x); }
  }

  /** Numbered in ascending order, up to a number. */
  ghost predicate Ascending(records: seq<(nat, Record)>, top: nat) {
    && (forall i | 0 <= i < |records| :: records[i].0 <= top)
    && (forall i, j | 0 <= i < j < |records| :: records[i].0 < records[j].0)
  }

  lemma {:induction false} RecordsAscend(headers: seq<string>, rows: Csv.Table, parts: seq<seq<(nat, Record)>>, m: nat)
    requires parts == Parts(headers, rows) && m <= |parts|
    ensures Ascending(Gather(parts, m), m + 1)
  {
    if m > 0 {
      RecordsAscend(headers, rows, parts, m - 1);
      AscendStep(Gather(parts, m - 1), RowToRecord(headers, rows[m]), m);
      assert parts[m - 1] == Numbered(RowToRecord(headers, rows[m]), m + 1);
    }
  }

  lemma AscendStep(before: seq<(nat, Record)>, r: Record, m: nat)
    requires Ascending(before, m)
    ensures Ascending(before + Numbered(r, m + 1), m + 1)
  {
  }

  /** Two question texts count as the same exactly when they have the same words, in whatever letter case; a text
      without words counts as none. */
  lemma QuestionTextMeaning(a: string, b: string)
    ensures NormalizeQuestionText(a) == NormalizeQuestionText(b) <==> SameWords(a, b)
    ensures NormalizeQuestionText(a) == "" <==> AllSpace(a)
  {
    NormalisedWords(a, b);
    RunsAreSolid(a, IsSpace);
  }

  /** The tags are the pieces between commas that are not blank, trimmed and in order. */
  lemma TagsMeaning(a: seq<string>, piece: string, tag: string, b: seq<string>)
    requires Trimmed(piece, tag)
    ensures TrimmedNonEmpty([]) == []
    ensures TrimmedNonEmpty(a + [piece] + b) ==
      TrimmedNonEmpty(a) + (if tag == "" then [] else [tag]) + TrimmedNonEmpty(b)
  {
    TrimMeaning(piece, tag);
    TagsConcat(a, [piece] + b);
    assert a + [piece] + b == a + ([piece] + b) && ([piece] + b)[1..] == b;
  }

  lemma {:induction false} TagsConcat(a: seq<string>, b: seq<string>)
    ensures TrimmedNonEmpty(a + b) == TrimmedNonEmpty(a) + TrimmedNonEmpty(b)
  {
    if a == [] {
      assert a + b == b;
    } else {
      TagsConcat(a[1..], b);
      assert (a + b)[1..] == a[1..] + b;
      Regroup(if Trim(a[0]) == "" then [] else [Trim(a[0])], TrimmedNonEmpty(a[1..]), TrimmedNonEmpty(b), []);
    }
  }

  // ---- main results ----

  lemma {:induction false} PayloadsCount(rows: seq<PreviewRow>, missing: seq<string>)
    requires forall i | 0 <= i < |rows| :: rows[i].payload.Some? <==> rows[i].errors == [] && missing == []
    ensures |Payloads(rows)| + CountRows(rows, Invalid(missing)) == |rows|
  {
    if rows != [] { PayloadsCount(rows[..|rows| - 1], missing); }
  }

  /** Every previewed row is valid or invalid, not both. */
  lemma RowsAddUp(result: ParseResult, rows: Csv.Table, subjectId: string, existing: seq<string>, toNumber: ToNumber)
    requires IsParse(result, rows, subjectId, existing, toNumber)
    ensures result.validRows + result.invalidRows == result.totalRows
  {
    var missing := result.missingColumns;
    var headers := Headers(rows);
    forall i | 0 <= i < |result.rows| ensures result.rows[i].payload.Some? <==>
      result.rows[i].errors == [] && missing == [] {
      assert IsPreview(result.rows[i], Records(headers, rows), i, missing, existing, ImportRules(subjectId, toNumber));
    }
    PayloadsCount(result.rows, missing);
  }

  lemma {:induction false} CountMeaning(rows: seq<PreviewRow>, p: PreviewRow -> bool)
    ensures CountRows(rows, p) == |Sorting.Filter(rows, p)|
  {
    if rows != [] {
      var n := |rows| - 1;
      CountMeaning(rows[..n], p);
      Sorting.FilterConcat(rows[..n], [rows[n]], p);
      assert rows == rows[..n] + [rows[n]];
    }
  }

  lemma {:induction false} CollectedMeaning(rows: seq<PreviewRow>, e: Error, p: Payload)
    ensures e in RowErrors(rows) <==> exists row | row in rows :: e in row.errors
    ensures p in Payloads(rows) <==> exists row | row in rows :: row.payload == Some(p)
  {
    if rows != [] {
      var n := |rows| - 1;
      CollectedMeaning(rows[..n], e, p);
      assert rows == rows[..n] + [rows[n]];
    }
  }

  /** The summary: the missing columns, each with an error on the first row; every error of a row; the payloads
      of the rows that have one; and how many rows are duplicates, or have none. */
  lemma SummaryMeaning(result: ParseResult, rows: Csv.Table, subjectId: string, existing: seq<string>,
      toNumber: ToNumber, e: Error, p: Payload)
    requires IsParse(result, rows, subjectId, existing, toNumber)
    ensures result.totalRows == |result.rows| && result.validRows == |result.payload|
    ensures result.duplicateRows == |Sorting.Filter(result.rows, Flagged)|
    ensures forall c :: c in result.missingColumns <==> c in COLUMNS && c !in Headers(rows)
    ensures e in result.errors <==>
      || (e.field in result.missingColumns && e == Error(1, e.field, "Missing column " + e.field + "."))
      || exists row | row in result.rows :: e in row.errors
    ensures p in result.payload <==> exists row | row in result.rows :: row.payload == Some(p)
  {
    WithoutMeaning(COLUMNS, Headers(rows));
    SummarisedMeaning(result, result.rows, result.missingColumns, e, p);
  }

  lemma SummarisedMeaning(result: ParseResult, preview: seq<PreviewRow>, missing: seq<string>, e: Error, p: Payload)
    requires result == Summarise(preview, missing)
    ensures result.duplicateRows == |Sorting.Filter(preview, Flagged)|
    ensures e in result.errors <==>
      || (e.field in missing && e == Error(1, e.field, "Missing column " + e.field + "."))
      || exists row | row in preview :: e in row.errors
    ensures p in result.payload <==> exists row | row in preview :: row.payload == Some(p)
  {
    CountMeaning(preview, Flagged);
    CollectedMeaning(preview, e, p);
    MissingMeaning(missing, e);
  }

  lemma MissingMeaning(columns: seq<string>, e: Error)
    ensures e in MissingErrors(columns) <==>
      e.field in columns && e == Error(1, e.field, "Missing column " + e.field + ".")
  {
    var errors := MissingErrors(columns);
    if e.field in columns && e == Error(1, e.field, "Missing column " + e.field + ".") {
      var i :| 0 <= i < |columns| && columns[i] == e.field;
      assert errors[i] == e;
    }
  }

  predicate Accepted(p: PreviewRow) {
    p.payload.Some?
  }

  lemma AcceptedRow(result: ParseResult, rows: Csv.Table, subjectId: string, existing: seq<string>,
      toNumber: ToNumber, i: nat)
    requires IsParse(result, rows, subjectId, existing, toNumber) && i < |result.rows| && Accepted(result.rows[i])
    ensures var records := Records(Headers(rows), rows);
      && i < |records| && !Duplicate(records, i, existing)
      && ValidateRecord(records[i].1, records[i].0, subjectId, toNumber) == []
      && result.rows[i].payload == Some(ToQuestionPayload(records[i].1, subjectId, toNumber))
      && result.rows[i].questionText == Get(records[i].1, "questionText")
  {
    var records := Records(Headers(rows), rows);
    assert IsPreview(result.rows[i], records, i, result.missingColumns, existing, ImportRules(subjectId, toNumber));
  }

  /** What passes validation, exactly. */
  ghost predicate Valid(r: Record, subjectId: string, toNumber: ToNumber) {
    && subjectId != "" && Get(r, "topic") != "" && Get(r, "title") != "" && Get(r, "questionText") != ""
    && NormalizeQuestionType(r) == "SINGLE_CHOICE"
    && Get(r, "optionA") != "" && Get(r, "optionB") != "" && Get(r, "optionC") != "" && Get(r, "optionD") != ""
    && CorrectOption(r) in ["A", "B", "C", "D"]
    && Upper(Get(r, "difficulty")) in ["EASY", "MEDIUM", "HARD"]
    && ValidNumber(r, "defaultMarks", toNumber) && ValidNumber(r, "defaultNegativeMarks", toNumber)
  }

  lemma ValidRecord(r: Record, row: nat, subjectId: string, toNumber: ToNumber)
    ensures ValidateRecord(r, row, subjectId, toNumber) == [] <==> Valid(r, subjectId, toNumber)
  {
  }

  // ---- the conditions in plain terms ----

  /** One of the words, in whatever letter case. */
  ghost predicate OneOf(text: string, words: seq<string>) {
    exists k | 0 <= k < |words| :: SameLetters(text, words[k])
  }

  ghost predicate Capital(word: string) {
    forall i | 0 <= i < |word| :: !('a' <= word[i] <= 'z')
  }

  lemma UpperIn(text: string, words: seq<string>)
    requires forall k | 0 <= k < |words| :: Capital(words[k])
    ensures Upper(text) in words <==> OneOf(text, words)
  {
    forall k | 0 <= k < |words| ensures Upper(text) == words[k] <==> SameLetters(text, words[k]) {
      UpperIs(text, words[k]);
    }
  }

  lemma UpperIs(text: string, word: string)
    requires Capital(word)
    ensures Upper(text) == word <==> SameLetters(text, word)
  {
    UpperMeaning(text, word);
  }

  ghost predicate SingleChoice(r: Record) {
    "questionType" in r ==>
      exists t | Trimmed(r["questionType"], t) :: OneOf(t, ["SINGLE_CHOICE", "MCQ", "SINGLE CHOICE"])
  }

  ghost predicate Number(r: Record, field: string, toNumber: ToNumber) {
    field in r && !AllSpace(r[field]) && toNumber(r[field]) != None
  }

  /** What is wrong with the texts of a record, by the field that is reported. */
  ghost predicate WrongText(r: Record, field: string, subjectId: string) {
    || (field == "subject" && subjectId == "") || (field == "topic" && Get(r, "topic") == "")
    || (field == "title" && Get(r, "title") == "") || (field == "questionText" && Get(r, "questionText") == "")
    || (field == "questionType" && !SingleChoice(r))
  }

  /** What is wrong with its options and values. */
  ghost predicate WrongValue(r: Record, field: string, toNumber: ToNumber) {
    || (field == "options"
        && (Get(r, "optionA") == "" || Get(r, "optionB") == "" || Get(r, "optionC") == "" || Get(r, "optionD") == ""))
    || (field == "correctOption" && !OneOf(Get(r, "correctOption"), ["A", "B", "C", "D"]))
    || (field == "difficulty" && !OneOf(Get(r, "difficulty"), ["EASY", "MEDIUM", "HARD"]))
    || (field == "defaultMarks" && !Number(r, "defaultMarks", toNumber))
    || (field == "defaultNegativeMarks" && !Number(r, "defaultNegativeMarks", toNumber))
  }

  lemma TypeMeaning(r: Record)
    ensures NormalizeQuestionType(r) == "SINGLE_CHOICE" <==> SingleChoice(r)
  {
    if "questionType" in r {
      TypeText(r["questionType"], Trim(r["questionType"]), ["SINGLE_CHOICE", "MCQ", "SINGLE CHOICE"]);
    } else {
      assert Trim("SINGLE_CHOICE") == "SINGLE_CHOICE";
      UpperIs("SINGLE_CHOICE", "SINGLE_CHOICE");
    }
  }

  lemma TypeText(text: string, trimmed: string, words: seq<string>)
    requires trimmed == Trim(text) && words == ["SINGLE_CHOICE", "MCQ", "SINGLE CHOICE"]
    ensures Upper(trimmed) in words <==> exists t | Trimmed(text, t) :: OneOf(t, words)
  {
    UpperIn(trimmed, words);
    forall t ensures t == trimmed <==> Trimmed(text, t) {
      TrimMeaning(text, t);
    }
  }

  lemma NumberMeaning(r: Record, field: string, toNumber: ToNumber)
    ensures ValidNumber(r, field, toNumber) <==> Number(r, field, toNumber)
  {
    if field in r { TrimmedBlank(r[field]); }
  }

  ghost predicate Reported(errors: seq<Error>, row: nat, field: string) {
    exists e | e in errors :: e.row == row && e.field == field
  }

  lemma ReportIf(before: seq<Error>, wrong: bool, e: Error, field: string)
    ensures Reported(before + ErrorIf(wrong, e), e.row, field) <==>
      Reported(before, e.row, field) || (wrong && e.field == field)
  {
    var after := before + ErrorIf(wrong, e);
    if wrong { assert after[|before|] == e; }
    if x :| x in before && x.row == e.row && x.field == field { assert x in after; }
  }

  lemma FiveReports(row: nat, field: string, a: bool, b: bool, c: bool, d: bool, e: bool,
                    v: Error, w: Error, x: Error, y: Error, z: Error)
    requires v.row == w.row == x.row == y.row == z.row == row
    ensures Reported(ErrorIf(a, v) + ErrorIf(b, w) + ErrorIf(c, x) + ErrorIf(d, y) + ErrorIf(e, z), row, field) <==>
      || (a && v.field == field) || (b && w.field == field) || (c && x.field == field) || (d && y.field == field)
      || (e && z.field == field)
  {
    ReportIf([], a, v, field);
    assert [] + ErrorIf(a, v) == ErrorIf(a, v);
    ReportIf(ErrorIf(a, v), b, w, field);
    ReportIf(ErrorIf(a, v) + ErrorIf(b, w), c, x, field);
    ReportIf(ErrorIf(a, v) + ErrorIf(b, w) + ErrorIf(c, x), d, y, field);
    ReportIf(ErrorIf(a, v) + ErrorIf(b, w) + ErrorIf(c, x) + ErrorIf(d, y), e, z, field);
  }

  lemma TextReported(r: Record, row: nat, subjectId: string, field: string)
    ensures Reported(TextErrors(r, row, subjectId), row, field) <==> WrongText(r, field, subjectId)
  {
    TypeMeaning(r);
    FiveReports(
      row, field, subjectId == "", Get(r, "topic") == "", Get(r, "title") == "", Get(r, "questionText") == "",
      NormalizeQuestionType(r) != "SINGLE_CHOICE",
      Error(row, "subject", "Select a subject before importing."),
      Error(row, "topic", "topic is required."), Error(row, "title", "title is required."),
      Error(row, "questionText", "questionText is required."),
      Error(row, "questionType", "Only SINGLE_CHOICE rows are supported by this simple importer."));
  }

  lemma ValueReported(r: Record, row: nat, toNumber: ToNumber, field: string)
    ensures Reported(ValueErrors(r, row, toNumber), row, field) <==> WrongValue(r, field, toNumber)
  {
    NumberMeaning(r, "defaultMarks", toNumber);
    NumberMeaning(r, "defaultNegativeMarks", toNumber);
    UpperIn(Get(r, "correctOption"), ["A", "B", "C", "D"]);
    UpperIn(Get(r, "difficulty"), ["EASY", "MEDIUM", "HARD"]);
    FiveReports(
      row, field, OptionMissing(r), CorrectOption(r) !in ["A", "B", "C", "D"],
      Upper(Get(r, "difficulty")) !in ["EASY", "MEDIUM", "HARD"], !ValidNumber(r, "defaultMarks", toNumber),
      !ValidNumber(r, "defaultNegativeMarks", toNumber),
      Error(row, "options", "SINGLE_CHOICE questions require optionA, optionB, optionC, and optionD."),
      Error(row, "correctOption", "correctOption must be A, B, C, or D."),
      Error(row, "difficulty", "difficulty must be EASY, MEDIUM, or HARD."),
      Error(row, "defaultMarks", "defaultMarks must be a valid number."),
      Error(row, "defaultNegativeMarks", "defaultNegativeMarks must be a valid number."));
  }

  lemma ReportedConcat(a: seq<Error>, b: seq<Error>, row: nat, field: string)
    ensures Reported(a + b, row, field) <==> Reported(a, row, field) || Reported(b, row, field)
  {
    if e :| e in a && e.row == row && e.field == field { assert e in a + b; }
    if e :| e in b && e.row == row && e.field == field { assert e in a + b; }
  }

  /** A field of a record is reported exactly when something is wrong with it. */
  lemma ReportedExactly(r: Record, row: nat, subjectId: string, toNumber: ToNumber, field: string)
    ensures Reported(ValidateRecord(r, row, subjectId, toNumber), row, field) <==>
      WrongText(r, field, subjectId) || WrongValue(r, field, toNumber)
  {
    TextReported(r, row, subjectId, field);
    ValueReported(r, row, toNumber, field);
    ReportedConcat(TextErrors(r, row, subjectId), ValueErrors(r, row, toNumber), row, field);
  }

  lemma {:induction false} RecordTrimmed(columns: seq<string>, headers: seq<string>, row: seq<string>, column: string)
    ensures var r := ReadColumns(columns, headers, row); column in r ==> exists cell :: r[column] == Trim(cell)
  {
    if headers != [] { RecordTrimmed(columns, headers[..|headers| - 1], row, column); }
  }

  lemma TextKept(headers: seq<string>, rows: Csv.Table, i: nat)
    requires i < |Records(headers, rows)| && Get(Records(headers, rows)[i].1, "questionText") != ""
    ensures TextOf(Records(headers, rows)[i].1) != ""
  {
    RecordSource(headers, rows, i);
    var k :| 0 <= k < |rows| && Records(headers, rows)[i].1 == RowToRecord(headers, rows[k]);
    RecordTrimmed(COLUMNS, headers, rows[k], "questionText");
    var cell :| RowToRecord(headers, rows[k])["questionText"] == Trim(cell);
    TrimmedKeeps(cell);
  }

  /** The accepted texts are not blank, differ pairwise once normalised, and are new. */
  lemma AcceptedTextsDistinct(result: ParseResult, rows: Csv.Table, subjectId: string, existing: seq<string>,
      toNumber: ToNumber)
    requires IsParse(result, rows, subjectId, existing, toNumber)
    ensures forall i | 0 <= i < |result.rows| && Accepted(result.rows[i]) ::
      && NormalizeQuestionText(result.rows[i].questionText) != ""
      && (forall k | 0 <= k < |existing| ::
            NormalizeQuestionText(existing[k]) != NormalizeQuestionText(result.rows[i].questionText))
      && (forall j | 0 <= j < i ::
            NormalizeQuestionText(result.rows[j].questionText) != NormalizeQuestionText(result.rows[i].questionText))
  {
    var headers := Headers(rows);
    var records := Records(headers, rows);
    forall i | 0 <= i < |result.rows|
      ensures result.rows[i].questionText == Get(records[i].1, "questionText")
    {
      assert IsPreview(result.rows[i], records, i, result.missingColumns, existing, ImportRules(subjectId, toNumber));
    }
    forall i | 0 <= i < |result.rows| && Accepted(result.rows[i])
      ensures TextOf(records[i].1) != "" && !Duplicate(records, i, existing)
    {
      AcceptedRow(result, rows, subjectId, existing, toNumber, i);
      ValidRecord(records[i].1, records[i].0, subjectId, toNumber);
      TextKept(headers, rows, i);
    }
  }

  /** The first record of the file with a given new text is not flagged; every later one is. */
  lemma FirstOccurrence(result: ParseResult, rows: Csv.Table, subjectId: string, existing: seq<string>,
      toNumber: ToNumber, i: nat)
    requires IsParse(result, rows, subjectId, existing, toNumber) && i < |result.rows|
    requires NormalizeQuestionText(result.rows[i].questionText) != ""
    requires forall k | 0 <= k < |existing| ::
      NormalizeQuestionText(existing[k]) != NormalizeQuestionText(result.rows[i].questionText)
    ensures result.rows[i].duplicate <==> exists j | 0 <= j < i ::
      NormalizeQuestionText(result.rows[j].questionText) == NormalizeQuestionText(result.rows[i].questionText)
  {
    var records := Records(Headers(rows), rows);
    forall j | 0 <= j < |result.rows|
      ensures |records| == |result.rows| && NormalizeQuestionText(result.rows[j].questionText) == TextOf(records[j].1)
    {
      RowIsPreview(result, rows, subjectId, existing, toNumber, j);
    }
    RowIsPreview(result, rows, subjectId, existing, toNumber, i);
    FirstOf(result.rows, records, existing, i);
  }

  lemma FirstOf(preview: seq<PreviewRow>, records: seq<(nat, Record)>, existing: seq<string>, i: nat)
    requires i < |preview| == |records| && TextOf(records[i].1) != ""
    requires forall j | 0 <= j < |preview| :: NormalizeQuestionText(preview[j].questionText) == TextOf(records[j].1)
    requires forall k | 0 <= k < |existing| :: NormalizeQuestionText(existing[k]) != TextOf(records[i].1)
    ensures Duplicate(records, i, existing) <==> exists j | 0 <= j < i ::
      NormalizeQuestionText(preview[j].questionText) == NormalizeQuestionText(preview[i].questionText)
  {
  }

  lemma RowIsPreview(result: ParseResult, rows: Csv.Table, subjectId: string, existing: seq<string>,
      toNumber: ToNumber, j: nat)
    requires IsParse(result, rows, subjectId, existing, toNumber) && j < |result.rows|
    ensures var records := Records(Headers(rows), rows);
      && j < |records| == |result.rows| && NormalizeQuestionText(result.rows[j].questionText) == TextOf(records[j].1)
      && (result.rows[j].duplicate <==> Duplicate(records, j, existing))
  {
    var records := Records(Headers(rows), rows);
    assert IsPreview(result.rows[j], records, j, result.missingColumns, existing, ImportRules(subjectId, toNumber));
  }

  function CountCorrect(options: seq<QuestionOption>): nat {
    if options == [] then 0 else (if options[0].isCorrect then 1 else 0) + CountCorrect(options[1..])
  }

  /** The payload of a record: its texts; its four options, keyed A to D in order, each with its text; exactly
      one is correct, the one the record names; the marks are the record's numbers, the difficulty is in
      capitals, a blank explanation is left out, and the tags are those between commas. */
  ghost predicate PayloadFor(p: Payload, r: Record, subjectId: string, toNumber: ToNumber) {
    && p.subjectId == subjectId != ""
    && Some(p.defaultMarks) == toNumber(Get(r, "defaultMarks"))
    && Some(p.defaultNegativeMarks) == toNumber(Get(r, "defaultNegativeMarks"))
    && TextsFor(p, r) && OptionsFor(p.options, r)
  }

  ghost predicate TextsFor(p: Payload, r: Record) {
    && p.questionText == Get(r, "questionText") != ""
    && p.topic == Get(r, "topic") != "" && p.title == Get(r, "title") != ""
    && p.difficulty in ["EASY", "MEDIUM", "HARD"] && SameLetters(p.difficulty, Get(r, "difficulty"))
    && (p.explanation == None <==> AllSpace(Get(r, "explanation")))
    && (p.explanation.Some? ==> Trimmed(Get(r, "explanation"), p.explanation.value))
    && p.tags == TrimmedNonEmpty(Split(Get(r, "tags"), ','))
  }

  ghost predicate OptionsFor(o: seq<QuestionOption>, r: Record) {
    && |o| == 4 && CountCorrect(o) == 1
    && (forall k | 0 <= k < 4 ::
          && o[k].optionKey == ["A", "B", "C", "D"][k] && o[k].displayOrder == k + 1
          && o[k].optionText == Get(r, ["optionA", "optionB", "optionC", "optionD"][k]) != ""
          && (o[k].isCorrect <==> SameLetters(o[k].optionKey, Get(r, "correctOption"))))
  }

  lemma PayloadMeaning(r: Record, subjectId: string, toNumber: ToNumber)
    requires Valid(r, subjectId, toNumber)
    ensures PayloadFor(ToQuestionPayload(r, subjectId, toNumber), r, subjectId, toNumber)
  {
    OptionsMean(r, [OptionFor(r, "A", 1), OptionFor(r, "B", 2), OptionFor(r, "C", 3), OptionFor(r, "D", 4)]);
    TextsMean(r, subjectId, toNumber, ToQuestionPayload(r, subjectId, toNumber));
  }

  lemma TextsMean(r: Record, subjectId: string, toNumber: ToNumber, p: Payload)
    requires Valid(r, subjectId, toNumber) && p == ToQuestionPayload(r, subjectId, toNumber)
    ensures TextsFor(p, r)
  {
    UpperLetters(Get(r, "difficulty"));
    ExplanationMeaning(Get(r, "explanation"));
  }

  lemma OptionsMean(r: Record, o: seq<QuestionOption>)
    requires CorrectOption(r) in ["A", "B", "C", "D"] && !OptionMissing(r)
    requires o == [OptionFor(r, "A", 1), OptionFor(r, "B", 2), OptionFor(r, "C", 3), OptionFor(r, "D", 4)]
    ensures OptionsFor(o, r)
  {
    OptionsOf(r);
    KeyMeaning("A", r);
    KeyMeaning("B", r);
    KeyMeaning("C", r);
    KeyMeaning("D", r);
  }

  lemma UpperLetters(s: string)
    ensures SameLetters(Upper(s), s)
  {
    UpperMeaning(s, Upper(s));
  }

  lemma ExplanationMeaning(s: string)
    ensures Trim(s) == "" <==> AllSpace(s)
    ensures Trimmed(s, Trim(s))
  {
    TrimmedBlank(s);
    TrimMeaning(s, Trim(s));
  }

  lemma KeyMeaning(key: string, r: Record)
    requires Capital(key)
    ensures key == CorrectOption(r) <==> SameLetters(key, Get(r, "correctOption"))
  {
    UpperIs(Get(r, "correctOption"), key);
  }

  /** A row is accepted exactly when no column is missing and its record is valid and new; its payload
      is then the record's. */
  lemma AcceptedRows(result: ParseResult, rows: Csv.Table, subjectId: string, existing: seq<string>,
      toNumber: ToNumber, i: nat)
    requires IsParse(result, rows, subjectId, existing, toNumber) && i < |result.rows|
    ensures i < |Records(Headers(rows), rows)|
    ensures var r := Records(Headers(rows), rows)[i].1;
      && (Accepted(result.rows[i]) <==>
            Without(COLUMNS, Headers(rows)) == [] && Valid(r, subjectId, toNumber)
            && !Duplicate(Records(Headers(rows), rows), i, existing))
      && (Accepted(result.rows[i]) ==> PayloadFor(result.rows[i].payload.value, r, subjectId, toNumber))
  {
    var records := Records(Headers(rows), rows);
    var (row, r) := records[i];
    assert IsPreview(result.rows[i], records, i, result.missingColumns, existing, ImportRules(subjectId, toNumber));
    ValidRecord(r, row, subjectId, toNumber);
    if Valid(r, subjectId, toNumber) { PayloadMeaning(r, subjectId, toNumber); }
  }

  lemma OptionsOf(r: Record)
    requires CorrectOption(r) in ["A", "B", "C", "D"]
    ensures var o := [OptionFor(r, "A", 1), OptionFor(r, "B", 2), OptionFor(r, "C", 3), OptionFor(r, "D", 4)];
      && CountCorrect(o) == 1
      && (forall k | 0 <= k < 4 ::
            && o[k].optionKey == ["A", "B", "C", "D"][k] && o[k].displayOrder == k + 1
            && o[k].optionText == Get(r, ["optionA", "optionB", "optionC", "optionD"][k])
            && (o[k].isCorrect <==> o[k].optionKey == CorrectOption(r)))
  {
    assert "option" + "A" == "optionA" && "option" + "B" == "optionB";
    assert "option" + "C" == "optionC" && "option" + "D" == "optionD";
    var a, b, c, d := OptionFor(r, "A", 1), OptionFor(r, "B", 2), OptionFor(r, "C", 3), OptionFor(r, "D", 4);
    assert "A"[0] == 'A' && "B"[0] == 'B' && "C"[0] == 'C' && "D"[0] == 'D';
    CountFour(a, b, c, d);
  }

  lemma CountFour(a: QuestionOption, b: QuestionOption, c: QuestionOption, d: QuestionOption)
    ensures CountCorrect([a, b, c, d])
      == (if a.isCorrect then 1 else 0) + (if b.isCorrect then 1 else 0) + (if c.isCorrect then 1 else 0)
        + (if d.isCorrect then 1 else 0)
  {
    assert [a, b, c, d][1..] == [b, c, d] && [b, c, d][1..] == [c, d] && [c, d][1..] == [d] && [d][1..] == [];
    assert CountCorrect([d]) == if d.isCorrect then 1 else 0;
    assert CountCorrect([c, d]) == (if c.isCorrect then 1 else 0) + CountCorrect([d]);
  }
}

/** Which payloads a bulk import accepts, and which errors it reports. */
module ImportRules {
  import opened Common
  import opened BulkImport
  import Text

  // ---- one row ----

  predicate RowOk(x: Input) {
    && (forall f | f in REQUIRED :: !IsMissing(x, f))
    && IsEmail(Text.Lower(Text.Trim(x.email)))
    && YearOk(x.admissionYear) && x.genderOk && x.statusOk && x.dobOk
  }

  lemma {:induction false} RequiredEmpty(x: Input, row: nat, fields: seq<Field>, n: nat)
    requires n <= |fields|
    ensures RequiredErrors(x, row, fields, n) == [] <==> forall k | 0 <= k < n :: !IsMissing(x, fields[k])
    ensures forall e | e in RequiredErrors(x, row, fields, n) :: e.kind == Required
  {
    if n > 0 { RequiredEmpty(x, row, fields, n - 1); }
  }

  lemma RowEmpty(x: Input, row: nat)
    ensures Clean(x, row) <==> RowOk(x)
  {
    RequiredEmpty(x, row, REQUIRED, |REQUIRED|);
    assert Email == REQUIRED[3];
    assert !IsMissing(x, Email) <==> Text.Lower(Text.Trim(x.email)) != "";
    if forall k | 0 <= k < |REQUIRED| :: !IsMissing(x, REQUIRED[k]) {
      assert forall f | f in REQUIRED :: !IsMissing(x, f);
    }
  }

  /** Some characters, none of them white space or an at sign. */
  ghost predicate EmailPart(s: string) {
    s != "" && forall k | 0 <= k < |s| :: !Text.IsSpace(s[k]) && s[k] != '@'
  }

  /** A part, an at sign, a part, a full stop and a part. */
  ghost predicate EmailShape(s: string) {
    exists a, b, c :: s == a + "@" + b + "." + c && EmailPart(a) && EmailPart(b) && EmailPart(c)
  }

  lemma EmailParts(s: string, i: nat, j: nat)
    requires 0 < i && i + 1 < j < |s| - 1 && s[i] == '@' && s[j] == '.'
    requires forall k | 0 <= k < |s| :: !Text.IsSpace(s[k]) && (k != i ==> s[k] != '@')
    ensures EmailShape(s)
  {
    var a, b, c := s[..i], s[i + 1..j], s[j + 1..];
    assert EmailPart(a) && EmailPart(b) && EmailPart(c);
    assert s == a + "@" + b + "." + c;
  }

  lemma ShapedIsEmail(s: string, a: string, b: string, c: string)
    requires s == a + "@" + b + "." + c && EmailPart(a) && EmailPart(b) && EmailPart(c)
    ensures IsEmail(s)
  {
    var i, j := |a|, |a| + 1 + |b|;
    assert s[i] == '@' && s[j] == '.';
    assert forall k | 0 <= k < |a| :: s[k] == a[k];
    assert forall k | i < k < j :: s[k] == b[k - i - 1];
    assert forall k | j < k < |s| :: s[k] == c[k - j - 1];
    assert i + 1 < j < |s| - 1;
  }

  lemma EmailMeaning(s: string)
    ensures IsEmail(s) <==> EmailShape(s)
  {
    if IsEmail(s) {
      var i :| 0 < i < |s| && s[i] == '@' && (forall k | 0 <= k < |s| && k != i :: s[k] != '@')
        && exists j | i + 1 < j < |s| - 1 :: s[j] == '.';
      var j :| i + 1 < j < |s| - 1 && s[j] == '.';
      EmailParts(s, i, j);
    }
    if a, b, c :| s == a + "@" + b + "." + c && EmailPart(a) && EmailPart(b) && EmailPart(c) {
      ShapedIsEmail(s, a, b, c);
    }
  }

  lemma LowerEmail(s: string)
    ensures IsEmail(Text.Lower(s)) <==> IsEmail(s)
  {
    var t := Text.Lower(s);
    forall k | 0 <= k < |s|
      ensures Text.IsSpace(t[k]) == Text.IsSpace(s[k])
      ensures (t[k] == '@' <==> s[k] == '@') && (t[k] == '.' <==> s[k] == '.')
    {
      Text.LowerSpace(s[k]);
    }
  }

  /** A row is complete and well-formed when its nine texts are not blank, its email, but for the white space
      around it, has the shape of one, its admission year is a number from 2000 to 2100, and its gender,
      status and date of birth are absent or well-formed. */
  lemma RowOkMeaning(x: Input)
    ensures RowOk(x) <==>
      && !Text.AllSpace(x.rollNumber) && !Text.AllSpace(x.studentId) && !Text.AllSpace(x.name)
      && !Text.AllSpace(x.departmentId) && !Text.AllSpace(x.courseId) && !Text.AllSpace(x.semesterId)
      && !Text.AllSpace(x.batchId) && !Text.AllSpace(x.section) && !Text.AllSpace(x.email)
      && (forall email | Text.Trimmed(x.email, email) :: EmailShape(email))
      && (exists n | 2000 <= n <= 2100 :: x.admissionYear == Year(n))
      && x.genderOk && x.statusOk && x.dobOk
  {
    EmailPartOk(x.email);
    TextsOk(x);
    FilledMeaning(x);
  }

  lemma EmailPartOk(s: string)
    ensures IsEmail(Text.Lower(Text.Trim(s))) <==> forall email | Text.Trimmed(s, email) :: EmailShape(email)
  {
    LowerEmail(Text.Trim(s));
    EmailMeaning(Text.Trim(s));
    forall email ensures email == Text.Trim(s) <==> Text.Trimmed(s, email) {
      Text.TrimMeaning(s, email);
    }
  }

  lemma TextsOk(x: Input)
    ensures (forall f | f in REQUIRED :: !IsMissing(x, f)) <==> Filled(x) && !x.admissionYear.Missing?
  {
    AllGiven(x, REQUIRED);
  }

  ghost predicate Filled(x: Input) {
    && Text.Trim(x.rollNumber) != "" && Text.Trim(x.studentId) != "" && Text.Trim(x.name) != ""
    && Text.Trim(x.email) != "" && Text.Trim(x.departmentId) != "" && Text.Trim(x.courseId) != ""
    && Text.Trim(x.semesterId) != "" && Text.Trim(x.batchId) != "" && Text.Trim(x.section) != ""
  }

  lemma FilledMeaning(x: Input)
    ensures Filled(x) <==>
      && !Text.AllSpace(x.rollNumber) && !Text.AllSpace(x.studentId) && !Text.AllSpace(x.name)
      && !Text.AllSpace(x.departmentId) && !Text.AllSpace(x.courseId) && !Text.AllSpace(x.semesterId)
      && !Text.AllSpace(x.batchId) && !Text.AllSpace(x.section) && !Text.AllSpace(x.email)
  {
    Text.TrimmedBlank(x.rollNumber);
    Text.TrimmedBlank(x.studentId);
    Text.TrimmedBlank(x.name);
    Text.TrimmedBlank(x.email);
    Text.TrimmedBlank(x.departmentId);
    Text.TrimmedBlank(x.courseId);
    Text.TrimmedBlank(x.semesterId);
    Text.TrimmedBlank(x.batchId);
    Text.TrimmedBlank(x.section);
  }

  lemma AllGiven(x: Input, fields: seq<Field>)
    requires |fields| == 10 && fields[0] == RollNumber && fields[1] == StudentId && fields[2] == Name
    requires fields[3] == Email && fields[4] == DepartmentId && fields[5] == CourseId && fields[6] == SemesterId
    requires fields[7] == BatchId && fields[8] == Section && fields[9] == AdmissionYear
    ensures (forall f | f in fields :: !IsMissing(x, f)) <==> Filled(x) && !x.admissionYear.Missing?
  {
    AllOfTen(fields, f => !IsMissing(x, f));
    assert (forall f | f in fields :: !IsMissing(x, f)) <==> (forall f | f in fields :: (g => !IsMissing(x, g))(f));
  }

  lemma AllOfTen<T>(s: seq<T>, p: T -> bool)
    requires |s| == 10
    ensures (forall f | f in s :: p(f)) <==>
      && p(s[0]) && p(s[1]) && p(s[2]) && p(s[3]) && p(s[4])
      && p(s[5]) && p(s[6]) && p(s[7]) && p(s[8]) && p(s[9])
  {
    assert s[0] in s && s[1] in s && s[2] in s && s[3] in s && s[4] in s;
    assert s[5] in s && s[6] in s && s[7] in s && s[8] in s && s[9] in s;
  }

  predicate CollegeOk(x: Input, collegeId: string) {
    x.collegeId == "" || x.collegeId == collegeId
  }

  lemma {:induction false} ByRowEmpty(inputs: seq<Input>, errors: (Input, nat) -> seq<Error>, n: nat)
    requires n <= |inputs|
    ensures ByRow(inputs, errors, n) == [] <==> forall i | 0 <= i < n :: errors(inputs[i], i + 1) == []
  {
    if n > 0 { ByRowEmpty(inputs, errors, n - 1); }
  }

  lemma {:induction false} ByRowLacks(inputs: seq<Input>, errors: (Input, nat) -> seq<Error>, n: nat, e: Error)
    requires n <= |inputs| && forall i | 0 <= i < n :: e !in errors(inputs[i], i + 1)
    ensures e !in ByRow(inputs, errors, n)
  {
    if n > 0 { ByRowLacks(inputs, errors, n - 1, e); }
  }

  lemma {:induction false} RowsEmpty(inputs: seq<Input>, n: nat)
    requires n <= |inputs|
    ensures AllRowErrors(inputs, n) == [] <==> forall i | 0 <= i < n :: RowOk(inputs[i])
  {
    if n > 0 {
      RowsEmpty(inputs, n - 1);
      RowsClean(inputs, n);
      RowEmpty(inputs[n - 1], n);
    }
  }

  ghost predicate Clean(x: Input, row: nat) {
    RowErrors(x, row) == []
  }

  lemma RowsClean(inputs: seq<Input>, n: nat)
    requires 0 < n <= |inputs|
    ensures AllRowErrors(inputs, n) == [] <==> AllRowErrors(inputs, n - 1) == [] && Clean(inputs[n - 1], n)
  {
  }

  lemma FormatKinds(x: Input, row: nat, e: Error)
    requires e.kind.Duplicate?
    ensures e !in FormatErrors(x, row)
  {
  }

  lemma NeverDuplicate(x: Input, row: nat, e: Error)
    requires e.kind.Duplicate?
    ensures Lacks(x, row, e)
  {
    RequiredEmpty(x, row, REQUIRED, |REQUIRED|);
    FormatKinds(x, row, e);
  }

  lemma RowKinds(inputs: seq<Input>, n: nat, e: Error)
    requires n <= |inputs| && e.kind.Duplicate?
    ensures e !in AllRowErrors(inputs, n)
  {
    forall i | 0 <= i < n ensures Lacks(inputs[i], i + 1, e) {
      NeverDuplicate(inputs[i], i + 1, e);
    }
    RowsLack(inputs, n, e);
  }

  ghost predicate Lacks(x: Input, row: nat, e: Error) {
    e !in RowErrors(x, row)
  }

  lemma RowsLack(inputs: seq<Input>, n: nat, e: Error)
    requires n <= |inputs| && forall i | 0 <= i < n :: Lacks(inputs[i], i + 1, e)
    ensures e !in AllRowErrors(inputs, n)
  {
    assert forall i | 0 <= i < n :: Lacks(inputs[i], i + 1, e) ==> e !in RowErrors(inputs[i], i + 1);
    ByRowLacks(inputs, RowErrors, n, e);
  }

  lemma CollegesEmpty(inputs: seq<Input>, collegeId: string, n: nat)
    requires n <= |inputs|
    ensures AllCollegeErrors(inputs, collegeId, n) == [] <==> forall i | 0 <= i < n :: CollegeOk(inputs[i], collegeId)
  {
    ByRowEmpty(inputs, OfCollege(collegeId), n);
    assert forall i | 0 <= i < n :: OfCollege(collegeId)(inputs[i], i + 1) == [] <==> CollegeOk(inputs[i], collegeId);
  }

  lemma CollegeKinds(inputs: seq<Input>, collegeId: string, n: nat, e: Error)
    requires n <= |inputs| && e.kind.Duplicate?
    ensures e !in AllCollegeErrors(inputs, collegeId, n)
  {
    ByRowLacks(inputs, OfCollege(collegeId), n, e);
  }

  // ---- duplicates inside the payload ----

  /** Row `k` is the first with the non-empty value of the later row `i`. */
  ghost predicate FirstTwin(students: seq<Student>, f: Field, k: nat, i: nat) {
    && k < i < |students| && KeyOf(students[i], f) != ""
    && KeyOf(students[k], f) == KeyOf(students[i], f)
    && forall j | 0 <= j < k :: KeyOf(students[j], f) != KeyOf(students[i], f)
  }

  ghost predicate Numbered(students: seq<Student>) {
    forall i | 0 <= i < |students| :: students[i].row == i + 1
  }

  /** A duplicate error with the right rows. */
  ghost predicate TwinError(students: seq<Student>, f: Field, e: Error) {
    && e.field == f && e.kind.Duplicate? && e.kind.firstRow > 0 && e.row > 0
    && FirstTwin(students, f, e.kind.firstRow - 1, e.row - 1)
  }

  lemma DuplicateErrorMeaning(students: seq<Student>, f: Field, i: nat, e: Error)
    requires Numbered(students) && i < |students|
    ensures e in DuplicateError(students, f, i) <==> e.row == i + 1 && TwinError(students, f, e)
  {
    var j := First(students, f, KeyOf(students[i], f), i);
    if e.row == i + 1 && TwinError(students, f, e) {
      assert e.kind.firstRow - 1 == j;
    }
  }

  lemma DuplicatesGrow(students: seq<Student>, f: Field, n: nat, e: Error)
    requires 0 < n <= |students|
    ensures e in DuplicateErrors(students, f, n) <==>
      e in DuplicateErrors(students, f, n - 1) || e in DuplicateError(students, f, n - 1)
  {
  }

  lemma {:induction false} DuplicatesMeaning(students: seq<Student>, f: Field, n: nat, e: Error)
    requires Numbered(students) && n <= |students|
    ensures e in DuplicateErrors(students, f, n) <==> e.row <= n && TwinError(students, f, e)
  {
    if n > 0 {
      DuplicatesMeaning(students, f, n - 1, e);
      DuplicateErrorMeaning(students, f, n - 1, e);
      DuplicatesGrow(students, f, n, e);
    }
  }

  lemma PayloadDuplicatesMeaning(students: seq<Student>, e: Error)
    requires Numbered(students)
    ensures e in PayloadDuplicates(students, |KEYS|) <==> e.field in KEYS && TwinError(students, e.field, e)
  {
    assert KEYS == [Email, StudentId, RollNumber];
    var n := |students|;
    assert PayloadDuplicates(students, 3) == PayloadDuplicates(students, 2) + DuplicateErrors(students, RollNumber, n);
    assert PayloadDuplicates(students, 2) == PayloadDuplicates(students, 1) + DuplicateErrors(students, StudentId, n);
    assert PayloadDuplicates(students, 1) == DuplicateErrors(students, Email, n);
    DuplicatesMeaning(students, Email, n, e);
    DuplicatesMeaning(students, StudentId, n, e);
    DuplicatesMeaning(students, RollNumber, n, e);
  }

  lemma PayloadParts(collegeId: string, inputs: seq<Input>, a: seq<Error>, b: seq<Error>, c: seq<Error>, e: Error)
    requires a == AllRowErrors(inputs, |inputs|) && b == AllCollegeErrors(inputs, collegeId, |inputs|)
    requires c == PayloadDuplicates(StudentsOf(inputs), |KEYS|)
    requires e !in a && e !in b
    ensures e in PayloadErrors(collegeId, inputs) <==> e in c
  {
  }

  lemma OnlyDuplicates(collegeId: string, inputs: seq<Input>, e: Error)
    requires e.kind.Duplicate?
    ensures e in PayloadErrors(collegeId, inputs) <==> e in PayloadDuplicates(StudentsOf(inputs), |KEYS|)
  {
    RowKinds(inputs, |inputs|, e);
    CollegeKinds(inputs, collegeId, |inputs|, e);
    PayloadParts(collegeId, inputs, AllRowErrors(inputs, |inputs|), AllCollegeErrors(inputs, collegeId, |inputs|),
                 PayloadDuplicates(StudentsOf(inputs), |KEYS|), e);
  }

  lemma TwinMeans(students: seq<Student>, f: Field, row: nat, firstRow: nat)
    requires Numbered(students)
    ensures TwinError(students, f, Error(row, f, Duplicate(firstRow))) <==>
      0 < firstRow < row <= |students| && FirstTwin(students, f, firstRow - 1, row - 1)
  {
  }

  // Not by induction: the attribute keeps Dafny from assuming a hypothesis over the students.
  lemma {:induction false} TwinReported(students: seq<Student>, f: Field, row: nat, firstRow: nat)
    requires Numbered(students)
    ensures Error(row, f, Duplicate(firstRow)) in PayloadDuplicates(students, |KEYS|) <==>
      0 < firstRow < row <= |students| && f in KEYS && FirstTwin(students, f, firstRow - 1, row - 1)
  {
    PayloadDuplicatesMeaning(students, Error(row, f, Duplicate(firstRow)));
    TwinMeans(students, f, row, firstRow);
  }

  lemma StudentsNumbered(inputs: seq<Input>)
    ensures Numbered(StudentsOf(inputs))
  {
  }

  /** A row is reported as a payload duplicate on a field exactly when an earlier row has the same
      non-empty value, whatever else is wrong with the payload, and the report names the first such row. */
  lemma DuplicateReported(collegeId: string, inputs: seq<Input>, f: Field, row: nat, firstRow: nat)
    ensures Error(row, f, Duplicate(firstRow)) in PayloadErrors(collegeId, inputs) <==>
      0 < firstRow < row <= |inputs| && f in KEYS && FirstTwin(StudentsOf(inputs), f, firstRow - 1, row - 1)
  {
    OnlyDuplicates(collegeId, inputs, Error(row, f, Duplicate(firstRow)));
    StudentsNumbered(inputs);
    TwinReported(StudentsOf(inputs), f, row, firstRow);
  }

  ghost predicate KeysDistinct(students: seq<Student>) {
    forall f, i, k | f in KEYS && 0 <= k < i < |students| && KeyOf(students[i], f) != "" ::
      KeyOf(students[k], f) != KeyOf(students[i], f)
  }

  lemma TwinExists(students: seq<Student>, f: Field, k: nat, i: nat)
    requires k < i < |students| && KeyOf(students[i], f) != "" && KeyOf(students[k], f) == KeyOf(students[i], f)
    ensures exists j: nat :: FirstTwin(students, f, j, i)
  {
    assert FirstTwin(students, f, First(students, f, KeyOf(students[i], f), i), i);
  }

  ghost predicate Reports(students: seq<Student>, errors: seq<Error>) {
    forall e :: e in errors <==> e.field in KEYS && TwinError(students, e.field, e)
  }

  lemma SharedIsReported(students: seq<Student>, errors: seq<Error>, f: Field, k: nat, i: nat)
    requires Reports(students, errors) && f in KEYS
    requires k < i < |students| && KeyOf(students[i], f) != "" && KeyOf(students[k], f) == KeyOf(students[i], f)
    ensures errors != []
  {
    TwinExists(students, f, k, i);
    var j: nat :| FirstTwin(students, f, j, i);
    var e := Error(i + 1, f, Duplicate(j + 1));
    assert TwinError(students, f, e);
    assert e in errors;
  }

  lemma ReportsEmpty(students: seq<Student>, errors: seq<Error>)
    requires Reports(students, errors)
    ensures errors == [] <==> KeysDistinct(students)
  {
    if errors != [] {
      var e := errors[0];
      assert e in errors;
      assert FirstTwin(students, e.field, e.kind.firstRow - 1, e.row - 1);
    } else {
      forall f, i, k | f in KEYS && 0 <= k < i < |students| && KeyOf(students[i], f) != ""
        ensures KeyOf(students[k], f) != KeyOf(students[i], f)
      {
        if KeyOf(students[k], f) == KeyOf(students[i], f) { SharedIsReported(students, errors, f, k, i); }
      }
    }
  }

  lemma DuplicatesEmpty(students: seq<Student>)
    requires Numbered(students)
    ensures PayloadDuplicates(students, |KEYS|) == [] <==> KeysDistinct(students)
  {
    var errors := PayloadDuplicates(students, |KEYS|);
    forall e ensures e in errors <==> e.field in KEYS && TwinError(students, e.field, e) {
      PayloadDuplicatesMeaning(students, e);
    }
    ReportsEmpty(students, errors);
  }

  // ---- duplicates among the stored students ----

  /** No stored user has the email or the student ID, and no profile of the college the roll number. */
  ghost predicate Unused(store: Store, collegeId: string, s: Student) {
    && (forall u | u in store.users :: u.email != s.email && u.studentId != Some(s.studentId))
    && (forall p | p in store.profiles && p.collegeId == collegeId :: p.rollNumber != s.rollNumber)
  }

  ghost predicate Keyed(s: Student) {
    s.email != "" && s.studentId != "" && s.rollNumber != ""
  }

  lemma ExistingMeaning(store: Store, collegeId: string, students: seq<Student>, s: Student)
    requires s in students && Keyed(s)
    ensures s.email in StoredEmails(store, students) <==> exists u | u in store.users :: u.email == s.email
    ensures s.studentId in StoredIds(store, students) <==>
      exists u | u in store.users :: u.studentId == Some(s.studentId)
    ensures s.rollNumber in StoredRolls(store, collegeId, students) <==>
      exists p | p in store.profiles :: p.collegeId == collegeId && p.rollNumber == s.rollNumber
  {
    forall u | u in store.users && (u.email == s.email || u.studentId == Some(s.studentId))
      ensures IsNamed(u, students)
    {
    }
    if p :| p in store.profiles && p.collegeId == collegeId && p.rollNumber == s.rollNumber {
      assert IsEnrolled(p, students);
      assert p.rollNumber in StoredRolls(store, collegeId, students);
    }
  }

  lemma {:induction false} ExistingEmpty(store: Store, collegeId: string, students: seq<Student>, n: nat)
    requires n <= |students| && forall i | 0 <= i < n :: Keyed(students[i])
    ensures ExistingErrors(store, collegeId, students, n) == [] <==>
      forall i | 0 <= i < n :: Unused(store, collegeId, students[i])
  {
    if n > 0 {
      ExistingEmpty(store, collegeId, students, n - 1);
      ExistingOne(store, collegeId, students, students[n - 1]);
    }
  }

  lemma ExistingOne(store: Store, collegeId: string, students: seq<Student>, s: Student)
    requires s in students && Keyed(s)
    ensures ExistingError(StoredEmails(store, students), StoredIds(store, students),
                          StoredRolls(store, collegeId, students), s) == []
      <==> Unused(store, collegeId, s)
  {
    ExistingMeaning(store, collegeId, students, s);
  }

  // ---- links ----

  /** A value resolves to the one record that has it as an alias, when there is exactly one; case and
      spacing do not matter. */
  lemma ResolveMeaning(items: Items, value: string)
    requires Norm(value) != ""
    ensures forall id :: Resolve(items, value) == Resolved(id) <==> Matching(items, value) == {id}
    ensures Resolve(items, value) == Unknown <==> Matching(items, value) == {}
    ensures Resolve(items, value) == Several <==>
      exists a, b :: a in Matching(items, value) && b in Matching(items, value) && a != b
  {
    var ids := Matching(items, value);
    Sizes(ids);
    forall id ensures Resolve(items, value) == Resolved(id) <==> ids == {id} {
      if |ids| == 1 { assert TheOnly(ids) in ids; }
    }
  }

  lemma Sizes(ids: set<string>)
    ensures |ids| == 0 <==> forall id :: id !in ids
    ensures |ids| == 1 <==> exists id :: ids == {id}
    ensures |ids| > 1 <==> exists a, b :: a in ids && b in ids && a != b
  {
    if |ids| == 1 { SingletonIsUnique(ids); }
    if |ids| > 1 {
      var a :| a in ids;
      assert |ids - {a}| > 0;
      var b :| b in ids - {a};
    }
    if a, b :| a in ids && b in ids && a != b {
      assert ids == {a, b} + (ids - {a, b});
      assert |{a, b}| == 2;
    }
  }

  /** Spacing and letter case do not matter, and nothing else does not. */
  lemma NormMeaning(a: string, b: string)
    ensures Norm(a) == Norm(b) <==> Text.SameWords(a, b)
    ensures Norm(a) == "" <==> Text.Words(a) == []
  {
    Text.NormalisedWords(a, b);
  }

  /** A department of the college that the value names by its identity, name or code. */
  ghost predicate NamesDepartment(store: Store, collegeId: string, value: string, id: string) {
    && id in store.departments && store.departments[id].collegeId == collegeId
    && var d := store.departments[id];
       Text.SameWords(id, value) || Text.SameWords(d.name, value) || Text.SameWords(d.code, value)
  }

  /** A course of the college, by its identity, name, short name, code or title. */
  ghost predicate NamesCourse(store: Store, collegeId: string, value: string, id: string) {
    && id in store.courses && store.courses[id].collegeId == Some(collegeId)
    && var c := store.courses[id];
       || Text.SameWords(id, value) || Text.SameWords(c.code, value) || Text.SameWords(c.title, value)
       || (c.courseName.Some? && Text.SameWords(c.courseName.value, value))
       || (c.shortName.Some? && Text.SameWords(c.shortName.value, value))
  }

  /** A semester of the college, by its identity, name or number, bare or after the word "Semester". */
  ghost predicate NamesSemester(store: Store, collegeId: string, value: string, id: string) {
    && id in store.semesters && store.semesters[id].collegeId == collegeId
    && var s := store.semesters[id];
       || Text.SameWords(id, value) || Text.SameWords(s.name, value)
       || Text.SameWords(Text.Shown(s.number), value) || Text.SameWords("Semester " + Text.Shown(s.number), value)
  }

  /** A batch of the college, by its identity, name, or academic year and section. */
  ghost predicate NamesBatch(store: Store, collegeId: string, value: string, id: string) {
    && id in store.batches && store.batches[id].collegeId == collegeId
    && var b := store.batches[id];
       || Text.SameWords(id, value) || Text.SameWords(b.name, value)
       || Text.SameWords(Text.Shown(b.academicYear) + " " + b.section, value)
  }

  ghost function DepartmentsNamed(store: Store, collegeId: string, value: string): set<string> {
    set id | id in store.departments && NamesDepartment(store, collegeId, value, id)
  }

  ghost function CoursesNamed(store: Store, collegeId: string, value: string): set<string> {
    set id | id in store.courses && NamesCourse(store, collegeId, value, id)
  }

  ghost function SemestersNamed(store: Store, collegeId: string, value: string): set<string> {
    set id | id in store.semesters && NamesSemester(store, collegeId, value, id)
  }

  ghost function BatchesNamed(store: Store, collegeId: string, value: string): set<string> {
    set id | id in store.batches && NamesBatch(store, collegeId, value, id)
  }

  lemma MeansThree(a: string, b: string, c: string, value: string)
    ensures Means([a, b, c], value) <==>
      Text.SameWords(a, value) || Text.SameWords(b, value) || Text.SameWords(c, value)
  {
    var aliases := [a, b, c];
    assert aliases[0] == a && aliases[1] == b && aliases[2] == c;
    NormMeaning(a, value);
    NormMeaning(b, value);
    NormMeaning(c, value);
  }

  lemma MeansMore(aliases: seq<string>, more: seq<string>, value: string)
    ensures Means(aliases + more, value) <==> Means(aliases, value) || Means(more, value)
  {
    var all := aliases + more;
    if k :| 0 <= k < |aliases| && Norm(aliases[k]) == Norm(value) { assert all[k] == aliases[k]; }
    if k :| 0 <= k < |more| && Norm(more[k]) == Norm(value) { assert all[|aliases| + k] == more[k]; }
  }

  lemma MeansOne(alias: string, value: string)
    ensures Means([alias], value) <==> Text.SameWords(alias, value)
  {
    assert [alias][0] == alias;
    NormMeaning(alias, value);
  }

  lemma AbsentName(name: Option<string>, value: string)
    requires Text.Words(value) != []
    ensures Text.SameWords(name.GetOr(""), value) <==> name.Some? && Text.SameWords(name.value, value)
  {
    assert Text.Words("") == [];
  }

  ghost predicate ResolvesTo(r: Resolution, named: set<string>) {
    && !r.Blank?
    && (forall id :: r == Resolved(id) <==> named == {id})
    && (r == Unknown <==> named == {})
  }

  lemma ResolveNamed(items: Items, value: string, named: set<string>)
    requires Text.Words(value) != [] && forall id :: id in named <==> id in Matching(items, value)
    ensures ResolvesTo(Resolve(items, value), named)
  {
    NormMeaning(value, value);
    assert named == Matching(items, value);
    ResolveMeaning(items, value);
  }

  /** A link resolves to a record when that is the only one of the college the value names, and to nothing when
      there is none. */
  lemma DepartmentResolves(store: Store, collegeId: string, value: string)
    requires Text.Words(value) != []
    ensures ResolvesTo(Resolve(DepartmentItems(store, collegeId), value), DepartmentsNamed(store, collegeId, value))
  {
    var items := DepartmentItems(store, collegeId);
    forall id | id in items ensures Means(items[id], value) <==> NamesDepartment(store, collegeId, value, id) {
      MeansThree(id, store.departments[id].name, store.departments[id].code, value);
    }
    ResolveNamed(items, value, DepartmentsNamed(store, collegeId, value));
  }

  lemma CourseResolves(store: Store, collegeId: string, value: string)
    requires Text.Words(value) != []
    ensures ResolvesTo(Resolve(CourseItems(store, collegeId), value), CoursesNamed(store, collegeId, value))
  {
    var items := CourseItems(store, collegeId);
    forall id | id in items ensures Means(items[id], value) <==> NamesCourse(store, collegeId, value, id) {
      MeansCourse(id, store.courses[id], items[id], value);
    }
    ResolveNamed(items, value, CoursesNamed(store, collegeId, value));
  }

  lemma MeansCourse(id: string, c: Course, aliases: seq<string>, value: string)
    requires Text.Words(value) != []
    requires aliases == [id, c.courseName.GetOr(""), c.shortName.GetOr(""), c.code, c.title]
    ensures Means(aliases, value) <==>
      || Text.SameWords(id, value) || Text.SameWords(c.code, value) || Text.SameWords(c.title, value)
      || (c.courseName.Some? && Text.SameWords(c.courseName.value, value))
      || (c.shortName.Some? && Text.SameWords(c.shortName.value, value))
  {
    var names, codes := [id, c.courseName.GetOr(""), c.shortName.GetOr("")], [c.code];
    assert aliases == names + (codes + [c.title]);
    MeansMore(names, codes + [c.title], value);
    MeansMore(codes, [c.title], value);
    MeansThree(id, c.courseName.GetOr(""), c.shortName.GetOr(""), value);
    MeansOne(c.code, value);
    MeansOne(c.title, value);
    AbsentName(c.courseName, value);
    AbsentName(c.shortName, value);
  }

  lemma SemesterResolves(store: Store, collegeId: string, value: string)
    requires Text.Words(value) != []
    ensures ResolvesTo(Resolve(SemesterItems(store, collegeId), value), SemestersNamed(store, collegeId, value))
  {
    var items := SemesterItems(store, collegeId);
    forall id | id in items ensures Means(items[id], value) <==> NamesSemester(store, collegeId, value, id) {
      var name, number := store.semesters[id].name, Text.Shown(store.semesters[id].number);
      assert items[id] == [id, name, "Semester " + number] + [number];
      MeansMore([id, name, "Semester " + number], [number], value);
      MeansThree(id, name, "Semester " + number, value);
      MeansOne(number, value);
    }
    ResolveNamed(items, value, SemestersNamed(store, collegeId, value));
  }

  lemma BatchResolves(store: Store, collegeId: string, value: string)
    requires Text.Words(value) != []
    ensures ResolvesTo(Resolve(BatchItems(store, collegeId), value), BatchesNamed(store, collegeId, value))
  {
    var items := BatchItems(store, collegeId);
    forall id | id in items ensures Means(items[id], value) <==> NamesBatch(store, collegeId, value, id) {
      var b := store.batches[id];
      MeansThree(id, b.name, Text.Shown(b.academicYear) + " " + b.section, value);
    }
    ResolveNamed(items, value, BatchesNamed(store, collegeId, value));
  }

  // ---- semester numbers ----

  lemma DigitsInk(n: nat)
    ensures Text.Digits(n) != "" && !Text.IsSpace(Text.Digits(n)[|Text.Digits(n)| - 1])
  {
  }

  lemma InkKept(s: string)
    requires s != "" && !Text.IsSpace(s[|s| - 1])
    ensures Norm(s) != ""
  {
    Text.TrimStartInk(s);
    Text.TrimEndInk(Text.TrimStart(s));
    Text.CollapseKeeps(Text.Trim(s));
  }

  lemma NumberNotBlank(n: int)
    ensures Norm(Text.Shown(n)) != ""
  {
    DigitsInk(if n < 0 then -n else n);
    InkKept(Text.Shown(n));
  }

  /** A bare semester number is never accepted when two courses of the college have a semester of that
      number, even when the row names the course. */
  lemma NumberIsAmbiguous(store: Store, collegeId: string, a: string, b: string)
    requires a in store.semesters && b in store.semesters && a != b
    requires store.semesters[a].collegeId == store.semesters[b].collegeId == collegeId
    requires store.semesters[a].number == store.semesters[b].number
    ensures Resolve(SemesterItems(store, collegeId), Text.Shown(store.semesters[a].number)) == Several
  {
    var items, value := SemesterItems(store, collegeId), Text.Shown(store.semesters[a].number);
    NumberNotBlank(store.semesters[a].number);
    assert items[a][3] == value && items[b][3] == value;
    TwoMatch(items, value, a, b);
  }

  lemma TwoMatch(items: Items, value: string, a: string, b: string)
    requires Norm(value) != "" && a in items && b in items && a != b
    requires Means(items[a], value) && Means(items[b], value)
    ensures Resolve(items, value) == Several
  {
    assert a in Matching(items, value) && b in Matching(items, value);
    Sizes(Matching(items, value));
  }

  ghost predicate HasLinks(s: Student) {
    Norm(s.departmentId) != "" && Norm(s.courseId) != "" && Norm(s.semesterId) != "" && Norm(s.batchId) != ""
  }

  ghost predicate Ready(s: Student) {
    Keyed(s) && HasLinks(s)
  }

  ghost predicate NoBlank(links: Links) {
    !links.department.Blank? && !links.course.Blank? && !links.semester.Blank? && !links.batch.Blank?
  }

  lemma LinksNotBlank(lookups: Lookups, s: Student)
    requires HasLinks(s)
    ensures NoBlank(LinksOf(lookups, s))
  {
  }

  lemma LinkEmpty(row: nat, links: Links)
    requires NoBlank(links)
    ensures LinkErrors(row, links) == [] <==> links.AllResolved()
  {
  }

  lemma {:induction false} LinksEmpty(students: seq<Student>, links: seq<Links>, n: nat)
    requires n <= |students| == |links| && forall i | 0 <= i < n :: NoBlank(links[i])
    ensures AllLinkErrors(students, links, n) == [] <==> forall i | 0 <= i < n :: links[i].AllResolved()
  {
    if n > 0 {
      LinksEmpty(students, links, n - 1);
      LinkEmpty(students[n - 1].row, links[n - 1]);
    }
  }

  // ---- the hierarchy ----

  ghost predicate InPlace(store: Store, collegeId: string, s: Student) {
    && s.semesterId in store.semesters && store.semesters[s.semesterId].collegeId == collegeId
    && store.semesters[s.semesterId].courseId == s.courseId
    && s.batchId in store.batches && store.batches[s.batchId].collegeId == collegeId
    && store.batches[s.batchId].courseId == s.courseId && store.batches[s.batchId].semesterId == s.semesterId
  }

  lemma PlaceEmpty(store: Store, collegeId: string, s: Student)
    ensures SemesterErrors(store, collegeId, s) == [] && BatchErrors(store, collegeId, s) == [] <==>
      InPlace(store, collegeId, s)
  {
  }

  lemma PlacedStep(store: Store, collegeId: string, students: seq<Student>, errors: seq<Error>,
      n: nat)
    requires 0 < n <= |students|
    ensures var s := students[n - 1];
      Placed(store, collegeId, students, errors, n) == [] <==>
        && Placed(store, collegeId, students, errors, n - 1) == []
        && SemesterErrors(store, collegeId, s) == [] && BatchErrors(store, collegeId, s) == []
  {
    if Placed(store, collegeId, students, errors, n - 1) == [] {
      assert !HasLinkError([], students[n - 1].row);
    }
  }

  lemma {:induction false} PlacedEmpty(store: Store, collegeId: string, students: seq<Student>, errors: seq<Error>,
      n: nat)
    requires n <= |students|
    ensures Placed(store, collegeId, students, errors, n) == [] <==>
      errors == [] && forall i | 0 <= i < n :: InPlace(store, collegeId, students[i])
  {
    if n > 0 {
      PlacedEmpty(store, collegeId, students, errors, n - 1);
      PlaceEmpty(store, collegeId, students[n - 1]);
      PlacedStep(store, collegeId, students, errors, n);
    }
  }

  /** A student all of whose links resolve, to a semester of its course and a batch of that course and
      semester. */
  ghost predicate Placeable(store: Store, collegeId: string, s: Student) {
    var links := LinksOf(LookupsOf(store, collegeId), s);
    links.AllResolved() && InPlace(store, collegeId, LinkedStudent(s, links))
  }

  // ---- what is reported after the payload is clean ----

  /** An error that a stored student causes: its email, student ID or, in the college, roll number is taken. */
  ghost predicate TakenError(store: Store, collegeId: string, s: Student, e: Error) {
    && e.kind == Exists && e.row == s.row
    && (|| (e.field == Email && exists u | u in store.users :: u.email == s.email)
        || (e.field == StudentId && exists u | u in store.users :: u.studentId == Some(s.studentId))
        || (e.field == RollNumber && exists p | p in store.profiles ::
              p.collegeId == collegeId && p.rollNumber == s.rollNumber))
  }

  lemma ExistingReported(store: Store, collegeId: string, students: seq<Student>, s: Student, e: Error)
    requires s in students && Keyed(s)
    ensures e in ExistingError(StoredEmails(store, students), StoredIds(store, students),
                               StoredRolls(store, collegeId, students), s)
      <==> TakenError(store, collegeId, s, e)
  {
    ExistingMeaning(store, collegeId, students, s);
    ThreeErrors(s.email in StoredEmails(store, students), s.studentId in StoredIds(store, students),
                s.rollNumber in StoredRolls(store, collegeId, students), s.row, e);
  }

  lemma ThreeErrors(a: bool, b: bool, c: bool, row: nat, e: Error)
    ensures e in OneIf(a, row, Email, Exists) + OneIf(b, row, StudentId, Exists) + OneIf(c, row, RollNumber, Exists)
      <==> (a && e == Error(row, Email, Exists)) || (b && e == Error(row, StudentId, Exists))
           || (c && e == Error(row, RollNumber, Exists))
  {
  }

  /** An error of a link: its value names nothing, or more than one record. */
  ghost predicate LinkWrong(row: nat, f: Field, r: Resolution, e: Error) {
    (e == Error(row, f, NotFound) && r == Unknown) || (e == Error(row, f, Ambiguous) && r == Several)
  }

  lemma LinkReported(row: nat, links: Links, e: Error)
    ensures e in LinkErrors(row, links) <==>
      || LinkWrong(row, DepartmentId, links.department, e) || LinkWrong(row, CourseId, links.course, e)
      || LinkWrong(row, SemesterId, links.semester, e) || LinkWrong(row, BatchId, links.batch, e)
  {
    OneLink(row, DepartmentId, links.department, e);
    OneLink(row, CourseId, links.course, e);
    OneLink(row, SemesterId, links.semester, e);
    OneLink(row, BatchId, links.batch, e);
  }

  lemma OneLink(row: nat, f: Field, r: Resolution, e: Error)
    ensures e in LinkError(row, f, r) <==> LinkWrong(row, f, r, e)
  {
  }

  /** An error of a place: a semester or batch that is not the college's, a semester of another course, or a batch
      of another course or semester. */
  ghost predicate PlaceWrong(store: Store, collegeId: string, s: Student, e: Error) {
    && e.row == s.row
    && match (e.field, e.kind)
       case (SemesterId, NotFound) =>
         !(s.semesterId in store.semesters && store.semesters[s.semesterId].collegeId == collegeId)
       case (SemesterId, Misplaced) =>
         && s.semesterId in store.semesters && store.semesters[s.semesterId].collegeId == collegeId
         && store.semesters[s.semesterId].courseId != s.courseId
       case (BatchId, NotFound) => !(s.batchId in store.batches && store.batches[s.batchId].collegeId == collegeId)
       case (BatchId, Misplaced) =>
         && s.batchId in store.batches && store.batches[s.batchId].collegeId == collegeId
         && (store.batches[s.batchId].courseId != s.courseId || store.batches[s.batchId].semesterId != s.semesterId)
       case _ => false
  }

  lemma PlaceReported(store: Store, collegeId: string, s: Student, e: Error)
    ensures e in SemesterErrors(store, collegeId, s) + BatchErrors(store, collegeId, s)
      <==> PlaceWrong(store, collegeId, s, e)
  {
  }

  /** A link of the row has an error, or another error was reported for that field of it. */
  ghost predicate LinkFailed(errors: seq<Error>, row: nat) {
    exists e | e in errors :: e.row == row && e.field in {DepartmentId, CourseId, SemesterId, BatchId}
  }

  lemma LinkFailedMeaning(errors: seq<Error>, row: nat)
    ensures HasLinkError(errors, row) <==> LinkFailed(errors, row)
  {
    forall f: Field ensures f in LINKS <==> f in {DepartmentId, CourseId, SemesterId, BatchId} {
    }
  }

  /** The check of the places reports them for the rows without an error of a link, and for no others. */
  lemma {:induction false} PlacesReported(store: Store, collegeId: string, students: seq<Student>, errors: seq<Error>,
      n: nat, e: Error)
    requires n <= |students| && forall i, j | 0 <= i < j < |students| :: students[i].row != students[j].row
    ensures e in Placed(store, collegeId, students, errors, n) <==>
      || e in errors
      || exists i | 0 <= i < n :: !LinkFailed(errors, students[i].row) && PlaceWrong(store, collegeId, students[i], e)
    ensures forall i | n <= i < |students| ::
      var after := Placed(store, collegeId, students, errors, n);
      LinkFailed(after, students[i].row) <==> LinkFailed(errors, students[i].row)
  {
    if n > 0 {
      var before, s := Placed(store, collegeId, students, errors, n - 1), students[n - 1];
      PlacesReported(store, collegeId, students, errors, n - 1, e);
      PlaceReported(store, collegeId, s, e);
      LinkFailedMeaning(before, s.row);
      var placed := SemesterErrors(store, collegeId, s) + BatchErrors(store, collegeId, s);
      assert before + SemesterErrors(store, collegeId, s) + BatchErrors(store, collegeId, s) == before + placed;
      forall i | n <= i < |students|
        ensures LinkFailed(before + placed, students[i].row) <==> LinkFailed(before, students[i].row)
      {
        OtherRow(before, placed, s.row, students[i].row);
      }
    }
  }

  lemma OtherRow(before: seq<Error>, more: seq<Error>, row: nat, other: nat)
    requires row != other && forall e | e in more :: e.row == row
    ensures LinkFailed(before + more, other) <==> LinkFailed(before, other)
  {
    if e :| e in before && e.row == other && e.field in {DepartmentId, CourseId, SemesterId, BatchId} {
      assert e in before + more;
    }
  }

  // ---- the whole payload ----

  ghost predicate PayloadOk(collegeId: string, inputs: seq<Input>) {
    && (forall i | 0 <= i < |inputs| :: RowOk(inputs[i]) && CollegeOk(inputs[i], collegeId))
    && KeysDistinct(StudentsOf(inputs))
  }

  ghost predicate StoreOk(store: Store, collegeId: string, students: seq<Student>) {
    && (forall i | 0 <= i < |students| :: Unused(store, collegeId, students[i]))
    && (forall i | 0 <= i < |students| :: Placeable(store, collegeId, students[i]))
  }

  lemma RowOkTexts(x: Input, row: nat)
    requires RowOk(x)
    ensures Ready(StudentOf(x, row))
  {
    TextsOk(x);
    Text.TrimmedKeeps(x.departmentId);
    Text.TrimmedKeeps(x.courseId);
    Text.TrimmedKeeps(x.semesterId);
    Text.TrimmedKeeps(x.batchId);
  }

  lemma PayloadEmpty(collegeId: string, inputs: seq<Input>)
    ensures PayloadErrors(collegeId, inputs) == [] <==> PayloadOk(collegeId, inputs)
  {
    RowsEmpty(inputs, |inputs|);
    CollegesEmpty(inputs, collegeId, |inputs|);
    StudentsNumbered(inputs);
    DuplicatesEmpty(StudentsOf(inputs));
  }

  lemma StoreEmpty(store: Store, collegeId: string, students: seq<Student>)
    requires forall i | 0 <= i < |students| :: Ready(students[i])
    ensures StoreErrors(store, collegeId, students) == [] <==> StoreOk(store, collegeId, students)
  {
    var n, links := |students|, AllLinks(LookupsOf(store, collegeId), students);
    forall i | 0 <= i < n ensures NoBlank(links[i]) {
      LinksNotBlank(LookupsOf(store, collegeId), students[i]);
    }
    ExistingEmpty(store, collegeId, students, n);
    LinksEmpty(students, links, n);
    var linked := LinkAll(students, links);
    var earlier := ExistingErrors(store, collegeId, students, n) + AllLinkErrors(students, links, n);
    PlacedEmpty(store, collegeId, linked, earlier, n);
    LinkedPlaceable(store, collegeId, students);
  }

  lemma LinkedPlaceable(store: Store, collegeId: string, students: seq<Student>)
    ensures var links := AllLinks(LookupsOf(store, collegeId), students);
      (forall i | 0 <= i < |students| :: Placeable(store, collegeId, students[i])) <==>
      (forall i | 0 <= i < |students| :: links[i].AllResolved())
      && forall i | 0 <= i < |students| :: InPlace(store, collegeId, LinkAll(students, links)[i])
  {
    var links := AllLinks(LookupsOf(store, collegeId), students);
    var linked := LinkAll(students, links);
    forall i | 0 <= i < |students|
      ensures Placeable(store, collegeId, students[i]) <==>
        links[i].AllResolved() && InPlace(store, collegeId, linked[i])
    {
      assert links[i] == LinksOf(LookupsOf(store, collegeId), students[i])
        && linked[i] == LinkedStudent(students[i], links[i]);
    }
  }

  lemma StudentsReady(inputs: seq<Input>, i: nat)
    requires i < |inputs| && RowOk(inputs[i])
    ensures Ready(StudentsOf(inputs)[i])
  {
    RowOkTexts(inputs[i], i + 1);
  }

  lemma ValidateEmpty(store: Store, collegeId: string, inputs: seq<Input>, students: seq<Student>,
      payload: seq<Error>)
    requires students == StudentsOf(inputs) && payload == PayloadErrors(collegeId, inputs)
    ensures Validate(store, collegeId, inputs).1 == [] <==>
      inputs != [] && payload == [] && StoreErrors(store, collegeId, students) == []
  {
  }

  /** A payload passes validation exactly when it is not empty, every row is complete and well-formed and of
      the college, no two rows share an email, student ID or roll number, no stored student has one of
      theirs, and every row's links resolve to records that belong together. */
  lemma AcceptedExactly(store: Store, collegeId: string, inputs: seq<Input>)
    ensures Validate(store, collegeId, inputs).1 == [] <==>
      inputs != [] && PayloadOk(collegeId, inputs) && StoreOk(store, collegeId, StudentsOf(inputs))
  {
    ValidateEmpty(store, collegeId, inputs, StudentsOf(inputs), PayloadErrors(collegeId, inputs));
    PayloadEmpty(collegeId, inputs);
    if PayloadOk(collegeId, inputs) {
      forall i | 0 <= i < |inputs| ensures Ready(StudentsOf(inputs)[i]) {
        StudentsReady(inputs, i);
      }
      StoreEmpty(store, collegeId, StudentsOf(inputs));
    }
  }
}

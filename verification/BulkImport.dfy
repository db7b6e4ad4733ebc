/** Bulk student import: a list is validated against the tables, then inserted in one transaction. */
module BulkImport {
  import opened Common
  import Text

  // ---- tables ----

  datatype User = User(email: string, studentId: Option<string>, name: string, collegeId: Option<string>)

  /** A student profile; `userId` is the position of its user. */
  datatype Profile = Profile(
    collegeId: string, rollNumber: string, departmentId: string, courseId: string, semesterId: string,
    batchId: string, section: string, admissionYear: int, userId: nat)

  datatype Department = Department(collegeId: string, name: string, code: string, active: bool)

  datatype Course = Course(
    collegeId: Option<string>, departmentId: Option<string>, courseName: Option<string>, shortName: Option<string>,
    code: string, title: string, active: bool)

  datatype Semester = Semester(collegeId: string, name: string, number: int, courseId: string, active: bool)

  datatype Batch = Batch(
    collegeId: string, name: string, academicYear: int, section: string, courseId: string, semesterId: string,
    active: bool)

  /** The tables an import reads or writes; the academic ones by primary key. */
  datatype Store = Store(
    users: seq<User>, profiles: seq<Profile>, departments: map<string, Department>, courses: map<string, Course>,
    semesters: map<string, Semester>, batches: map<string, Batch>)

  // ---- a row of the payload ----

  datatype Year = Missing | Malformed | Year(n: int)

  /** A row as sent; an absent text is empty. The last three flags say whether gender, status and date
      of birth are absent or well-formed. */
  datatype Input = Input(
    collegeId: string, rollNumber: string, studentId: string, name: string, email: string, departmentId: string,
    courseId: string, semesterId: string, batchId: string, section: string, admissionYear: Year,
    genderOk: bool, statusOk: bool, dobOk: bool)

  datatype Field =
    | Students | RollNumber | StudentId | Name | Email | DepartmentId | CourseId | SemesterId | BatchId
    | Section | AdmissionYear | CollegeId | Gender | Status | Dob

  datatype Kind =
    | Required | Invalid | OtherCollege | Duplicate(firstRow: nat) | Exists | NotFound | Ambiguous | Misplaced | Empty

  datatype Error = Error(row: nat, field: Field, kind: Kind)

  datatype Student = Student(
    row: nat, rollNumber: string, studentId: string, name: string, email: string, departmentId: string,
    courseId: string, semesterId: string, batchId: string, section: string, admissionYear: int)

  const REQUIRED: seq<Field> :=
    [RollNumber, StudentId, Name, Email, DepartmentId, CourseId, SemesterId, BatchId, Section, AdmissionYear]

  function TextOf(x: Input, f: Field): string {
    match f
    case RollNumber => x.rollNumber
    case StudentId => x.studentId
    case Name => x.name
    case Email => x.email
    case DepartmentId => x.departmentId
    case CourseId => x.courseId
    case SemesterId => x.semesterId
    case BatchId => x.batchId
    case Section => x.section
    case _ => ""
  }

  predicate IsMissing(x: Input, f: Field) {
    if f == AdmissionYear then x.admissionYear.Missing? else Text.Trim(TextOf(x, f)) == ""
  }

  /** `^[^\s@]+@[^\s@]+\.[^\s@]+$` */
  predicate IsEmail(s: string) {
    && (forall k | 0 <= k < |s| :: !Text.IsSpace(s[k]))
    && exists i | 0 < i < |s| ::
         && s[i] == '@' && (forall k | 0 <= k < |s| && k != i :: s[k] != '@')
         && exists j | i + 1 < j < |s| - 1 :: s[j] == '.'
  }

  predicate YearOk(y: Year) {
    y.Year? && 2000 <= y.n <= 2100
  }

  function StudentOf(x: Input, row: nat): Student {
    Student(
      row, Text.Upper(Text.Trim(x.rollNumber)), Text.Upper(Text.Trim(x.studentId)), Text.Trim(x.name),
      Text.Lower(Text.Trim(x.email)), Text.Trim(x.departmentId), Text.Trim(x.courseId), Text.Trim(x.semesterId),
      Text.Trim(x.batchId), Text.Upper(Text.Trim(x.section)), if x.admissionYear.Year? then x.admissionYear.n else 0)
  }

  function OneIf(wrong: bool, row: nat, field: Field, kind: Kind): seq<Error> {
    if wrong then [Error(row, field, kind)] else []
  }

  /** The errors of the first `n` of the given fields. */
  function RequiredErrors(x: Input, row: nat, fields: seq<Field>, n: nat): seq<Error>
    requires n <= |fields|
  {
    if n == 0 then []
    else RequiredErrors(x, row, fields, n - 1) + OneIf(IsMissing(x, fields[n - 1]), row, fields[n - 1], Required)
  }

  predicate BadEmail(email: string) {
    email != "" && !IsEmail(email)
  }

  function DetailErrors(x: Input, row: nat): seq<Error> {
    OneIf(!x.genderOk, row, Gender, Invalid) + OneIf(!x.statusOk, row, Status, Invalid)
      + OneIf(!x.dobOk, row, Dob, Invalid)
  }

  function FormatErrors(x: Input, row: nat): seq<Error> {
    OneIf(BadEmail(Text.Lower(Text.Trim(x.email))), row, Email, Invalid)
    + OneIf(!YearOk(x.admissionYear), row, AdmissionYear, Invalid)
    + DetailErrors(x, row)
  }

  function RowErrors(x: Input, row: nat): seq<Error> {
    RequiredErrors(x, row, REQUIRED, |REQUIRED|) + FormatErrors(x, row)
  }

  function CollegeErrors(x: Input, row: nat, collegeId: string): seq<Error> {
    OneIf(x.collegeId != "" && x.collegeId != collegeId, row, CollegeId, OtherCollege)
  }


  // ---- duplicates inside the payload ----

  const KEYS: seq<Field> := [Email, StudentId, RollNumber]

  function KeyOf(s: Student, f: Field): string {
    match f
    case Email => s.email
    case StudentId => s.studentId
    case RollNumber => s.rollNumber
    case _ => ""
  }

  /** The first of `n` rows with a given value, `n` if there is none. */
  function First(students: seq<Student>, f: Field, value: string, n: nat): (j: nat)
    requires n <= |students|
    ensures j <= n && (j < n ==> KeyOf(students[j], f) == value)
    ensures forall k | 0 <= k < j :: KeyOf(students[k], f) != value
  {
    if n == 0 then 0
    else
      var j := First(students, f, value, n - 1);
      if j < n - 1 || KeyOf(students[n - 1], f) == value then j else n
  }

  function DuplicateError(students: seq<Student>, f: Field, i: nat): seq<Error>
    requires i < |students|
  {
    var value := KeyOf(students[i], f);
    var j := First(students, f, value, i);
    if value != "" && j < i then [Error(students[i].row, f, Duplicate(students[j].row))] else []
  }

  function DuplicateErrors(students: seq<Student>, f: Field, n: nat): seq<Error>
    requires n <= |students|
  {
    if n == 0 then [] else DuplicateErrors(students, f, n - 1) + DuplicateError(students, f, n - 1)
  }

  // ---- duplicates among the stored students ----

  function StoredEmails(store: Store, students: seq<Student>): set<string> {
    set u | u in store.users && IsNamed(u, students) :: u.email
  }

  function StoredIds(store: Store, students: seq<Student>): set<string> {
    set u | u in store.users && IsNamed(u, students) && u.studentId.Some?
      && u.studentId.value != "" :: u.studentId.value
  }

  /** The users the query returns: those with the email or the student ID of some row. */
  predicate IsNamed(u: User, students: seq<Student>) {
    exists s | s in students ::
      (s.email != "" && s.email == u.email) || (s.studentId != "" && Some(s.studentId) == u.studentId)
  }

  function StoredRolls(store: Store, collegeId: string, students: seq<Student>): set<string> {
    set p | p in store.profiles && p.collegeId == collegeId && IsEnrolled(p, students) :: p.rollNumber
  }

  predicate IsEnrolled(p: Profile, students: seq<Student>) {
    exists s | s in students :: s.rollNumber != "" && s.rollNumber == p.rollNumber
  }

  function ExistingError(emails: set<string>, ids: set<string>, rolls: set<string>, s: Student): seq<Error> {
    OneIf(s.email in emails, s.row, Email, Exists)
    + OneIf(s.studentId in ids, s.row, StudentId, Exists)
    + OneIf(s.rollNumber in rolls, s.row, RollNumber, Exists)
  }

  function ExistingErrors(store: Store, collegeId: string, students: seq<Student>, n: nat): seq<Error>
    requires n <= |students|
  {
    if n == 0 then []
    else
      ExistingErrors(store, collegeId, students, n - 1)
      + ExistingError(StoredEmails(store, students), StoredIds(store, students),
                      StoredRolls(store, collegeId, students), students[n - 1])
  }

  // ---- resolving departments, courses, semesters and batches ----

  /** The records a value may mean: identities with their aliases. */
  type Items = map<string, seq<string>>

  /** The records of a college that the links of a row may mean. */
  datatype Lookups = Lookups(departments: Items, courses: Items, semesters: Items, batches: Items)

  function DepartmentItems(store: Store, collegeId: string): Items {
    map id | id in store.departments && store.departments[id].collegeId == collegeId ::
      [id, store.departments[id].name, store.departments[id].code]
  }

  function CourseItems(store: Store, collegeId: string): Items {
    map id | id in store.courses && store.courses[id].collegeId == Some(collegeId) ::
      var c := store.courses[id];
      [id, c.courseName.GetOr(""), c.shortName.GetOr(""), c.code, c.title]
  }

  function SemesterItems(store: Store, collegeId: string): Items {
    map id | id in store.semesters && store.semesters[id].collegeId == collegeId ::
      var number := Text.Shown(store.semesters[id].number);
      [id, store.semesters[id].name, "Semester " + number, number]
  }

  function BatchItems(store: Store, collegeId: string): Items {
    map id | id in store.batches && store.batches[id].collegeId == collegeId ::
      [id, store.batches[id].name, Text.Shown(store.batches[id].academicYear) + " " + store.batches[id].section]
  }

  function LookupsOf(store: Store, collegeId: string): Lookups {
    Lookups(
      DepartmentItems(store, collegeId), CourseItems(store, collegeId),
      SemesterItems(store, collegeId), BatchItems(store, collegeId))
  }

  function Norm(s: string): string {
    Text.Lower(Text.CollapseSpaces(Text.Trim(s)))
  }

  predicate Means(aliases: seq<string>, value: string) {
    exists k | 0 <= k < |aliases| :: Norm(aliases[k]) == Norm(value)
  }

  function Matching(items: Items, value: string): set<string> {
    set id | id in items && Means(items[id], value)
  }

  lemma SingletonIsUnique(ids: set<string>)
    requires |ids| == 1
    ensures exists id :: ids == {id}
  {
    var id :| id in ids;
    assert |ids - {id}| == 0;
    assert ids == {id};
  }

  function TheOnly(ids: set<string>): (id: string)
    requires |ids| == 1
    ensures ids == {id}
  {
    SingletonIsUnique(ids);
    var id :| id in ids;
    id
  }

  datatype Resolution = Blank | Resolved(id: string) | Unknown | Several

  function Choose(ids: set<string>): Resolution {
    if |ids| == 1 then Resolved(TheOnly(ids)) else if |ids| == 0 then Unknown else Several
  }

  function Resolve(items: Items, value: string): Resolution {
    if Norm(value) == "" then Blank else Choose(Matching(items, value))
  }

  const LINKS: seq<Field> := [DepartmentId, CourseId, SemesterId, BatchId]

  function LinkError(row: nat, f: Field, r: Resolution): seq<Error> {
    match r
    case Unknown => [Error(row, f, NotFound)]
    case Several => [Error(row, f, Ambiguous)]
    case _ => []
  }

  /** What the four links of a row resolve to. */
  datatype Links = Links(department: Resolution, course: Resolution, semester: Resolution, batch: Resolution) {
    predicate AllResolved() {
      department.Resolved? && course.Resolved? && semester.Resolved? && batch.Resolved?
    }
  }

  function LinksOf(lookups: Lookups, s: Student): Links {
    Links(
      Resolve(lookups.departments, s.departmentId), Resolve(lookups.courses, s.courseId),
      Resolve(lookups.semesters, s.semesterId), Resolve(lookups.batches, s.batchId))
  }

  function Or(r: Resolution, value: string): string {
    if r.Resolved? then r.id else value
  }

  function LinkedStudent(s: Student, links: Links): Student {
    s.(departmentId := Or(links.department, s.departmentId), courseId := Or(links.course, s.courseId),
       semesterId := Or(links.semester, s.semesterId), batchId := Or(links.batch, s.batchId))
  }

  function LinkErrors(row: nat, links: Links): seq<Error> {
    LinkError(row, DepartmentId, links.department) + LinkError(row, CourseId, links.course)
    + LinkError(row, SemesterId, links.semester) + LinkError(row, BatchId, links.batch)
  }

  function AllLinks(lookups: Lookups, students: seq<Student>): (r: seq<Links>)
    ensures |r| == |students|
  {
    seq(|students|, i requires 0 <= i < |students| => LinksOf(lookups, students[i]))
  }

  function AllLinkErrors(students: seq<Student>, links: seq<Links>, n: nat): seq<Error>
    requires n <= |students| == |links|
  {
    if n == 0 then [] else AllLinkErrors(students, links, n - 1) + LinkErrors(students[n - 1].row, links[n - 1])
  }

  function LinkAll(students: seq<Student>, links: seq<Links>): (r: seq<Student>)
    requires |students| == |links|
    ensures |r| == |students|
  {
    seq(|students|, i requires 0 <= i < |students| => LinkedStudent(students[i], links[i]))
  }

  // ---- the academic hierarchy ----

  predicate HasLinkError(errors: seq<Error>, row: nat) {
    exists e | e in errors :: e.row == row && e.field in LINKS
  }

  function SemesterErrors(store: Store, collegeId: string, s: Student): seq<Error> {
    if s.semesterId !in store.semesters || store.semesters[s.semesterId].collegeId != collegeId
    then [Error(s.row, SemesterId, NotFound)]
    else OneIf(store.semesters[s.semesterId].courseId != s.courseId, s.row, SemesterId, Misplaced)
  }

  function BatchErrors(store: Store, collegeId: string, s: Student): seq<Error> {
    if s.batchId !in store.batches || store.batches[s.batchId].collegeId != collegeId
    then [Error(s.row, BatchId, NotFound)]
    else
      OneIf(store.batches[s.batchId].courseId != s.courseId || store.batches[s.batchId].semesterId != s.semesterId,
            s.row, BatchId, Misplaced)
  }

  /** The errors after checking the places of the first `n` students; a row with a link error is skipped. */
  function Placed(store: Store, collegeId: string, students: seq<Student>, errors: seq<Error>, n: nat): seq<Error>
    requires n <= |students|
  {
    if n == 0 then errors
    else
      var before := Placed(store, collegeId, students, errors, n - 1);
      var s := students[n - 1];
      if HasLinkError(before, s.row) then before
      else before + SemesterErrors(store, collegeId, s) + BatchErrors(store, collegeId, s)
  }

  // ---- the whole validation ----

  function StudentsOf(inputs: seq<Input>): (r: seq<Student>)
    ensures |r| == |inputs|
  {
    seq(|inputs|, i requires 0 <= i < |inputs| => StudentOf(inputs[i], i + 1))
  }

  /** The errors of the first `n` rows, row by row. */
  function ByRow(inputs: seq<Input>, errors: (Input, nat) -> seq<Error>, n: nat): seq<Error>
    requires n <= |inputs|
  {
    if n == 0 then [] else ByRow(inputs, errors, n - 1) + errors(inputs[n - 1], n)
  }

  function AllRowErrors(inputs: seq<Input>, n: nat): seq<Error>
    requires n <= |inputs|
  {
    ByRow(inputs, RowErrors, n)
  }

  function OfCollege(collegeId: string): (Input, nat) -> seq<Error> {
    (x: Input, row: nat) => CollegeErrors(x, row, collegeId)
  }

  function AllCollegeErrors(inputs: seq<Input>, collegeId: string, n: nat): seq<Error>
    requires n <= |inputs|
  {
    ByRow(inputs, OfCollege(collegeId), n)
  }

  function PayloadDuplicates(students: seq<Student>, n: nat): seq<Error>
    requires n <= |KEYS|
  {
    if n == 0 then [] else PayloadDuplicates(students, n - 1) + DuplicateErrors(students, KEYS[n - 1], |students|)
  }

  function PayloadErrors(collegeId: string, inputs: seq<Input>): seq<Error> {
    AllRowErrors(inputs, |inputs|) + AllCollegeErrors(inputs, collegeId, |inputs|)
    + PayloadDuplicates(StudentsOf(inputs), |KEYS|)
  }

  function ErrorsIn(store: Store, collegeId: string, students: seq<Student>, links: seq<Links>): seq<Error>
    requires |students| == |links|
  {
    Placed(store, collegeId, LinkAll(students, links),
           ExistingErrors(store, collegeId, students, |students|)
             + AllLinkErrors(students, links, |students|), |students|)
  }

  function StoreErrors(store: Store, collegeId: string, students: seq<Student>): seq<Error> {
    ErrorsIn(store, collegeId, students, AllLinks(LookupsOf(store, collegeId), students))
  }

  function Validate(store: Store, collegeId: string, inputs: seq<Input>): (seq<Student>, seq<Error>) {
    if inputs == [] then ([], [Error(0, Students, Empty)])
    else
      var students, errors := StudentsOf(inputs), PayloadErrors(collegeId, inputs);
      if errors != [] then (students, errors)
      else (LinkAll(students, AllLinks(LookupsOf(store, collegeId), students)), StoreErrors(store, collegeId, students))
  }
}

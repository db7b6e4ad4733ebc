/** The academic service around the bulk import: departments, courses, semesters, batches and single
    students are created and updated while imports stand between their validation and their commit. */
module AcademicService {
  import opened Common
  import opened BulkImport
  import opened StudentImport
  import Text

  /** What the service does to the tables besides imports; a deletion is an update of the status alone, and
      identities are given by the database. */
  datatype Edit =
    | CreateDepartment(id: string, collegeId: string, name: string, code: string, active: bool)
    | UpdateDepartment(id: string, newName: Option<string>, newCode: Option<string>, status: Option<bool>)
    | CreateCourse(id: string, collegeId: string, departmentId: string, courseName: string, shortName: string,
                   durationYears: nat, semesterIds: seq<string>, active: bool)
    | UpdateCourse(id: string, newName: Option<string>, newShortName: Option<string>, status: Option<bool>)
    | UpdateSemester(id: string, newSemesterName: Option<string>, status: Option<bool>)
    | CreateBatch(id: string, collegeId: string, courseId: string, semesterId: string, academicYear: int,
                  section: string, active: bool)
    | UpdateBatch(id: string, newSection: Option<string>, status: Option<bool>)
    | CreateStudent(collegeId: string, x: Input)
    | UpdateStudent(i: nat, newStudentName: Option<string>, newSection: Option<string>)

  /** An empty text counts as absent. */
  function Given(value: Option<string>): Option<string> {
    if value == Some("") then None else value
  }

  function Trimmed(value: Option<string>, existing: string): string {
    match Given(value)
    case None => existing
    case Some(v) => Text.Trim(v)
  }

  function Code(value: Option<string>, existing: string): string {
    match Given(value)
    case None => existing
    case Some(v) => Text.Upper(Text.Trim(v))
  }

  // ---- departments, courses, semesters, batches ----

  predicate DepartmentIn(store: Store, id: string, collegeId: string) {
    id in store.departments && store.departments[id].collegeId == collegeId
  }

  predicate CourseIn(store: Store, id: string, collegeId: string) {
    id in store.courses && store.courses[id].collegeId == Some(collegeId)
  }

  predicate SemesterIn(store: Store, id: string, collegeId: string) {
    id in store.semesters && store.semesters[id].collegeId == collegeId
  }

  predicate BatchIn(store: Store, id: string, collegeId: string) {
    id in store.batches && store.batches[id].collegeId == collegeId
  }

  /** No other department of the college has the code. */
  predicate CodeFree(store: Store, id: string, collegeId: string, code: string) {
    forall d | d in store.departments && d != id ::
      store.departments[d].collegeId != collegeId || store.departments[d].code != code
  }

  /** No other batch of the college has the year, course and section. */
  predicate SectionFree(store: Store, id: string, row: Batch) {
    forall b | b in store.batches && b != id ::
      var other := store.batches[b];
      other.collegeId != row.collegeId || other.academicYear != row.academicYear || other.courseId != row.courseId
      || other.section != row.section
  }

  function PutDepartment(store: Store, id: string, row: Department): Store {
    if CodeFree(store, id, row.collegeId, row.code)
    then store.(departments := store.departments[id := row])
    else store
  }

  function PutBatch(store: Store, id: string, row: Batch): Store {
    if SectionFree(store, id, row) then store.(batches := store.batches[id := row]) else store
  }

  /** The semesters of a new course, numbered from 1. */
  function AddSemesters(semesters: map<string, Semester>, ids: seq<string>, collegeId: string, courseId: string):
      map<string, Semester>
  {
    if ids == [] then semesters
    else
      var n := |ids|;
      AddSemesters(semesters, ids[..n - 1], collegeId, courseId)
        [ids[n - 1] := Semester(collegeId, "Semester " + Text.Shown(n), n, courseId, true)]
  }

  ghost predicate NewIds(ids: seq<string>, semesters: map<string, Semester>) {
    forall i | 0 <= i < |ids| :: ids[i] !in semesters
  }

  ghost predicate CourseAllowed(store: Store, e: Edit)
    requires e.CreateCourse?
  {
    && e.id !in store.courses && DepartmentIn(store, e.departmentId, e.collegeId)
    && |e.semesterIds| == 2 * e.durationYears && NewIds(e.semesterIds, store.semesters)
    && forall c | c in store.courses ::
         store.courses[c].code != e.collegeId + "-" + Text.Upper(Text.Trim(e.shortName))
  }

  function CourseRow(e: Edit): Course
    requires e.CreateCourse?
  {
    var short := Text.Upper(Text.Trim(e.shortName));
    Course(Some(e.collegeId), Some(e.departmentId), Some(Text.Trim(e.courseName)), Some(short),
           e.collegeId + "-" + short, Text.Trim(e.courseName), e.active)
  }

  function BatchRow(store: Store, e: Edit): Batch
    requires e.CreateBatch? && e.courseId in store.courses
  {
    var course, section := store.courses[e.courseId], Text.Upper(Text.Trim(e.section));
    var name := Text.Shown(e.academicYear) + " " + course.shortName.GetOr(course.code) + " " + section;
    Batch(e.collegeId, name, e.academicYear, section, e.courseId, e.semesterId, e.active)
  }

  // ---- single students ----

  function NewStudent(x: Input): Student {
    Student(0, Text.Upper(Text.Trim(x.rollNumber)), Text.Upper(Text.Trim(x.studentId)), Text.Trim(x.name),
            Text.Lower(Text.Trim(x.email)), x.departmentId, x.courseId, x.semesterId, x.batchId,
            Text.Upper(Text.Trim(x.section)), if x.admissionYear.Year? then x.admissionYear.n else 0)
  }

  /** `createStudent` checks that each of the four records is in the college, and the unique keys. */
  predicate StudentAllowed(store: Store, collegeId: string, s: Student) {
    && DepartmentIn(store, s.departmentId, collegeId) && CourseIn(store, s.courseId, collegeId)
    && SemesterIn(store, s.semesterId, collegeId) && BatchIn(store, s.batchId, collegeId)
    && CanAdd(store, collegeId, s)
  }

  /** What it does not check: that they belong together. */
  predicate Together(store: Store, s: Student) {
    && s.semesterId in store.semesters && store.semesters[s.semesterId].courseId == s.courseId
    && s.batchId in store.batches && store.batches[s.batchId].courseId == s.courseId
    && store.batches[s.batchId].semesterId == s.semesterId
  }

  function Renamed(users: seq<User>, i: nat, name: Option<string>): seq<User> {
    if i < |users| then users[i := users[i].(name := Trimmed(name, users[i].name))] else users
  }

  ghost function Apply(store: Store, e: Edit): Store {
    match e
    case CreateDepartment(id, collegeId, name, code, active) =>
      if id in store.departments then store
      else PutDepartment(store, id, Department(collegeId, Text.Trim(name), Text.Upper(Text.Trim(code)), active))
    case UpdateDepartment(id, name, code, status) =>
      if id !in store.departments then store
      else
        var row := store.departments[id];
        PutDepartment(store, id, row.(name := Trimmed(name, row.name), code := Code(code, row.code),
                                      active := status.GetOr(row.active)))
    case CreateCourse(id, collegeId, _, _, _, _, semesterIds, _) =>
      if !CourseAllowed(store, e) then store
      else store.(courses := store.courses[id := CourseRow(e)],
                  semesters := AddSemesters(store.semesters, semesterIds, collegeId, id))
    case UpdateCourse(id, name, shortName, status) =>
      if id !in store.courses then store
      else
        var row := store.courses[id];
        var named := if Given(name).None? then row
          else row.(courseName := Some(Text.Trim(name.value)), title := Text.Trim(name.value));
        store.(courses := store.courses[id := named.(
          shortName := if Given(shortName).None? then row.shortName else Some(Text.Upper(Text.Trim(shortName.value))),
          active := status.GetOr(row.active))])
    case UpdateSemester(id, name, status) =>
      if id !in store.semesters then store
      else
        var row := store.semesters[id];
        store.(semesters := store.semesters[id :=
          row.(name := name.GetOr(row.name), active := status.GetOr(row.active))])
    case CreateBatch(id, collegeId, courseId, semesterId, _, _, _) =>
      if id in store.batches || !CourseIn(store, courseId, collegeId) || !SemesterIn(store, semesterId, collegeId)
      then store
      else PutBatch(store, id, BatchRow(store, e))
    case UpdateBatch(id, section, status) =>
      if id !in store.batches then store
      else
        var row := store.batches[id];
        PutBatch(store, id, row.(section := Code(section, row.section), active := status.GetOr(row.active)))
    case CreateStudent(collegeId, x) =>
      if StudentAllowed(store, collegeId, NewStudent(x)) then AddStudent(store, collegeId, NewStudent(x)) else store
    case UpdateStudent(i, name, section) =>
      if i >= |store.profiles| then store
      else
        var p := store.profiles[i];
        store.(users := Renamed(store.users, p.userId, name),
               profiles := store.profiles[i := p.(section := Code(section, p.section))])
  }

  // ---- what each edit writes ----

  /** A text as it is stored in capitals, without the white space around it. */
  ghost predicate Capitals(text: string, stored: string) {
    exists t :: Text.Trimmed(text, t) && Text.SameLetters(t, stored)
      && forall i | 0 <= i < |stored| :: !('a' <= stored[i] <= 'z')
  }

  lemma CapitalsMeaning(text: string, stored: string)
    ensures stored == Text.Upper(Text.Trim(text)) <==> Capitals(text, stored)
  {
    Text.TrimMeaning(text, Text.Trim(text));
    Text.UpperMeaning(Text.Trim(text), stored);
    forall t ensures Text.Trimmed(text, t) <==> t == Text.Trim(text) {
      Text.TrimMeaning(text, t);
    }
  }

  /** An update of a code or a name: nothing or an empty text keeps it. */
  ghost predicate CodeStored(value: Option<string>, before: string, after: string) {
    if value in {None, Some("")} then after == before else Capitals(value.value, after)
  }

  ghost predicate NameStored(value: Option<string>, before: string, after: string) {
    if value in {None, Some("")} then after == before else Text.Trimmed(value.value, after)
  }

  ghost predicate StatusStored(value: Option<bool>, before: bool, after: bool) {
    after == if value == Some(true) then true else if value == Some(false) then false else before
  }

  lemma GivenMeaning(value: Option<string>, before: string)
    ensures CodeStored(value, before, Code(value, before))
    ensures NameStored(value, before, Trimmed(value, before))
  {
    if value.Some? && value.value != "" {
      CapitalsMeaning(value.value, Code(value, before));
      Text.TrimMeaning(value.value, Trimmed(value, before));
    }
  }

  /** Another department of the college has the code. */
  ghost predicate CodeTaken(store: Store, id: string, row: Department) {
    exists d | d in store.departments && d != id ::
      store.departments[d].collegeId == row.collegeId && store.departments[d].code == row.code
  }

  /** A new department is stored with its name trimmed and its code in capitals, unless the college has the code. */
  lemma DepartmentCreated(store: Store, id: string, collegeId: string, name: string, code: string, active: bool,
      row: Department)
    requires id !in store.departments
    requires row.collegeId == collegeId && Text.Trimmed(name, row.name) && Capitals(code, row.code)
      && row.active == active
    ensures Apply(store, CreateDepartment(id, collegeId, name, code, active))
      == if CodeTaken(store, id, row) then store else store.(departments := store.departments[id := row])
  {
    Text.TrimMeaning(name, row.name);
    CapitalsMeaning(code, row.code);
    assert row == Department(collegeId, Text.Trim(name), Text.Upper(Text.Trim(code)), active);
    PutIs(store, id, row);
  }

  lemma PutIs(store: Store, id: string, row: Department)
    ensures PutDepartment(store, id, row)
      == if CodeTaken(store, id, row) then store else store.(departments := store.departments[id := row])
  {
  }

  /** An update stores what it names, under the same condition; the college stays. */
  lemma DepartmentUpdated(store: Store, id: string, newName: Option<string>, newCode: Option<string>,
      status: Option<bool>) returns (row: Department)
    requires id in store.departments
    ensures var before := store.departments[id];
      && row.collegeId == before.collegeId && NameStored(newName, before.name, row.name)
      && CodeStored(newCode, before.code, row.code) && StatusStored(status, before.active, row.active)
    ensures Apply(store, UpdateDepartment(id, newName, newCode, status))
      == if CodeTaken(store, id, row) then store else store.(departments := store.departments[id := row])
  {
    var before := store.departments[id];
    GivenMeaning(newName, before.name);
    GivenMeaning(newCode, before.code);
    row := before.(name := Trimmed(newName, before.name), code := Code(newCode, before.code),
                   active := status.GetOr(before.active));
    PutIs(store, id, row);
  }

  /** A new course has its names trimmed, its short name in capitals and in its code after the college, and two
      active semesters a year, numbered from 1 and named after their numbers. */
  lemma CourseCreated(store: Store, e: Edit, short: string)
    requires e.CreateCourse? && CourseAllowed(store, e) && Capitals(e.shortName, short)
    ensures var n := Apply(store, e);
      && n == store.(courses := store.courses[e.id := n.courses[e.id]], semesters := n.semesters)
      && var row := n.courses[e.id];
         && row.collegeId == Some(e.collegeId) && row.departmentId == Some(e.departmentId)
         && row.courseName == Some(row.title) && Text.Trimmed(e.courseName, row.title)
         && row.shortName == Some(short) && row.code == e.collegeId + "-" + short && row.active == e.active
    ensures Apply(store, e).semesters == AddSemesters(store.semesters, e.semesterIds, e.collegeId, e.id)
  {
    CapitalsMeaning(e.shortName, short);
    Text.TrimMeaning(e.courseName, Text.Trim(e.courseName));
    assert CourseRow(e).shortName == Some(short);
  }

  ghost predicate DistinctIds(ids: seq<string>) {
    forall i, j | 0 <= i < j < |ids| :: ids[i] != ids[j]
  }

  lemma {:induction false} SemestersNumbered(semesters: map<string, Semester>, ids: seq<string>, collegeId: string,
      courseId: string)
    requires DistinctIds(ids)
    ensures var more := AddSemesters(semesters, ids, collegeId, courseId);
      && (forall i | 0 <= i < |ids| ::
          && ids[i] in more
          && more[ids[i]] == Semester(collegeId, "Semester " + Text.Shown(i + 1), i + 1, courseId, true))
      && (forall id | id in semesters && id !in ids :: id in more && more[id] == semesters[id])
      && more.Keys == semesters.Keys + set id | id in ids
  {
    if ids != [] {
      var init := ids[..|ids| - 1];
      assert ids == init + [ids[|ids| - 1]];
      assert forall i | 0 <= i < |init| :: init[i] == ids[i];
      SemestersNumbered(semesters, init, collegeId, courseId);
    }
  }

  /** It is refused when the department is not in the college or a course has the code already. */
  lemma CourseRefused(store: Store, e: Edit, short: string)
    requires e.CreateCourse? && Capitals(e.shortName, short)
    requires e.id !in store.courses && |e.semesterIds| == 2 * e.durationYears && NewIds(e.semesterIds, store.semesters)
    ensures Apply(store, e) == store <==>
      || e.departmentId !in store.departments || store.departments[e.departmentId].collegeId != e.collegeId
      || exists c | c in store.courses :: store.courses[c].code == e.collegeId + "-" + short
  {
    CapitalsMeaning(e.shortName, short);
    if CourseAllowed(store, e) { assert e.id in Apply(store, e).courses; }
  }

  /** An update of a course changes its name and title, its short name and its status, and not its code. */
  lemma CourseUpdated(store: Store, id: string, newName: Option<string>, newShortName: Option<string>,
      status: Option<bool>)
    requires id in store.courses
    ensures var n, before := Apply(store, UpdateCourse(id, newName, newShortName, status)), store.courses[id];
      && n == store.(courses := store.courses[id := n.courses[id]])
      && var row := n.courses[id];
         && row == before.(courseName := row.courseName, shortName := row.shortName, title := row.title,
                           active := row.active)
         && NameStored(newName, before.title, row.title)
         && row.courseName == (if newName in {None, Some("")} then before.courseName else Some(row.title))
         && (newShortName in {None, Some("")} ==> row.shortName == before.shortName)
         && (newShortName !in {None, Some("")} ==>
             row.shortName.Some? && Capitals(newShortName.value, row.shortName.value))
         && StatusStored(status, before.active, row.active)
  {
    GivenMeaning(newName, store.courses[id].title);
    if newShortName.Some? { CapitalsMeaning(newShortName.value, Text.Upper(Text.Trim(newShortName.value))); }
  }

  lemma SemesterUpdated(store: Store, id: string, newName: Option<string>, status: Option<bool>)
    requires id in store.semesters
    ensures var n, before := Apply(store, UpdateSemester(id, newName, status)), store.semesters[id];
      && n == store.(semesters := store.semesters[id := n.semesters[id]])
      && var row := n.semesters[id];
         && row == before.(name := row.name, active := row.active)
         && row.name == (if newName == None then before.name else newName.value)
         && StatusStored(status, before.active, row.active)
  {
  }

  /** Another batch of the college has the year, course and section. */
  ghost predicate SectionTaken(store: Store, id: string, row: Batch) {
    exists b | b in store.batches && b != id :: var other := store.batches[b];
      && other.collegeId == row.collegeId && other.academicYear == row.academicYear
      && other.courseId == row.courseId && other.section == row.section
  }

  lemma PutBatchIs(store: Store, id: string, row: Batch)
    ensures PutBatch(store, id, row)
      == if SectionTaken(store, id, row) then store else store.(batches := store.batches[id := row])
  {
  }

  /** A new batch of a course and a semester of the college, whether or not they belong together, is named after
      the year, the course's short name, or code if there is none, and the section in capitals. */
  lemma BatchCreated(store: Store, e: Edit, row: Batch)
    requires e.CreateBatch? && e.id !in store.batches
    requires CourseIn(store, e.courseId, e.collegeId) && SemesterIn(store, e.semesterId, e.collegeId)
    requires Capitals(e.section, row.section) && row.active == e.active && row.academicYear == e.academicYear
    requires row.collegeId == e.collegeId && row.courseId == e.courseId && row.semesterId == e.semesterId
    requires var c := store.courses[e.courseId];
      row.name == Text.Shown(e.academicYear) + " "
                  + (if c.shortName.Some? then c.shortName.value else c.code) + " " + row.section
    ensures Apply(store, e)
      == if SectionTaken(store, e.id, row) then store else store.(batches := store.batches[e.id := row])
  {
    CapitalsMeaning(e.section, row.section);
    assert row == BatchRow(store, e);
    PutBatchIs(store, e.id, row);
  }

  lemma BatchUpdated(store: Store, id: string, newSection: Option<string>, status: Option<bool>) returns (row: Batch)
    requires id in store.batches
    ensures var before := store.batches[id];
      && row == before.(section := row.section, active := row.active)
      && CodeStored(newSection, before.section, row.section) && StatusStored(status, before.active, row.active)
    ensures Apply(store, UpdateBatch(id, newSection, status))
      == if SectionTaken(store, id, row) then store else store.(batches := store.batches[id := row])
  {
    var before := store.batches[id];
    GivenMeaning(newSection, before.section);
    row := before.(section := Code(newSection, before.section), active := status.GetOr(before.active));
    PutBatchIs(store, id, row);
  }

  /** An update of a student changes the name of its user and the section of its profile. */
  lemma StudentUpdated(store: Store, i: nat, newName: Option<string>, newSection: Option<string>)
    requires i < |store.profiles| && store.profiles[i].userId < |store.users|
    ensures var n, p := Apply(store, UpdateStudent(i, newName, newSection)), store.profiles[i];
      && n == store.(users := store.users[p.userId := n.users[p.userId]],
                     profiles := store.profiles[i := n.profiles[i]])
      && n.users[p.userId] == store.users[p.userId].(name := n.users[p.userId].name)
      && NameStored(newName, store.users[p.userId].name, n.users[p.userId].name)
      && n.profiles[i] == p.(section := n.profiles[i].section)
      && CodeStored(newSection, p.section, n.profiles[i].section)
  {
    GivenMeaning(newName, store.users[store.profiles[i].userId].name);
    GivenMeaning(newSection, store.profiles[i].section);
  }

  /** A single student is enrolled when the four records are the college's and no stored student has the email, the
      student ID or, in the college, the roll number. */
  lemma StudentCreated(store: Store, collegeId: string, x: Input, s: Student)
    requires Capitals(x.rollNumber, s.rollNumber) && Capitals(x.studentId, s.studentId)
    requires Text.Trimmed(x.name, s.name) && s.row == 0
    requires s.email == Text.Lower(Text.Trim(x.email)) && Capitals(x.section, s.section)
    requires s.departmentId == x.departmentId && s.courseId == x.courseId && s.semesterId == x.semesterId
      && s.batchId == x.batchId && s.admissionYear == if x.admissionYear.Year? then x.admissionYear.n else 0
    ensures Apply(store, CreateStudent(collegeId, x)) != store <==>
      && DepartmentIn(store, s.departmentId, collegeId) && CourseIn(store, s.courseId, collegeId)
      && SemesterIn(store, s.semesterId, collegeId) && BatchIn(store, s.batchId, collegeId)
      && ImportRules.Unused(store, collegeId, s)
    ensures Apply(store, CreateStudent(collegeId, x)) != store ==>
      Apply(store, CreateStudent(collegeId, x)) == AddStudent(store, collegeId, s)
  {
    CapitalsMeaning(x.rollNumber, s.rollNumber);
    CapitalsMeaning(x.studentId, s.studentId);
    CapitalsMeaning(x.section, s.section);
    Text.TrimMeaning(x.name, s.name);
    assert s == NewStudent(x);
    Enrolled(store, collegeId, x, s);
  }

  lemma Enrolled(store: Store, collegeId: string, x: Input, s: Student)
    requires s == NewStudent(x)
    ensures Apply(store, CreateStudent(collegeId, x))
      == if StudentAllowed(store, collegeId, s) then AddStudent(store, collegeId, s) else store
    ensures AddStudent(store, collegeId, s) != store
    ensures CanAdd(store, collegeId, s) <==> ImportRules.Unused(store, collegeId, s) && RefersToRows(store, s)
  {
    assert |AddStudent(store, collegeId, s).users| == |store.users| + 1;
  }

  // ---- nothing moves an academic record or a student ----

  lemma {:induction false} SemestersAdded(semesters: map<string, Semester>, ids: seq<string>, collegeId: string,
      courseId: string)
    requires NewIds(ids, semesters)
    ensures var more := AddSemesters(semesters, ids, collegeId, courseId);
      forall id | id in semesters :: id in more && more[id] == semesters[id]
  {
    if ids != [] {
      var init := ids[..|ids| - 1];
      assert NewIds(init, semesters) by {
        assert forall i | 0 <= i < |init| :: init[i] == ids[i];
      }
      SemestersAdded(semesters, init, collegeId, courseId);
    }
  }

  predicate OfCourse(e: Edit) {
    e.CreateCourse? || e.UpdateCourse?
  }

  lemma CourseKeepsLinks(store: Store, e: Edit)
    requires OfCourse(e)
    ensures KeepsLinks(store, Apply(store, e))
  {
    if e.CreateCourse? && CourseAllowed(store, e) {
      SemestersAdded(store.semesters, e.semesterIds, e.collegeId, e.id);
    }
  }

  lemma BatchKeepsLinks(store: Store, e: Edit)
    requires e.CreateBatch? || e.UpdateBatch?
    ensures KeepsLinks(store, Apply(store, e))
  {
  }

  lemma DepartmentKeepsLinks(store: Store, e: Edit)
    requires e.CreateDepartment? || e.UpdateDepartment?
    ensures KeepsLinks(store, Apply(store, e))
  {
  }

  /** No edit moves a department, a course, a semester or a batch, or loses one. */
  lemma EditKeepsLinks(store: Store, e: Edit)
    ensures KeepsLinks(store, Apply(store, e))
  {
    if OfCourse(e) {
      CourseKeepsLinks(store, e);
    } else if e.CreateBatch? || e.UpdateBatch? {
      BatchKeepsLinks(store, e);
    } else if e.CreateDepartment? || e.UpdateDepartment? {
      DepartmentKeepsLinks(store, e);
    }
  }

  predicate SamePlace(p: Profile, q: Profile) {
    && p.collegeId == q.collegeId && p.departmentId == q.departmentId && p.courseId == q.courseId
    && p.semesterId == q.semesterId && p.batchId == q.batchId
  }

  /** The stored students stay where they are. */
  ghost predicate SamePlaces(a: Store, b: Store) {
    |a.profiles| <= |b.profiles| && forall i | 0 <= i < |a.profiles| :: SamePlace(a.profiles[i], b.profiles[i])
  }

  ghost predicate Enrols(store: Store, e: Edit) {
    e.CreateStudent? && StudentAllowed(store, e.collegeId, NewStudent(e.x))
  }

  lemma EditKeepsPlaces(store: Store, e: Edit)
    ensures SamePlaces(store, Apply(store, e))
    ensures !Enrols(store, e) ==> |Apply(store, e).profiles| == |store.profiles|
    ensures Enrols(store, e) ==> Apply(store, e) == AddStudent(store, e.collegeId, NewStudent(e.x))
  {
  }

  /** The foreign keys of a profile. */
  predicate Refers(store: Store, p: Profile) {
    && p.departmentId in store.departments && p.courseId in store.courses
    && p.semesterId in store.semesters && p.batchId in store.batches
  }

  ghost predicate Referenced(store: Store) {
    forall i | 0 <= i < |store.profiles| :: Refers(store, store.profiles[i])
  }

  lemma PlacedAlike(a: Store, b: Store, p: Profile, q: Profile)
    requires KeepsLinks(a, b) && SamePlace(p, q) && Refers(a, p)
    ensures Refers(b, q) && (WellPlaced(a, p) <==> WellPlaced(b, q))
  {
  }

  ghost predicate AllPlaced(store: Store, n: nat)
    requires n <= |store.profiles|
  {
    forall i | 0 <= i < n :: WellPlaced(store, store.profiles[i])
  }

  lemma WholeIsAll(store: Store)
    ensures WholeHierarchy(store) <==> AllPlaced(store, |store.profiles|)
  {
    assert forall i | 0 <= i < |store.profiles| :: store.profiles[i] in store.profiles;
  }

  lemma PlacesKept(a: Store, b: Store)
    requires KeepsLinks(a, b) && SamePlaces(a, b) && Referenced(a)
    ensures forall i | 0 <= i < |a.profiles| :: Refers(b, b.profiles[i])
    ensures AllPlaced(b, |a.profiles|) <==> WholeHierarchy(a)
  {
    WholeIsAll(a);
    forall i | 0 <= i < |a.profiles|
      ensures Refers(b, b.profiles[i]) && (WellPlaced(a, a.profiles[i]) <==> WellPlaced(b, b.profiles[i]))
    {
      PlacedAlike(a, b, a.profiles[i], b.profiles[i]);
    }
  }

  lemma StudentPlaced(store: Store, collegeId: string, s: Student)
    requires StudentAllowed(store, collegeId, s)
    ensures var after := AddStudent(store, collegeId, s);
      var p := after.profiles[|store.profiles|];
      Refers(after, p) && (WellPlaced(after, p) <==> Together(store, s))
  {
  }

  /** The one thing that can break the hierarchy: a single student enrolled in records that do not belong
      together. */
  predicate Misplaces(store: Store, e: Edit) {
    e.CreateStudent? && StudentAllowed(store, e.collegeId, NewStudent(e.x)) && !Together(store, NewStudent(e.x))
  }

  lemma EditStep(store: Store, e: Edit)
    requires Referenced(store)
    ensures Referenced(Apply(store, e))
    ensures WholeHierarchy(Apply(store, e)) <==> WholeHierarchy(store) && !Misplaces(store, e)
  {
    var after := Apply(store, e);
    EditKeepsLinks(store, e);
    EditKeepsPlaces(store, e);
    PlacesKept(store, after);
    WholeIsAll(after);
    if Enrols(store, e) {
      StudentPlaced(store, e.collegeId, NewStudent(e.x));
    }
  }

  // ---- imports among edits ----

  /** An import that has been validated. */
  datatype Import = Import(collegeId: string, wanted: seq<Student>)

  datatype System = System(store: Store, imports: map<string, Import>)

  datatype Action =
    | Do(e: Edit)
    | ValidateImport(c: string, collegeId: string, inputs: seq<Input>)
    | CommitImport(c: string)

  ghost function Next(s: System, a: Action): System {
    match a
    case Do(e) => s.(store := Apply(s.store, e))
    case ValidateImport(c, collegeId, inputs) =>
      var (students, errors) := Validate(s.store, collegeId, inputs);
      if c in s.imports || errors != [] then s else s.(imports := s.imports[c := Import(collegeId, students)])
    case CommitImport(c) =>
      if c !in s.imports then s
      else
        match Insert(s.store, s.imports[c].collegeId, s.imports[c].wanted)
        case None => s.(imports := s.imports - {c})
        case Some(store) => System(store, s.imports - {c})
  }

  /** An import that nothing interrupts is the one of the service. */
  lemma UninterruptedImport(s: System, c: string, collegeId: string, inputs: seq<Input>)
    requires c !in s.imports
    ensures Next(Next(s, ValidateImport(c, collegeId, inputs)), CommitImport(c))
      == System(BulkCreate(s.store, collegeId, inputs, x => x).0, s.imports)
  {
    var (students, errors) := Validate(s.store, collegeId, inputs);
    ValidateIs(s, c, collegeId, inputs, students, errors);
    AloneIs(s.store, collegeId, inputs, students, errors);
    ValidatedCommit(s, c, Import(collegeId, students));
    if errors != [] { NothingToCommit(s, c); }
  }

  lemma NothingToCommit(s: System, c: string)
    requires c !in s.imports
    ensures Next(s, CommitImport(c)) == s
  {
  }

  lemma ValidatedCommit(s: System, c: string, m: Import)
    requires c !in s.imports
    ensures Next(s.(imports := s.imports[c := m]), CommitImport(c))
      == System(Insert(s.store, m.collegeId, m.wanted).GetOr(s.store), s.imports)
  {
    LateCommit(s.(imports := s.imports[c := m]), c, m);
    assert s.imports[c := m] - {c} == s.imports;
  }

  lemma AloneIs(store: Store, collegeId: string, inputs: seq<Input>, students: seq<Student>, errors: seq<Error>)
    requires Validate(store, collegeId, inputs) == (students, errors)
    ensures BulkCreate(store, collegeId, inputs, x => x).0
      == if errors != [] then store else Insert(store, collegeId, students).GetOr(store)
  {
  }

  /** A commit meets the tables as they are by then. */
  lemma LateCommit(s: System, c: string, m: Import)
    requires c in s.imports && s.imports[c] == m
    ensures Next(s, CommitImport(c)) == System(Insert(s.store, m.collegeId, m.wanted).GetOr(s.store), s.imports - {c})
  {
  }

  ghost function Run(s: System, actions: seq<Action>): System {
    if actions == [] then s else Next(Run(s, actions[..|actions| - 1]), actions[|actions| - 1])
  }

  ghost predicate AllFitting(store: Store, m: Import) {
    forall i | 0 <= i < |m.wanted| :: Fitting(store, m.collegeId, m.wanted[i])
  }

  ghost predicate Inv(s: System) {
    Referenced(s.store) && forall c | c in s.imports :: AllFitting(s.store, s.imports[c])
  }

  lemma StillFitting(a: Store, b: Store, m: Import)
    requires KeepsLinks(a, b) && AllFitting(a, m)
    ensures AllFitting(b, m)
  {
    forall i | 0 <= i < |m.wanted| ensures Fitting(b, m.collegeId, m.wanted[i]) {
      StaysPlaced(a, b, ProfileOf(m.collegeId, m.wanted[i], 0));
    }
  }

  lemma ValidatedFits(store: Store, collegeId: string, inputs: seq<Input>)
    requires Validate(store, collegeId, inputs).1 == []
    ensures AllFitting(store, Import(collegeId, Validate(store, collegeId, inputs).0))
  {
    ImportRules.AcceptedExactly(store, collegeId, inputs);
    AcceptedStudents(store, collegeId, inputs);
    WantedFits(store, collegeId, inputs);
    var wanted := Wanted(store, collegeId, inputs);
    forall i | 0 <= i < |wanted| ensures Fitting(store, collegeId, wanted[i]) {
      assert Fits(store, collegeId, wanted[i]);
    }
  }

  lemma CommittedFits(store: Store, m: Import)
    requires Referenced(store) && AllFitting(store, m) && Insert(store, m.collegeId, m.wanted).Some?
    ensures var after := Insert(store, m.collegeId, m.wanted).value;
      KeepsLinks(store, after) && Referenced(after) && (WholeHierarchy(after) <==> WholeHierarchy(store))
  {
    InsertMeaning(store, m.collegeId, m.wanted);
    InsertedHierarchy(store, m.collegeId, m.wanted);
    InsertedRefers(store, m);
  }

  lemma InsertedRefers(store: Store, m: Import)
    requires Referenced(store) && AllFitting(store, m)
    ensures Referenced(Inserted(store, m.collegeId, m.wanted))
  {
    var after := Inserted(store, m.collegeId, m.wanted);
    forall i | 0 <= i < |after.profiles| ensures Refers(after, after.profiles[i]) {
      if i < |store.profiles| {
        assert after.profiles[i] == store.profiles[i];
      } else {
        assert Fitting(store, m.collegeId, m.wanted[i - |store.profiles|]);
      }
    }
  }

  ghost predicate Sound(s: System, a: Action) {
    a.Do? ==> !Misplaces(s.store, a.e)
  }

  lemma StaysInv(s: System, store: Store)
    requires Inv(s) && KeepsLinks(s.store, store) && Referenced(store)
    ensures Inv(System(store, s.imports))
  {
    forall c | c in s.imports ensures AllFitting(store, s.imports[c]) {
      StillFitting(s.store, store, s.imports[c]);
    }
  }

  lemma CommitStep(s: System, c: string)
    requires Inv(s) && c in s.imports
    ensures Inv(Next(s, CommitImport(c)))
    ensures WholeHierarchy(Next(s, CommitImport(c)).store) <==> WholeHierarchy(s.store)
  {
    var m := s.imports[c];
    if Insert(s.store, m.collegeId, m.wanted).Some? {
      CommittedFits(s.store, m);
      StaysInv(s, Insert(s.store, m.collegeId, m.wanted).value);
    }
  }

  lemma DoStep(s: System, e: Edit)
    requires Inv(s)
    ensures Inv(Next(s, Do(e)))
    ensures WholeHierarchy(Next(s, Do(e)).store) <==> WholeHierarchy(s.store) && !Misplaces(s.store, e)
  {
    EditStep(s.store, e);
    EditKeepsLinks(s.store, e);
    StaysInv(s, Apply(s.store, e));
  }

  lemma ValidateStep(s: System, c: string, collegeId: string, inputs: seq<Input>)
    requires Inv(s)
    ensures var n := Next(s, ValidateImport(c, collegeId, inputs)); Inv(n) && n.store == s.store
  {
    var (students, errors) := Validate(s.store, collegeId, inputs);
    ValidateIs(s, c, collegeId, inputs, students, errors);
    if c !in s.imports && errors == [] {
      ValidatedFits(s.store, collegeId, inputs);
      AddImport(s, c, Import(collegeId, students));
    }
  }

  lemma ValidateIs(s: System, c: string, collegeId: string, inputs: seq<Input>, students: seq<Student>,
      errors: seq<Error>)
    requires Validate(s.store, collegeId, inputs) == (students, errors)
    ensures Next(s, ValidateImport(c, collegeId, inputs))
      == if c in s.imports || errors != [] then s else s.(imports := s.imports[c := Import(collegeId, students)])
  {
  }

  lemma AddImport(s: System, c: string, m: Import)
    requires Inv(s) && AllFitting(s.store, m)
    ensures Inv(s.(imports := s.imports[c := m]))
  {
  }

  lemma NextStep(s: System, a: Action)
    requires Inv(s)
    ensures Inv(Next(s, a))
    ensures WholeHierarchy(Next(s, a).store) <==> WholeHierarchy(s.store) && Sound(s, a)
  {
    match a
    case Do(e) => DoStep(s, e);
    case ValidateImport(c, collegeId, inputs) => ValidateStep(s, c, collegeId, inputs);
    case CommitImport(c) =>
      if c in s.imports { CommitStep(s, c); }
  }

  ghost predicate SoundRun(s: System, actions: seq<Action>) {
    actions == [] || (SoundRun(s, actions[..|actions| - 1])
      && Sound(Run(s, actions[..|actions| - 1]), actions[|actions| - 1]))
  }

  /** Over every run of the service, with any number of imports between validation and commit, the stored
      students stay within the academic hierarchy if and only if no single student is enrolled in a
      semester and a batch that do not belong to its course and to each other. Imports never break it. */
  lemma {:induction false} HierarchyOverRuns(s: System, actions: seq<Action>)
    requires s.imports == map[] && Referenced(s.store) && WholeHierarchy(s.store)
    ensures Inv(Run(s, actions))
    ensures WholeHierarchy(Run(s, actions).store) <==> SoundRun(s, actions)
  {
    if actions != [] {
      var n := |actions| - 1;
      HierarchyOverRuns(s, actions[..n]);
      NextStep(Run(s, actions[..n]), actions[n]);
    }
  }

  /** Two courses of a college, each with a semester, and a batch of the first. */
  function TwoCourses(): Store {
    Store([], [], map["d" := Department("c", "Science", "SC", true)],
          map["a" := Course(Some("c"), Some("d"), Some("A"), Some("A"), "c-A", "A", true),
              "b" := Course(Some("c"), Some("d"), Some("B"), Some("B"), "c-B", "B", true)],
          map["a1" := Semester("c", "Semester 1", 1, "a", true), "b1" := Semester("c", "Semester 1", 1, "b", true)],
          map["x" := Batch("c", "2024 A X", 2024, "X", "a", "a1", true)])
  }

  /** A student of one course is enrolled in the semester of the other. */
  lemma MisplacedStudent(x: Input)
    requires x.departmentId == "d" && x.courseId == "a" && x.semesterId == "b1" && x.batchId == "x"
    ensures Referenced(TwoCourses()) && WholeHierarchy(TwoCourses())
    ensures !WholeHierarchy(Apply(TwoCourses(), CreateStudent("c", x)))
  {
    var store := TwoCourses();
    assert Misplaces(store, CreateStudent("c", x));
    EditStep(store, CreateStudent("c", x));
  }
}

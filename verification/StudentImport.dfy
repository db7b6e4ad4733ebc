/** The import as the service runs it: validation, then one transaction that inserts every student. */
module StudentImport {
  import opened Common
  import opened BulkImport
  import opened ImportRules
  import Text

  // ---- the transaction on values ----

  function UserOf(collegeId: string, s: Student): User {
    User(s.email, Some(s.studentId), s.name, Some(collegeId))
  }

  function ProfileOf(collegeId: string, s: Student, userId: nat): Profile {
    Profile(collegeId, s.rollNumber, s.departmentId, s.courseId, s.semesterId, s.batchId, s.section, s.admissionYear,
      userId)
  }

  /** The foreign keys of a profile. */
  predicate RefersToRows(store: Store, s: Student) {
    s.departmentId in store.departments && s.courseId in store.courses
    && s.semesterId in store.semesters && s.batchId in store.batches
  }

  /** Inserting a student meets no unique key and no missing foreign key. */
  predicate CanAdd(store: Store, collegeId: string, s: Student) {
    && (forall u | u in store.users :: u.email != s.email && u.studentId != Some(s.studentId))
    && (forall p | p in store.profiles && p.collegeId == collegeId :: p.rollNumber != s.rollNumber)
    && RefersToRows(store, s)
  }

  function AddStudent(store: Store, collegeId: string, s: Student): Store {
    store.(users := store.users + [UserOf(collegeId, s)],
           profiles := store.profiles + [ProfileOf(collegeId, s, |store.users|)])
  }

  function Insert(store: Store, collegeId: string, students: seq<Student>): Option<Store> {
    if students == [] then Some(store)
    else
      var n := |students| - 1;
      match Insert(store, collegeId, students[..n])
      case None => None
      case Some(now) => if CanAdd(now, collegeId, students[n]) then Some(AddStudent(now, collegeId,
        students[n])) else None
  }

  datatype Outcome = Refused(errors: seq<Error>) | Conflict | Imported(count: nat)

  /** Validation against one state of the tables, insertion into what other requests have made of it. */
  function BulkCreate(store: Store, collegeId: string, inputs: seq<Input>, others: Store -> Store): (Store, Outcome) {
    var (students, errors) := Validate(store, collegeId, inputs);
    if errors != [] then (store, Refused(errors))
    else
      match Insert(others(store), collegeId, students)
      case None => (others(store), Conflict)
      case Some(now) => (now, Imported(|students|))
  }

  /** The map from the non-empty values of the first `n` rows to the rows they are first seen on. */
  ghost predicate Remembers(seen: map<string, nat>, students: seq<Student>, f: Field, n: nat)
    requires n <= |students|
  {
    forall v :: FirstRow(seen, v)
      == (if v != "" && First(students, f, v, n) < n then Some(students[First(students, f, v, n)].row) else None)
  }

  function FirstRow(seen: map<string, nat>, v: string): Option<nat> {
    if v in seen then Some(seen[v]) else None
  }

  lemma RemembersStep(seen: map<string, nat>, students: seq<Student>, f: Field, i: nat)
    requires i < |students| && Remembers(seen, students, f, i)
    ensures var value := KeyOf(students[i], f);
      && DuplicateError(students, f, i) ==
         (if value != "" && value in seen then [Error(students[i].row, f, Duplicate(seen[value]))] else [])
      && Remembers(if value != "" && value !in seen then seen[value := students[i].row] else seen, students, f, i + 1)
  {
    var value := KeyOf(students[i], f);
    assert FirstRow(seen, value) == if value in seen then Some(seen[value]) else None;
    var next := if value != "" && value !in seen then seen[value := students[i].row] else seen;
    forall v ensures FirstRow(next, v) ==
      (if v != "" && First(students, f, v, i + 1) < i + 1 then Some(students[First(students, f, v, i + 1)].row)
       else None)
    {
      assert FirstRow(seen, v)
        == if v != "" && First(students, f, v, i) < i then Some(students[First(students, f, v, i)].row) else None;
    }
  }

  lemma DuplicatesStep(earlier: seq<Error>, students: seq<Student>, f: Field, i: nat)
    requires i < |students|
    ensures earlier + DuplicateErrors(students, f, i) + DuplicateError(students, f, i)
      == earlier + DuplicateErrors(students, f, i + 1)
  {
  }

  lemma LinksAt(lookups: Lookups, students: seq<Student>, i: nat)
    requires i < |students|
    ensures AllLinks(lookups, students)[i] == LinksOf(lookups, students[i])
  {
  }

  lemma LinkStep(before: seq<Student>, links: seq<Links>, i: nat)
    requires i < |before| == |links|
    ensures var now := LinkAll(before, links)[..i] + before[i..];
      && now[i] == before[i]
      && now[i := LinkedStudent(before[i], links[i])] == LinkAll(before, links)[..i + 1] + before[i + 1..]
  {
  }

  lemma StudentsStep(inputs: seq<Input>, i: nat)
    requires i < |inputs|
    ensures StudentsOf(inputs)[..i] + [StudentOf(inputs[i], i + 1)] == StudentsOf(inputs)[..i + 1]
  {
  }

  lemma Halves(a: seq<Student>, b: seq<Student>)
    requires |a| == |b|
    ensures a[..0] + b[0..] == b && a[..|b|] + b[|b|..] == a
  {
  }

  lemma LinkErrorsStep(earlier: seq<Error>, before: seq<Student>, links: seq<Links>, i: nat)
    requires i < |before| == |links|
    ensures earlier + AllLinkErrors(before, links, i) + LinkErrors(before[i].row, links[i])
      == earlier + AllLinkErrors(before, links, i + 1)
  {
  }

  class StudentImport {
    var store: Store
    var errors: seq<Error>
    var students: seq<Student>

    constructor (tables: Store)
      ensures store == tables && errors == [] && students == []
    {
      store, errors, students := tables, [], [];
    }

    method Report(wrong: bool, row: nat, field: Field, kind: Kind)
      modifies `errors
      ensures errors == old(errors) + OneIf(wrong, row, field, kind)
    {
      if wrong { errors := errors + [Error(row, field, kind)]; }
    }

    method CheckRequired(x: Input, row: nat)
      modifies `errors
      ensures errors == old(errors) + RequiredErrors(x, row, REQUIRED, |REQUIRED|)
    {
      for k := 0 to |REQUIRED|
        invariant errors == old(errors) + RequiredErrors(x, row, REQUIRED, k)
      {
        Report(IsMissing(x, REQUIRED[k]), row, REQUIRED[k], Required);
      }
    }

    method CheckFormats(x: Input, email: string, row: nat)
      requires email == Text.Lower(Text.Trim(x.email))
      modifies `errors
      ensures errors == old(errors) + FormatErrors(x, row)
    {
      Report(email != "" && !IsEmail(email), row, Email, Invalid);
      Report(!YearOk(x.admissionYear), row, AdmissionYear, Invalid);
      CheckDetails(x, row);
    }

    method CheckDetails(x: Input, row: nat)
      modifies `errors
      ensures errors == old(errors) + DetailErrors(x, row)
    {
      Report(!x.genderOk, row, Gender, Invalid);
      Report(!x.statusOk, row, Status, Invalid);
      Report(!x.dobOk, row, Dob, Invalid);
    }

    method NormalizeBulkStudent(x: Input, row: nat) returns (s: Student)
      modifies `errors
      ensures s == StudentOf(x, row)
      ensures errors == old(errors) + RowErrors(x, row)
    {
      CheckRequired(x, row);
      s := StudentOf(x, row);
      CheckFormats(x, s.email, row);
      Regroup(old(errors), RequiredErrors(x, row, REQUIRED, |REQUIRED|), FormatErrors(x, row), []);
    }

    /** One pass of `addPayloadDuplicateErrors`, with its map from values to first rows. */
    method AddFieldDuplicates(field: Field)
      modifies `errors
      ensures errors == old(errors) + DuplicateErrors(students, field, |students|)
    {
      var seen: map<string, nat> := map[];
      for i := 0 to |students|
        invariant errors == old(errors) + DuplicateErrors(students, field, i)
        invariant Remembers(seen, students, field, i)
      {
        var value := KeyOf(students[i], field);
        RemembersStep(seen, students, field, i);
        DuplicatesStep(old(errors), students, field, i);
        if value != "" {
          if value in seen {
            errors := errors + [Error(students[i].row, field, Duplicate(seen[value]))];
          } else {
            seen := seen[value := students[i].row];
          }
        }
      }
    }

    method AddPayloadDuplicateErrors()
      modifies `errors
      ensures errors == old(errors) + PayloadDuplicates(students, |KEYS|)
    {
      for k := 0 to |KEYS|
        invariant errors == old(errors) + PayloadDuplicates(students, k)
      {
        AddFieldDuplicates(KEYS[k]);
      }
    }

    method ReportExisting(emails: set<string>, ids: set<string>, rolls: set<string>, s: Student)
      modifies `errors
      ensures errors == old(errors) + ExistingError(emails, ids, rolls, s)
    {
      Report(s.email in emails, s.row, Email, Exists);
      Report(s.studentId in ids, s.row, StudentId, Exists);
      Report(s.rollNumber in rolls, s.row, RollNumber, Exists);
    }

    method AddExistingDuplicateErrors(collegeId: string)
      modifies `errors
      ensures errors == old(errors) + ExistingErrors(store, collegeId, students, |students|)
    {
      var emails, ids := StoredEmails(store, students), StoredIds(store, students);
      var rolls := StoredRolls(store, collegeId, students);
      for i := 0 to |students|
        invariant errors == old(errors) + ExistingErrors(store, collegeId, students, i)
      {
        ReportExisting(emails, ids, rolls, students[i]);
      }
    }

    /** The identity a link has after `resolveAcademicImportValue`, which assigns it to the student. */
    method ResolveAcademicImportValue(row: nat, field: Field, value: string, items: Items) returns (link: string)
      modifies `errors
      ensures link == Or(Resolve(items, value), value)
      ensures errors == old(errors) + LinkError(row, field, Resolve(items, value))
    {
      link := value;
      if Norm(value) != "" {
        var uniqueIds := Matching(items, value);
        if |uniqueIds| == 1 {
          link := TheOnly(uniqueIds);
        } else {
          errors := errors + [Error(row, field, if |uniqueIds| == 0 then NotFound else Ambiguous)];
        }
      }
    }

    method ResolveLinks(lookups: Lookups, s: Student) returns (t: Student)
      modifies `errors
      ensures t == LinkedStudent(s, LinksOf(lookups, s))
      ensures errors == old(errors) + LinkErrors(s.row, LinksOf(lookups, s))
    {
      t := s;
      ghost var before, links := errors, LinksOf(lookups, s);
      var d := ResolveAcademicImportValue(s.row, DepartmentId, s.departmentId, lookups.departments);
      t := t.(departmentId := d);
      var c := ResolveAcademicImportValue(s.row, CourseId, s.courseId, lookups.courses);
      t := t.(courseId := c);
      var m := ResolveAcademicImportValue(s.row, SemesterId, s.semesterId, lookups.semesters);
      t := t.(semesterId := m);
      var b := ResolveAcademicImportValue(s.row, BatchId, s.batchId, lookups.batches);
      t := t.(batchId := b);
      LinkErrorsInOrder(before, s.row, links);
    }

    method ResolveAllLinks(lookups: Lookups)
      modifies `errors, `students
      ensures students == LinkAll(old(students), AllLinks(lookups, old(students)))
      ensures errors == old(errors) + AllLinkErrors(old(students), AllLinks(lookups, old(students)), |old(students)|)
    {
      ghost var before := students;
      ghost var links := AllLinks(lookups, before);
      Halves(LinkAll(before, links), before);
      for i := 0 to |students|
        invariant students == LinkAll(before, links)[..i] + before[i..]
        invariant errors == old(errors) + AllLinkErrors(before, links, i)
      {
        LinkStep(before, links, i);
        LinkErrorsStep(old(errors), before, links, i);
        LinksAt(lookups, before, i);
        var s := ResolveLinks(lookups, students[i]);
        students := students[i := s];
      }
    }

    method CheckPlaces(collegeId: string)
      modifies `errors
      ensures errors == Placed(store, collegeId, students, old(errors), |students|)
    {
      for i := 0 to |students|
        invariant errors == Placed(store, collegeId, students, old(errors), i)
      {
        var s := students[i];
        if !HasLinkError(errors, s.row) {
          errors := errors + SemesterErrors(store, collegeId, s);
          errors := errors + BatchErrors(store, collegeId, s);
        }
      }
    }

    method NormalizeAll(inputs: seq<Input>)
      modifies `errors, `students
      ensures students == StudentsOf(inputs)
      ensures errors == AllRowErrors(inputs, |inputs|)
    {
      students, errors := [], [];
      for i := 0 to |inputs|
        invariant students == StudentsOf(inputs)[..i]
        invariant errors == AllRowErrors(inputs, i)
      {
        StudentsStep(inputs, i);
        var s := NormalizeBulkStudent(inputs[i], i + 1);
        students := students + [s];
      }
    }

    method CheckColleges(collegeId: string, inputs: seq<Input>)
      modifies `errors
      ensures errors == old(errors) + AllCollegeErrors(inputs, collegeId, |inputs|)
    {
      for i := 0 to |inputs|
        invariant errors == old(errors) + AllCollegeErrors(inputs, collegeId, i)
      {
        Report(inputs[i].collegeId != "" && inputs[i].collegeId != collegeId, i + 1, CollegeId, OtherCollege);
      }
    }

    method CheckPayload(collegeId: string, inputs: seq<Input>)
      modifies `errors, `students
      ensures students == StudentsOf(inputs) && errors == PayloadErrors(collegeId, inputs)
    {
      NormalizeAll(inputs);
      CheckColleges(collegeId, inputs);
      AddPayloadDuplicateErrors();
    }

    method CheckStore(collegeId: string, lookups: Lookups)
      requires errors == []
      modifies `errors, `students
      ensures students == LinkAll(old(students), AllLinks(lookups, old(students)))
      ensures errors == ErrorsIn(store, collegeId, old(students), AllLinks(lookups, old(students)))
    {
      ghost var before := students;
      ghost var links := AllLinks(lookups, before);
      AddExistingDuplicateErrors(collegeId);
      ghost var existing := errors;
      assert existing == ExistingErrors(store, collegeId, before, |before|);
      ResolveAllLinks(lookups);
      assert errors == existing + AllLinkErrors(before, links, |before|);
      CheckPlaces(collegeId);
    }

    method ValidateBulkStudents(collegeId: string, inputs: seq<Input>)
      modifies `errors, `students
      ensures (students, errors) == Validate(store, collegeId, inputs)
    {
      if inputs == [] {
        students, errors := [], [Error(0, Students, Empty)];
        return;
      }
      CheckPayload(collegeId, inputs);
      if errors != [] { return; }
      CheckStore(collegeId, LookupsOf(store, collegeId));
    }

    /** The transaction: nothing is kept of it when an insertion fails. */
    method InsertStudents(collegeId: string) returns (committed: bool)
      modifies `store
      ensures committed <==> Insert(old(store), collegeId, students).Some?
      ensures store == Insert(old(store), collegeId, students).GetOr(old(store))
    {
      var tx := store;
      committed := true;
      for i := 0 to |students|
        invariant committed && Insert(store, collegeId, students[..i]) == Some(tx)
      {
        assert students[..i + 1][..i] == students[..i];
        if !CanAdd(tx, collegeId, students[i]) {
          InsertStops(store, collegeId, students, i + 1);
          return false;
        }
        var userId := |tx.users|;
        tx := tx.(users := tx.users + [UserOf(collegeId, students[i])]);
        tx := tx.(profiles := tx.profiles + [ProfileOf(collegeId, students[i], userId)]);
      }
      assert students[..|students|] == students;
      store := tx;
    }

    method BulkCreateStudents(collegeId: string, inputs: seq<Input>, others: Store -> Store) returns (outcome: Outcome)
      modifies this
      ensures (store, outcome) == BulkCreate(old(store), collegeId, inputs, others)
    {
      ValidateBulkStudents(collegeId, inputs);
      if errors != [] { return Refused(errors); }
      store := others(store);
      var committed := InsertStudents(collegeId);
      outcome := if committed then Imported(|students|) else Conflict;
    }
  }

  lemma LinkErrorsInOrder(before: seq<Error>, row: nat, links: Links)
    ensures before + LinkErrors(row, links)
      == before + LinkError(row, DepartmentId, links.department) + LinkError(row, CourseId, links.course)
        + LinkError(row, SemesterId, links.semester) + LinkError(row, BatchId, links.batch)
  {
    var d, c := LinkError(row, DepartmentId, links.department), LinkError(row, CourseId, links.course);
    Regroup(before, d, c, LinkError(row, SemesterId, links.semester));
    Regroup(before, d + c + LinkError(row, SemesterId, links.semester), LinkError(row, BatchId, links.batch), []);
  }

  // ---- what the transaction does ----

  lemma {:induction false} InsertStops(store: Store, collegeId: string, students: seq<Student>, n: nat)
    requires n <= |students| && Insert(store, collegeId, students[..n]) == None
    ensures Insert(store, collegeId, students) == None
    decreases |students|
  {
    if n == |students| {
      assert students[..n] == students;
    } else {
      var init := students[..|students| - 1];
      assert init[..n] == students[..n];
      InsertStops(store, collegeId, init, n);
    }
  }

  ghost predicate Distinct(students: seq<Student>) {
    forall i, k | 0 <= k < i < |students| ::
      students[k].email != students[i].email && students[k].studentId != students[i].studentId
      && students[k].rollNumber != students[i].rollNumber
  }

  lemma DistinctStep(students: seq<Student>)
    requires students != []
    ensures var n := |students| - 1;
      Distinct(students) <==> Distinct(students[..n]) && forall k | 0 <= k < n ::
        students[k].email != students[n].email && students[k].studentId != students[n].studentId
        && students[k].rollNumber != students[n].rollNumber
  {
    var n := |students| - 1;
    assert forall i | 0 <= i < n :: students[..n][i] == students[i];
  }

  function Inserted(store: Store, collegeId: string, students: seq<Student>): Store {
    store.(
      users := store.users + seq(|students|, i requires 0 <= i < |students| => UserOf(collegeId, students[i])),
      profiles := store.profiles
        + seq(|students|, i requires 0 <= i < |students| => ProfileOf(collegeId, students[i], |store.users| + i)))
  }

  lemma InsertedStep(store: Store, collegeId: string, students: seq<Student>)
    requires students != []
    ensures var n := |students| - 1;
      Inserted(store, collegeId, students)
        == AddStudent(Inserted(store, collegeId, students[..n]), collegeId, students[n])
  {
  }

  lemma CanAddAfter(store: Store, collegeId: string, students: seq<Student>, s: Student)
    ensures CanAdd(Inserted(store, collegeId, students), collegeId, s) <==>
      CanAdd(store, collegeId, s) && forall k | 0 <= k < |students| ::
        students[k].email != s.email && students[k].studentId != s.studentId && students[k].rollNumber != s.rollNumber
  {
    UsersAfter(store, Inserted(store, collegeId, students), collegeId, students, s);
    ProfilesAfter(store, Inserted(store, collegeId, students), collegeId, students, s);
  }

  lemma UsersAfter(store: Store, now: Store, collegeId: string, students: seq<Student>, s: Student)
    requires now == Inserted(store, collegeId, students)
    ensures (forall u | u in now.users :: u.email != s.email && u.studentId != Some(s.studentId)) <==>
      && (forall u | u in store.users :: u.email != s.email && u.studentId != Some(s.studentId))
      && forall k | 0 <= k < |students| :: students[k].email != s.email && students[k].studentId != s.studentId
  {
    assert forall u | u in store.users :: u in now.users;
    forall k | 0 <= k < |students| ensures UserOf(collegeId, students[k]) in now.users {
      assert now.users[|store.users| + k] == UserOf(collegeId, students[k]);
    }
  }

  lemma ProfilesAfter(store: Store, now: Store, collegeId: string, students: seq<Student>, s: Student)
    requires now == Inserted(store, collegeId, students)
    ensures (forall p | p in now.profiles && p.collegeId == collegeId :: p.rollNumber != s.rollNumber) <==>
      && (forall p | p in store.profiles && p.collegeId == collegeId :: p.rollNumber != s.rollNumber)
      && forall k | 0 <= k < |students| :: students[k].rollNumber != s.rollNumber
  {
    var b := |store.users|;
    assert forall q | q in store.profiles :: q in now.profiles;
    forall k | 0 <= k < |students| ensures ProfileOf(collegeId, students[k], b + k) in now.profiles {
      assert now.profiles[|store.profiles| + k] == ProfileOf(collegeId, students[k], b + k);
    }
  }

  /** The transaction commits exactly when each student can be added to the tables it starts from and no
      two of them share a key; it then adds one user and one profile per student, in order, and
      nothing else. */
  lemma {:induction false} InsertMeaning(store: Store, collegeId: string, students: seq<Student>)
    ensures Insert(store, collegeId, students).Some? <==>
      Distinct(students) && forall i | 0 <= i < |students| :: CanAdd(store, collegeId, students[i])
    ensures Insert(store, collegeId, students).Some? ==>
      Insert(store, collegeId, students) == Some(Inserted(store, collegeId, students))
  {
    if students == [] {
      assert Inserted(store, collegeId, []) == store;
    } else {
      var n := |students| - 1;
      InsertMeaning(store, collegeId, students[..n]);
      InsertedStep(store, collegeId, students);
      CanAddAfter(store, collegeId, students[..n], students[n]);
      DistinctStep(students);
      if Insert(store, collegeId, students[..n]).Some? {
        assert Insert(store, collegeId, students[..n]).value == Inserted(store, collegeId, students[..n]);
      }
      assert forall i | 0 <= i < n :: students[..n][i] == students[i];
    }
  }

  ghost predicate UniqueKeys(store: Store) {
    && (forall i, k | 0 <= i < k < |store.users| :: store.users[i].email != store.users[k].email)
    && (forall i, k | 0 <= i < k < |store.users| ::
          store.users[i].studentId.Some? ==> store.users[i].studentId != store.users[k].studentId)
    && (forall i, k | 0 <= i < k < |store.profiles| :: store.profiles[i].collegeId == store.profiles[k].collegeId ==>
          store.profiles[i].rollNumber != store.profiles[k].rollNumber)
    && (forall i, k | 0 <= i < k < |store.profiles| :: store.profiles[i].userId != store.profiles[k].userId)
    && (forall i | 0 <= i < |store.profiles| :: store.profiles[i].userId < |store.users|)
  }

  lemma AddKeepsKeys(store: Store, collegeId: string, s: Student)
    requires UniqueKeys(store) && CanAdd(store, collegeId, s)
    ensures UniqueKeys(AddStudent(store, collegeId, s))
  {
    assert forall i | 0 <= i < |store.users| :: store.users[i] in store.users;
    assert forall i | 0 <= i < |store.profiles| :: store.profiles[i] in store.profiles;
  }

  lemma {:induction false} InsertKeepsKeys(store: Store, collegeId: string, students: seq<Student>)
    requires UniqueKeys(store) && Insert(store, collegeId, students).Some?
    ensures UniqueKeys(Insert(store, collegeId, students).value)
  {
    if students != [] {
      var n := |students| - 1;
      InsertKeepsKeys(store, collegeId, students[..n]);
      AddKeepsKeys(Insert(store, collegeId, students[..n]).value, collegeId, students[n]);
    }
  }

  // ---- what an import does ----

  /** A new profile's semester belongs to its course, its batch to that course and semester, and all of
      them, with its department, to the college. */
  ghost predicate WellPlaced(store: Store, p: Profile) {
    && p.departmentId in store.departments && store.departments[p.departmentId].collegeId == p.collegeId
    && p.courseId in store.courses && store.courses[p.courseId].collegeId == Some(p.collegeId)
    && p.semesterId in store.semesters && store.semesters[p.semesterId].collegeId == p.collegeId
    && store.semesters[p.semesterId].courseId == p.courseId
    && p.batchId in store.batches && store.batches[p.batchId].collegeId == p.collegeId
    && store.batches[p.batchId].courseId == p.courseId && store.batches[p.batchId].semesterId == p.semesterId
  }

  lemma ResolvedIsItem(items: Items, value: string)
    requires Resolve(items, value).Resolved?
    ensures Resolve(items, value).id in items
  {
    assert TheOnly(Matching(items, value)) in Matching(items, value);
  }

  lemma PlaceableIsWellPlaced(store: Store, collegeId: string, s: Student, userId: nat)
    requires Placeable(store, collegeId, s)
    ensures WellPlaced(store, ProfileOf(collegeId, LinkedStudent(s, LinksOf(LookupsOf(store, collegeId), s)), userId))
  {
    ResolvedIsItem(DepartmentItems(store, collegeId), s.departmentId);
    ResolvedIsItem(CourseItems(store, collegeId), s.courseId);
  }

  /** The rows an accepted payload asks for. */
  function Wanted(store: Store, collegeId: string, inputs: seq<Input>): seq<Student> {
    LinkAll(StudentsOf(inputs), AllLinks(LookupsOf(store, collegeId), StudentsOf(inputs)))
  }

  /** Students that can be added to the tables and would be well placed there. */
  ghost predicate Fits(store: Store, collegeId: string, s: Student) {
    CanAdd(store, collegeId, s) && WellPlaced(store, ProfileOf(collegeId, s, 0))
  }

  lemma LinkedFits(store: Store, collegeId: string, s: Student)
    requires Unused(store, collegeId, s) && Placeable(store, collegeId, s)
    ensures Fits(store, collegeId, LinkedStudent(s, LinksOf(LookupsOf(store, collegeId), s)))
  {
    PlaceableIsWellPlaced(store, collegeId, s, 0);
  }

  lemma AllFit(store: Store, collegeId: string, students: seq<Student>, links: seq<Links>, i: nat)
    requires StoreOk(store, collegeId, students) && links == AllLinks(LookupsOf(store, collegeId), students)
      && i < |students|
    ensures Fits(store, collegeId, LinkAll(students, links)[i])
  {
    LinksAt(LookupsOf(store, collegeId), students, i);
    LinkedFits(store, collegeId, students[i]);
  }

  lemma WantedFits(store: Store, collegeId: string, inputs: seq<Input>)
    requires StoreOk(store, collegeId, StudentsOf(inputs))
    ensures |Wanted(store, collegeId, inputs)| == |inputs|
    ensures forall i | 0 <= i < |inputs| :: Fits(store, collegeId, Wanted(store, collegeId, inputs)[i])
  {
    forall i | 0 <= i < |inputs| ensures Fits(store, collegeId, Wanted(store, collegeId, inputs)[i]) {
      AllFit(store, collegeId, StudentsOf(inputs), AllLinks(LookupsOf(store, collegeId), StudentsOf(inputs)), i);
    }
  }

  lemma KeysStayDistinct(students: seq<Student>, links: seq<Links>)
    requires KeysDistinct(students) && |students| == |links|
    requires forall i | 0 <= i < |students| :: Keyed(students[i])
    ensures Distinct(LinkAll(students, links))
  {
    assert KEYS[0] == Email && KEYS[1] == StudentId && KEYS[2] == RollNumber;
    assert Email in KEYS && StudentId in KEYS && RollNumber in KEYS;
    forall i, k | 0 <= k < i < |students|
      ensures students[k].email != students[i].email && students[k].studentId != students[i].studentId
        && students[k].rollNumber != students[i].rollNumber
    {
      assert Keyed(students[i]);
      assert KeyOf(students[k], Email) != KeyOf(students[i], Email);
      assert KeyOf(students[k], StudentId) != KeyOf(students[i], StudentId);
      assert KeyOf(students[k], RollNumber) != KeyOf(students[i], RollNumber);
    }
  }

  lemma WantedDistinct(store: Store, collegeId: string, inputs: seq<Input>)
    requires PayloadOk(collegeId, inputs)
    ensures Distinct(Wanted(store, collegeId, inputs))
  {
    forall i | 0 <= i < |inputs| ensures Keyed(StudentsOf(inputs)[i]) {
      StudentsReady(inputs, i);
    }
    KeysStayDistinct(StudentsOf(inputs), AllLinks(LookupsOf(store, collegeId), StudentsOf(inputs)));
  }

  lemma AcceptedStudents(store: Store, collegeId: string, inputs: seq<Input>)
    requires Validate(store, collegeId, inputs).1 == []
    ensures Validate(store, collegeId, inputs).0 == Wanted(store, collegeId, inputs)
  {
  }

  /** All or nothing. A refused import changes no table; a conflict leaves what other requests made of
      them; a successful one adds exactly the payload's students to that, keeps every unique key, and
      places each new profile in the hierarchy it was validated against. */
  lemma AllOrNothing(store: Store, collegeId: string, inputs: seq<Input>, others: Store -> Store)
    ensures var (after, outcome) := BulkCreate(store, collegeId, inputs, others);
      match outcome
      case Refused(errors) => after == store && errors != []
      case Conflict => after == others(store)
      case Imported(count) =>
        && count == |inputs| > 0
        && after == Inserted(others(store), collegeId, Wanted(store, collegeId, inputs))
        && |after.users| == |others(store).users| + count && |after.profiles| == |others(store).profiles| + count
        && (UniqueKeys(others(store)) ==> UniqueKeys(after))
        && forall i | |others(store).profiles| <= i < |after.profiles| :: WellPlaced(store, after.profiles[i])
  {
    if Validate(store, collegeId, inputs).1 == [] && Insert(others(store), collegeId,
         Validate(store, collegeId, inputs).0).Some? {
      ImportCommits(store, others(store), collegeId, inputs, Validate(store, collegeId, inputs).0);
    }
  }

  lemma ImportCommits(store: Store, now: Store, collegeId: string, inputs: seq<Input>, students: seq<Student>)
    requires Validate(store, collegeId, inputs) == (students, []) && Insert(now, collegeId, students).Some?
    ensures |students| == |inputs| > 0 && students == Wanted(store, collegeId, inputs)
    ensures var after := Inserted(now, collegeId, students);
      && Insert(now, collegeId, students) == Some(after)
      && |after.users| == |now.users| + |inputs| && |after.profiles| == |now.profiles| + |inputs|
      && (UniqueKeys(now) ==> UniqueKeys(after))
      && forall i | |now.profiles| <= i < |after.profiles| :: WellPlaced(store, after.profiles[i])
  {
    AcceptedExactly(store, collegeId, inputs);
    AcceptedStudents(store, collegeId, inputs);
    InsertMeaning(now, collegeId, students);
    if UniqueKeys(now) { InsertKeepsKeys(now, collegeId, students); }
    WantedFits(store, collegeId, inputs);
    NewProfilesPlaced(store, now, collegeId, students);
  }

  lemma NewProfilesPlaced(store: Store, now: Store, collegeId: string, wanted: seq<Student>)
    requires forall i | 0 <= i < |wanted| :: Fits(store, collegeId, wanted[i])
    ensures var after := Inserted(now, collegeId, wanted);
      forall i | |now.profiles| <= i < |after.profiles| :: WellPlaced(store, after.profiles[i])
  {
    var after := Inserted(now, collegeId, wanted);
    forall i | |now.profiles| <= i < |after.profiles| ensures WellPlaced(store, after.profiles[i]) {
      var k := i - |now.profiles|;
      assert after.profiles[i] == ProfileOf(collegeId, wanted[k], |now.users| + k);
      assert Fits(store, collegeId, wanted[k]);
    }
  }

  ghost predicate StoredUser(u: User, collegeId: string, x: Input) {
    && u.email == Text.Lower(Text.Trim(x.email)) && u.studentId == Some(Text.Upper(Text.Trim(x.studentId)))
    && u.name == Text.Trim(x.name) && u.collegeId == Some(collegeId)
  }

  ghost predicate StoredProfile(p: Profile, collegeId: string, x: Input) {
    && p.collegeId == collegeId && p.rollNumber == Text.Upper(Text.Trim(x.rollNumber))
    && p.section == Text.Upper(Text.Trim(x.section)) && x.admissionYear == Year(p.admissionYear)
  }

  /** The only records of the college with the aliases that the row gives. */
  ghost predicate NamesRecords(lookups: Lookups, p: Profile, x: Input) {
    && Matching(lookups.departments, Text.Trim(x.departmentId)) == {p.departmentId}
    && Matching(lookups.courses, Text.Trim(x.courseId)) == {p.courseId}
    && Matching(lookups.semesters, Text.Trim(x.semesterId)) == {p.semesterId}
    && Matching(lookups.batches, Text.Trim(x.batchId)) == {p.batchId}
  }

  ghost predicate Stores(lookups: Lookups, collegeId: string, s: Student, x: Input) {
    && StoredUser(UserOf(collegeId, s), collegeId, x)
    && StoredProfile(ProfileOf(collegeId, s, 0), collegeId, x)
    && NamesRecords(lookups, ProfileOf(collegeId, s, 0), x)
  }

  lemma ResolvedNames(items: Items, value: string)
    requires Resolve(items, value).Resolved?
    ensures Matching(items, value) == {Resolve(items, value).id}
  {
  }

  lemma RowStored(lookups: Lookups, collegeId: string, x: Input, row: nat, links: Links, s: Student)
    requires links == LinksOf(lookups, StudentOf(x, row)) && s == LinkedStudent(StudentOf(x, row), links)
    requires YearOk(x.admissionYear) && links.AllResolved()
    ensures Stores(lookups, collegeId, s, x)
  {
    ResolvedNames(lookups.departments, Text.Trim(x.departmentId));
    ResolvedNames(lookups.courses, Text.Trim(x.courseId));
    ResolvedNames(lookups.semesters, Text.Trim(x.semesterId));
    ResolvedNames(lookups.batches, Text.Trim(x.batchId));
  }

  lemma YearAt(collegeId: string, inputs: seq<Input>, i: nat)
    requires PayloadOk(collegeId, inputs) && i < |inputs|
    ensures YearOk(inputs[i].admissionYear)
  {
  }

  lemma ResolvedAt(store: Store, collegeId: string, students: seq<Student>, i: nat)
    requires StoreOk(store, collegeId, students) && i < |students|
    ensures AllLinks(LookupsOf(store, collegeId), students)[i].AllResolved()
  {
    assert Placeable(store, collegeId, students[i]);
  }

  lemma RowAt(lookups: Lookups, collegeId: string, inputs: seq<Input>, links: seq<Links>, i: nat)
    requires links == AllLinks(lookups, StudentsOf(inputs))
    requires i < |inputs| && YearOk(inputs[i].admissionYear) && links[i].AllResolved()
    ensures Stores(lookups, collegeId, LinkAll(StudentsOf(inputs), links)[i], inputs[i])
  {
    LinksAt(lookups, StudentsOf(inputs), i);
    RowStored(lookups, collegeId, inputs[i], i + 1, links[i], LinkAll(StudentsOf(inputs), links)[i]);
  }

  lemma InsertedAt(now: Store, collegeId: string, wanted: seq<Student>, lookups: Lookups, i: nat,
      x: Input)
    requires i < |wanted| && Stores(lookups, collegeId, wanted[i], x)
    ensures var after := Inserted(now, collegeId, wanted);
      ImportedAs(after, |now.users| + i, |now.profiles| + i, collegeId, lookups, x)
  {
    var after := Inserted(now, collegeId, wanted);
    assert after.users[|now.users| + i] == UserOf(collegeId, wanted[i]);
    assert after.profiles[|now.profiles| + i] == ProfileOf(collegeId, wanted[i], |now.users| + i);
  }

  lemma InsertedRow(now: Store, after: Store, lookups: Lookups, collegeId: string, inputs: seq<Input>,
      links: seq<Links>, i: nat)
    requires links == AllLinks(lookups, StudentsOf(inputs))
    requires i < |inputs| && YearOk(inputs[i].admissionYear) && links[i].AllResolved()
    requires after == Inserted(now, collegeId, LinkAll(StudentsOf(inputs), links))
    ensures ImportedAs(after, |now.users| + i, |now.profiles| + i, collegeId, lookups, inputs[i])
  {
    RowAt(lookups, collegeId, inputs, links, i);
    InsertedAt(now, collegeId, LinkAll(StudentsOf(inputs), links), lookups, i, inputs[i]);
  }

  /** A user and a profile with the row's own texts, trimmed and in the stored letter case, and the records
      that its four links name. */
  ghost predicate ImportedAs(store: Store, u: nat, p: nat, collegeId: string, lookups: Lookups, x: Input) {
    && u < |store.users| && p < |store.profiles|
    && StoredUser(store.users[u], collegeId, x) && StoredProfile(store.profiles[p], collegeId, x)
    && store.profiles[p].userId == u && NamesRecords(lookups, store.profiles[p], x)
  }

  /** What a successful import stores for its `i`-th row. */
  lemma ImportedRow(store: Store, collegeId: string, inputs: seq<Input>, others: Store -> Store,
      now: Store, after: Store, lookups: Lookups, i: nat)
    requires BulkCreate(store, collegeId, inputs, others) == (after, Imported(|inputs|)) && i < |inputs|
    requires now == others(store) && lookups == LookupsOf(store, collegeId)
    ensures ImportedAs(after, |now.users| + i, |now.profiles| + i, collegeId, lookups, inputs[i])
  {
    ImportedFacts(store, collegeId, inputs, others, after, lookups, i);
    InsertedRow(now, after, lookups, collegeId, inputs, AllLinks(lookups, StudentsOf(inputs)), i);
  }

  lemma ImportedFacts(store: Store, collegeId: string, inputs: seq<Input>, others: Store -> Store,
      after: Store, lookups: Lookups, i: nat)
    requires BulkCreate(store, collegeId, inputs, others) == (after, Imported(|inputs|)) && i < |inputs|
    requires lookups == LookupsOf(store, collegeId)
    ensures YearOk(inputs[i].admissionYear) && AllLinks(lookups, StudentsOf(inputs))[i].AllResolved()
    ensures after ==
      Inserted(others(store), collegeId, LinkAll(StudentsOf(inputs), AllLinks(lookups, StudentsOf(inputs))))
  {
    AllOrNothing(store, collegeId, inputs, others);
    AcceptedExactly(store, collegeId, inputs);
    YearAt(collegeId, inputs, i);
    ResolvedAt(store, collegeId, StudentsOf(inputs), i);
  }

  /** Its four records are the only ones of the college that the row's links name. */
  lemma ImportedLinks(store: Store, collegeId: string, inputs: seq<Input>, others: Store -> Store,
      after: Store, i: nat, p: Profile)
    requires BulkCreate(store, collegeId, inputs, others) == (after, Imported(|inputs|)) && i < |inputs|
    requires |after.profiles| > |others(store).profiles| + i && p == after.profiles[|others(store).profiles| + i]
    ensures DepartmentsNamed(store, collegeId, inputs[i].departmentId) == {p.departmentId}
    ensures CoursesNamed(store, collegeId, inputs[i].courseId) == {p.courseId}
    ensures SemestersNamed(store, collegeId, inputs[i].semesterId) == {p.semesterId}
    ensures BatchesNamed(store, collegeId, inputs[i].batchId) == {p.batchId}
  {
    var lookups := LookupsOf(store, collegeId);
    ImportedRow(store, collegeId, inputs, others, others(store), after, lookups, i);
    ImportedOk(store, collegeId, inputs, others, after, i);
    LinksNamed(store, collegeId, lookups, p, inputs[i]);
  }

  lemma ImportedOk(store: Store, collegeId: string, inputs: seq<Input>, others: Store -> Store, after: Store, i: nat)
    requires BulkCreate(store, collegeId, inputs, others) == (after, Imported(|inputs|)) && i < |inputs|
    ensures RowOk(inputs[i])
  {
    AcceptedExactly(store, collegeId, inputs);
  }

  lemma LinksNamed(store: Store, collegeId: string, lookups: Lookups, p: Profile, x: Input)
    requires lookups == LookupsOf(store, collegeId) && NamesRecords(lookups, p, x) && RowOk(x)
    ensures DepartmentsNamed(store, collegeId, x.departmentId) == {p.departmentId}
    ensures CoursesNamed(store, collegeId, x.courseId) == {p.courseId}
    ensures SemestersNamed(store, collegeId, x.semesterId) == {p.semesterId}
    ensures BatchesNamed(store, collegeId, x.batchId) == {p.batchId}
  {
    RowNamed(x);
    OnlyDepartment(store, collegeId, x.departmentId, p.departmentId);
    OnlyCourse(store, collegeId, x.courseId, p.courseId);
    OnlySemester(store, collegeId, x.semesterId, p.semesterId);
    OnlyBatch(store, collegeId, x.batchId, p.batchId);
  }

  lemma RowNamed(x: Input)
    requires RowOk(x)
    ensures Text.Words(x.departmentId) != [] && Text.Words(x.courseId) != []
    ensures Text.Words(x.semesterId) != [] && Text.Words(x.batchId) != []
  {
    RowOkMeaning(x);
    Text.RunsAreSolid(x.departmentId, Text.IsSpace);
    Text.RunsAreSolid(x.courseId, Text.IsSpace);
    Text.RunsAreSolid(x.semesterId, Text.IsSpace);
    Text.RunsAreSolid(x.batchId, Text.IsSpace);
  }

  lemma TrimmedName(s: string)
    ensures Text.Words(Text.Trim(s)) == Text.Words(s)
  {
    Text.TrimRuns(s, Text.IsSpace);
  }

  lemma DepartmentsAlike(store: Store, collegeId: string, a: string, b: string)
    requires Text.Words(a) == Text.Words(b)
    ensures DepartmentsNamed(store, collegeId, a) == DepartmentsNamed(store, collegeId, b)
  {
  }

  lemma OnlyDepartment(store: Store, collegeId: string, value: string, only: string)
    requires Text.Words(value) != [] && Matching(DepartmentItems(store, collegeId), Text.Trim(value)) == {only}
    ensures DepartmentsNamed(store, collegeId, value) == {only}
  {
    TrimmedName(value);
    DepartmentResolves(store, collegeId, Text.Trim(value));
    OnlyOne(DepartmentItems(store, collegeId), Text.Trim(value), only);
    DepartmentsAlike(store, collegeId, Text.Trim(value), value);
  }

  lemma CoursesAlike(store: Store, collegeId: string, a: string, b: string)
    requires Text.Words(a) == Text.Words(b)
    ensures CoursesNamed(store, collegeId, a) == CoursesNamed(store, collegeId, b)
  {
  }

  lemma OnlyCourse(store: Store, collegeId: string, value: string, only: string)
    requires Text.Words(value) != [] && Matching(CourseItems(store, collegeId), Text.Trim(value)) == {only}
    ensures CoursesNamed(store, collegeId, value) == {only}
  {
    TrimmedName(value);
    CourseResolves(store, collegeId, Text.Trim(value));
    OnlyOne(CourseItems(store, collegeId), Text.Trim(value), only);
    CoursesAlike(store, collegeId, Text.Trim(value), value);
  }

  lemma SemestersAlike(store: Store, collegeId: string, a: string, b: string)
    requires Text.Words(a) == Text.Words(b)
    ensures SemestersNamed(store, collegeId, a) == SemestersNamed(store, collegeId, b)
  {
  }

  lemma OnlySemester(store: Store, collegeId: string, value: string, only: string)
    requires Text.Words(value) != [] && Matching(SemesterItems(store, collegeId), Text.Trim(value)) == {only}
    ensures SemestersNamed(store, collegeId, value) == {only}
  {
    TrimmedName(value);
    SemesterResolves(store, collegeId, Text.Trim(value));
    OnlyOne(SemesterItems(store, collegeId), Text.Trim(value), only);
    SemestersAlike(store, collegeId, Text.Trim(value), value);
  }

  lemma BatchesAlike(store: Store, collegeId: string, a: string, b: string)
    requires Text.Words(a) == Text.Words(b)
    ensures BatchesNamed(store, collegeId, a) == BatchesNamed(store, collegeId, b)
  {
  }

  lemma OnlyBatch(store: Store, collegeId: string, value: string, only: string)
    requires Text.Words(value) != [] && Matching(BatchItems(store, collegeId), Text.Trim(value)) == {only}
    ensures BatchesNamed(store, collegeId, value) == {only}
  {
    TrimmedName(value);
    BatchResolves(store, collegeId, Text.Trim(value));
    OnlyOne(BatchItems(store, collegeId), Text.Trim(value), only);
    BatchesAlike(store, collegeId, Text.Trim(value), value);
  }

  lemma OnlyOne(items: Items, value: string, only: string)
    requires Text.Words(value) != [] && Matching(items, value) == {only}
    ensures Resolve(items, value) == Resolved(only)
  {
    NormMeaning(value, value);
    ResolveMeaning(items, value);
  }

  ghost predicate WholeHierarchy(store: Store) {
    forall p | p in store.profiles :: WellPlaced(store, p)
  }

  // ---- what happens between validation and commit ----

  /** Where a student would be placed. */
  ghost predicate Fitting(store: Store, collegeId: string, s: Student) {
    WellPlaced(store, ProfileOf(collegeId, s, 0))
  }

  lemma InsertedHierarchy(now: Store, collegeId: string, wanted: seq<Student>)
    ensures WholeHierarchy(Inserted(now, collegeId, wanted)) <==>
      WholeHierarchy(now) && forall i | 0 <= i < |wanted| :: Fitting(now, collegeId, wanted[i])
  {
    var after := Inserted(now, collegeId, wanted);
    var n := |now.profiles|;
    assert forall p | p in now.profiles :: p in after.profiles;
    forall i | 0 <= i < |wanted|
      ensures ProfileOf(collegeId, wanted[i], |now.users| + i) in after.profiles
      ensures WellPlaced(after, ProfileOf(collegeId, wanted[i], |now.users| + i)) <==>
        Fitting(now, collegeId, wanted[i])
    {
      assert after.profiles[n + i] == ProfileOf(collegeId, wanted[i], |now.users| + i);
    }
    assert forall p :: WellPlaced(after, p) <==> WellPlaced(now, p);
    forall p | p in after.profiles
      ensures p in now.profiles || exists i | 0 <= i < |wanted| :: p == ProfileOf(collegeId, wanted[i], |now.users| + i)
    {
      var k :| 0 <= k < |after.profiles| && after.profiles[k] == p;
      if k < n {
        assert now.profiles[k] == p;
      } else {
        assert p == ProfileOf(collegeId, wanted[k - n], |now.users| + (k - n));
      }
    }
  }

  /** After a successful import every stored profile is within the hierarchy if and only if all were in the
      tables the transaction met, and every row still fits there. */
  lemma HierarchyExactly(store: Store, collegeId: string, inputs: seq<Input>, others: Store -> Store)
    requires BulkCreate(store, collegeId, inputs, others).1.Imported?
    ensures WholeHierarchy(BulkCreate(store, collegeId, inputs, others).0) <==>
      && WholeHierarchy(others(store))
      && forall i | 0 <= i < |Wanted(store, collegeId, inputs)| ::
           Fitting(others(store), collegeId, Wanted(store, collegeId, inputs)[i])
  {
    AllOrNothing(store, collegeId, inputs, others);
    InsertedHierarchy(others(store), collegeId, Wanted(store, collegeId, inputs));
  }

  /** Every department, course, semester and batch of `a` is in `b`, in the same place: its names, its status
      and the department of a course may differ, and there may be new ones. */
  ghost predicate KeepsLinks(a: Store, b: Store) {
    && (forall id | id in a.departments ::
          id in b.departments && b.departments[id].collegeId == a.departments[id].collegeId)
    && (forall id | id in a.courses :: id in b.courses && b.courses[id].collegeId == a.courses[id].collegeId)
    && (forall id | id in a.semesters ::
          && id in b.semesters && b.semesters[id].collegeId == a.semesters[id].collegeId
          && b.semesters[id].courseId == a.semesters[id].courseId)
    && (forall id | id in a.batches ::
          && id in b.batches && b.batches[id].collegeId == a.batches[id].collegeId
          && b.batches[id].courseId == a.batches[id].courseId && b.batches[id].semesterId == a.batches[id].semesterId)
  }

  lemma StaysPlaced(a: Store, b: Store, p: Profile)
    requires WellPlaced(a, p) && KeepsLinks(a, b)
    ensures WellPlaced(b, p)
  {
  }

  /** A successful import keeps every stored profile within the academic hierarchy, whatever others do to the
      tables meanwhile, as long as they move no academic record. */
  lemma HierarchyKept(store: Store, collegeId: string, inputs: seq<Input>, others: Store -> Store)
    requires BulkCreate(store, collegeId, inputs, others).1.Imported?
    requires WholeHierarchy(others(store)) && KeepsLinks(store, others(store))
    ensures WholeHierarchy(BulkCreate(store, collegeId, inputs, others).0)
  {
    AllOrNothing(store, collegeId, inputs, others);
    AcceptedExactly(store, collegeId, inputs);
    WantedFits(store, collegeId, inputs);
    var wanted := Wanted(store, collegeId, inputs);
    forall i | 0 <= i < |wanted| ensures Fitting(others(store), collegeId, wanted[i]) {
      assert Fits(store, collegeId, wanted[i]);
      StaysPlaced(store, others(store), ProfileOf(collegeId, wanted[i], 0));
    }
    HierarchyExactly(store, collegeId, inputs, others);
  }

  /** When nothing else happens in between, an import succeeds exactly when its payload is acceptable:
      validation leaves the unique keys nothing to refuse. */
  lemma UndisturbedImport(store: Store, collegeId: string, inputs: seq<Input>)
    ensures BulkCreate(store, collegeId, inputs, s => s).1.Imported? <==>
      inputs != [] && PayloadOk(collegeId, inputs) && StoreOk(store, collegeId, StudentsOf(inputs))
    ensures !BulkCreate(store, collegeId, inputs, s => s).1.Conflict?
  {
    AcceptedExactly(store, collegeId, inputs);
    if Validate(store, collegeId, inputs).1 == [] {
      AcceptedStudents(store, collegeId, inputs);
      WantedFits(store, collegeId, inputs);
      WantedDistinct(store, collegeId, inputs);
      forall i | 0 <= i < |inputs| ensures CanAdd(store, collegeId, Wanted(store, collegeId, inputs)[i]) {
        assert Fits(store, collegeId, Wanted(store, collegeId, inputs)[i]);
      }
      InsertMeaning(store, collegeId, Wanted(store, collegeId, inputs));
    }
  }

  // ---- what an import does not read ----

  /** The tables differ in nothing but the departments of courses and the statuses of academic records. */
  ghost predicate ReadAlike(a: Store, b: Store) {
    && b.users == a.users && b.profiles == a.profiles
    && b.departments.Keys == a.departments.Keys && b.courses.Keys == a.courses.Keys
    && b.semesters.Keys == a.semesters.Keys && b.batches.Keys == a.batches.Keys
    && (forall id | id in a.departments ::
          b.departments[id] == a.departments[id].(active := b.departments[id].active))
    && (forall id | id in a.courses :: b.courses[id] ==
          a.courses[id].(departmentId := b.courses[id].departmentId, active := b.courses[id].active))
    && (forall id | id in a.semesters :: b.semesters[id] == a.semesters[id].(active := b.semesters[id].active))
    && (forall id | id in a.batches :: b.batches[id] == a.batches[id].(active := b.batches[id].active))
  }

  lemma SameItems(a: Store, b: Store, collegeId: string)
    requires ReadAlike(a, b)
    ensures DepartmentItems(a, collegeId) == DepartmentItems(b, collegeId)
    ensures SemesterItems(a, collegeId) == SemesterItems(b, collegeId)
  {
  }

  lemma SameLookups(a: Store, b: Store, collegeId: string)
    requires ReadAlike(a, b)
    ensures LookupsOf(a, collegeId) == LookupsOf(b, collegeId)
  {
    SameItems(a, b, collegeId);
    assert CourseItems(a, collegeId) == CourseItems(b, collegeId);
    assert BatchItems(a, collegeId) == BatchItems(b, collegeId);
  }

  lemma SameStoreOk(a: Store, b: Store, collegeId: string, students: seq<Student>)
    requires ReadAlike(a, b) && StoreOk(a, collegeId, students)
    ensures StoreOk(b, collegeId, students)
  {
    SameLookups(a, b, collegeId);
    forall i | 0 <= i < |students|
      ensures Unused(b, collegeId, students[i]) && Placeable(b, collegeId, students[i])
    {
      assert Unused(a, collegeId, students[i]) && Placeable(a, collegeId, students[i]);
    }
  }

  /** The department of a course and the status of an academic record decide nothing: neither what is
      accepted nor what is stored. */
  lemma UnreadFields(a: Store, b: Store, collegeId: string, inputs: seq<Input>)
    requires ReadAlike(a, b)
    ensures Wanted(a, collegeId, inputs) == Wanted(b, collegeId, inputs)
    ensures Validate(a, collegeId, inputs).1 == [] <==> Validate(b, collegeId, inputs).1 == []
  {
    SameLookups(a, b, collegeId);
    AcceptedExactly(a, collegeId, inputs);
    AcceptedExactly(b, collegeId, inputs);
    if StoreOk(a, collegeId, StudentsOf(inputs)) {
      SameStoreOk(a, b, collegeId, StudentsOf(inputs));
    } else if StoreOk(b, collegeId, StudentsOf(inputs)) {
      SameStoreOk(b, a, collegeId, StudentsOf(inputs));
    }
  }

  predicate InDepartment(store: Store, p: Profile) {
    p.courseId in store.courses && store.courses[p.courseId].departmentId == Some(p.departmentId)
  }

  function WithDepartment(store: Store, courseId: string, departmentId: Option<string>): Store {
    if courseId in store.courses then
      store.(courses := store.courses[courseId := store.courses[courseId].(departmentId := departmentId)])
    else store
  }

  lemma UndisturbedTables(store: Store, collegeId: string, inputs: seq<Input>)
    requires PayloadOk(collegeId, inputs) && StoreOk(store, collegeId, StudentsOf(inputs)) && inputs != []
    ensures BulkCreate(store, collegeId, inputs, s => s) ==
      (Inserted(store, collegeId, Wanted(store, collegeId, inputs)), Imported(|inputs|))
  {
    UndisturbedImport(store, collegeId, inputs);
    AllOrNothing(store, collegeId, inputs, s => s);
  }

  lemma AddedProfile(store: Store, collegeId: string, wanted: seq<Student>, i: nat)
    requires i < |wanted|
    ensures var after := Inserted(store, collegeId, wanted);
      && after.courses == store.courses && |after.profiles| == |store.profiles| + |wanted|
      && after.profiles[|store.profiles| + i] == ProfileOf(collegeId, wanted[i], |store.users| + i)
  {
  }

  lemma StillAcceptable(store: Store, collegeId: string, inputs: seq<Input>, i: nat, departmentId: Option<string>,
      wanted: seq<Student>, other: Store)
    requires PayloadOk(collegeId, inputs) && StoreOk(store, collegeId, StudentsOf(inputs)) && i < |inputs|
    requires wanted == Wanted(store, collegeId, inputs) && i < |wanted|
    requires other == WithDepartment(store, wanted[i].courseId, departmentId)
    ensures wanted[i].courseId in other.courses && other.courses[wanted[i].courseId].departmentId == departmentId
    ensures BulkCreate(other, collegeId, inputs, s => s) == (Inserted(other, collegeId, wanted), Imported(|inputs|))
    ensures other.profiles == store.profiles
  {
    WantedFits(store, collegeId, inputs);
    assert Fits(store, collegeId, wanted[i]);
    assert ReadAlike(store, other);
    UnreadFields(store, other, collegeId, inputs);
    SameStoreOk(store, other, collegeId, StudentsOf(inputs));
    UndisturbedTables(other, collegeId, inputs);
  }

  /** An acceptable import stays acceptable whatever department the course of a row is given; the stored
      profile's department is the course's if and only if the row's resolved department is. */
  lemma DepartmentNotTied(store: Store, collegeId: string, inputs: seq<Input>, i: nat, departmentId: Option<string>,
      wanted: seq<Student>, other: Store)
    requires PayloadOk(collegeId, inputs) && StoreOk(store, collegeId, StudentsOf(inputs))
    requires wanted == Wanted(store, collegeId, inputs) && i < |wanted|
    requires other == WithDepartment(store, wanted[i].courseId, departmentId)
    ensures var (after, outcome) := BulkCreate(other, collegeId, inputs, s => s);
      && outcome == Imported(|inputs|) && |store.profiles| + i < |after.profiles|
      && (InDepartment(after, after.profiles[|store.profiles| + i]) <==> departmentId == Some(wanted[i].departmentId))
  {
    WantedFits(store, collegeId, inputs);
    StillAcceptable(store, collegeId, inputs, i, departmentId, wanted, other);
    AddedProfile(other, collegeId, wanted, i);
  }

  /** Of two imports validated against the same tables that share an email, only the first to commit
      goes through, whatever else happens before, between and after. */
  lemma RivalConflicts(store: Store, collegeId: string, first: seq<Student>, now: Store,
      otherCollege: string, second: seq<Student>, i: nat, k: nat)
    requires Insert(store, collegeId, first).Some? && i < |first| && k < |second| && first[i].email == second[k].email
    requires forall u | u in Insert(store, collegeId, first).value.users :: u in now.users
    ensures Insert(now, otherCollege, second) == None
  {
    InsertMeaning(store, collegeId, first);
    InsertMeaning(now, otherCollege, second);
    var after := Inserted(store, collegeId, first);
    assert after.users[|store.users| + i] == UserOf(collegeId, first[i]);
    assert UserOf(collegeId, first[i]) in now.users;
    assert !CanAdd(now, otherCollege, second[k]);
  }
}

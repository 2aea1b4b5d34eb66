/** registry.py as a value: the three dicts (with their insertion orders),
    the two id counters, and one function per operation giving the outcome
    and the registry afterwards. The `Registry` class applies these in place
    and is proved to agree with them. */
module RegistryModel {
  import opened Results
  import opened Utils
  import opened Lists
  import Courses
  import Students
  import Instructors

  /** A stored student: the Python class of the object and its fields. */
  datatype StudentEntry = StudentEntry(cls: Students.StudentClass, fields: Students.StudentRecord)

  datatype RegistryState = RegistryState(
    students: map<int, StudentEntry>,
    studentOrder: seq<int>,
    instructors: map<int, Instructors.InstructorRecord>,
    instructorOrder: seq<int>,
    courses: map<int, Courses.CourseRecord>,
    courseOrder: seq<int>,
    nextPersonId: int,
    nextCourseId: int)

  /** What an operation reports, and the registry after it. A failed
      operation may still have changed the registry. */
  datatype Step = Step(outcome: Outcome, after: RegistryState)

  /** `Registry.__init__`. */
  function Empty(): RegistryState
  {
    RegistryState(map[], [], map[], [], map[], [], 1, 1)
  }

  // ---------------------------------------------------------------------
  // Creation

  /** `create_student`: the variant is chosen from `student_type`, the
      object is built with the next person id (which may raise), then stored
      and the counter advanced. */
  function CreateStudent(r: RegistryState, name: string, email: string, age: int, year: int,
                         studentType: string): Step
  {
    var cls := Students.SelectClass(studentType);
    var id := r.nextPersonId;
    var o := Students.Check(name, email, age);
    if o.Fail? then Step(o, r)
    else
      var fields := Students.StudentRecord(id, name, email, age, year, [], Students.DefaultType(cls));
      Step(Pass, r.(students := r.students[id := StudentEntry(cls, fields)],
                    studentOrder := Inserted(r.studentOrder, r.students.Keys, id),
                    nextPersonId := id + 1))
  }

  /** `create_instructor`. */
  function CreateInstructor(r: RegistryState, name: string, email: string): Step
  {
    var id := r.nextPersonId;
    var o := Instructors.Check(name, email);
    if o.Fail? then Step(o, r)
    else
      Step(Pass, r.(instructors := r.instructors[id := Instructors.InstructorRecord(id, name, email, [])],
                    instructorOrder := Inserted(r.instructorOrder, r.instructors.Keys, id),
                    nextPersonId := id + 1))
  }

  /** `create_course`: an unknown instructor raises first; then the course
      is built and stored; then the instructor is assigned the course, and
      only after that is the course counter advanced. If the assignment
      raises, the course stays stored and the counter stays put. */
  function CreateCourse(r: RegistryState, title: string, description: string,
                        instructorId: Option<int>, year: Option<int>): Step
  {
    if instructorId.Some? && instructorId.value !in r.instructors then Step(Fail(UnknownInstructor), r)
    else
      var o := Courses.Check(title, description);
      if o.Fail? then Step(o, r)
      else
        var id := r.nextCourseId;
        var c := Courses.CourseRecord(id, title, description, year, instructorId, [], map[]);
        var r1 := r.(courses := r.courses[id := c], courseOrder := Inserted(r.courseOrder, r.courses.Keys, id));
        if instructorId.None? then Step(Pass, r1.(nextCourseId := id + 1))
        else
          var iid := instructorId.value;
          var a := Instructors.AssignStep(r.instructors[iid], id);
          if a.Err? then Step(Fail(a.error), r1)
          else Step(Pass, r1.(instructors := r.instructors[iid := a.value], nextCourseId := id + 1))
  }

  // ---------------------------------------------------------------------
  // Lookups

  /** `find_students_by_email`: the first student, in insertion order, whose
      lower-cased email equals the lower-cased query. */
  function FindStudentByEmail(order: seq<int>, students: map<int, StudentEntry>, email: string): (found: Option<int>)
    ensures found.Some? ==> found.value in order
  {
    if order == [] then None
    else if order[0] in students && Lower(students[order[0]].fields.email) == Lower(email) then Some(order[0])
    else FindStudentByEmail(order[1..], students, email)
  }

  // ---------------------------------------------------------------------
  // Enrollment and grading

  /** `enroll_student_in_course`: both lookups, then the course side, then
      the student side (which never raises). */
  function EnrollStudentInCourse(r: RegistryState, sid: int, cid: int): Step
  {
    if sid !in r.students then Step(Fail(UnknownStudent), r)
    else if cid !in r.courses then Step(Fail(UnknownCourse), r)
    else
      var c := Courses.EnrollStep(r.courses[cid], sid);
      if c.Err? then Step(Fail(c.error), r)
      else
        var s := r.students[sid];
        Step(Pass, r.(courses := r.courses[cid := c.value],
                      students := r.students[sid := s.(fields := Students.EnrollStep(s.fields, cid))]))
  }

  /** `unenroll_student_from_course`: the course side first; if the student
      side then raises, the course side has already happened. */
  function UnenrollStudentFromCourse(r: RegistryState, sid: int, cid: int): Step
  {
    if sid !in r.students then Step(Fail(UnknownStudent), r)
    else if cid !in r.courses then Step(Fail(UnknownCourse), r)
    else
      var c := Courses.UnenrollStep(r.courses[cid], sid);
      if c.Err? then Step(Fail(c.error), r)
      else
        var r1 := r.(courses := r.courses[cid := c.value]);
        var s := r.students[sid];
        var u := Students.UnenrollStep(s.fields, cid);
        if u.Err? then Step(Fail(u.error), r1)
        else Step(Pass, r1.(students := r.students[sid := s.(fields := u.value)]))
  }

  /** `Registry.set_grade`: the course must exist and its `instructor_id`
      must equal the caller's id (so a course without an instructor can
      never be graded); then `Course.set_grade`. */
  function SetGrade(r: RegistryState, iid: int, cid: int, sid: int, grade: real): Step
  {
    if cid !in r.courses then Step(Fail(UnknownCourse), r)
    else if r.courses[cid].instructorId != Some(iid) then Step(Fail(NotCourseInstructor), r)
    else
      var g := Courses.GradeStep(r.courses[cid], sid, grade);
      if g.Err? then Step(Fail(g.error), r)
      else Step(Pass, r.(courses := r.courses[cid := g.value]))
  }

  // ---------------------------------------------------------------------
  // Persistence: the data `save_to_file` writes and `load_from_file` reads

  /** The JSON document: each collection's `to_dict` records in insertion
      order, and both counters. */
  datatype Snapshot = Snapshot(
    students: seq<Students.StudentRecord>,
    instructors: seq<Instructors.InstructorRecord>,
    courses: seq<Courses.CourseRecord>,
    nextPersonId: int,
    nextCourseId: int)

  function StudentFields(m: map<int, StudentEntry>): map<int, Students.StudentRecord>
  {
    map k | k in m :: m[k].fields
  }

  /** `save_to_file`, as the document it writes. */
  function Save(r: RegistryState): Snapshot
  {
    Snapshot(ValuesInOrder(r.studentOrder, StudentFields(r.students)),
             ValuesInOrder(r.instructorOrder, r.instructors),
             ValuesInOrder(r.courseOrder, r.courses),
             r.nextPersonId, r.nextCourseId)
  }

  function StudentId(s: Students.StudentRecord): int { s.id }
  function InstructorId(i: Instructors.InstructorRecord): int { i.id }
  function CourseId(c: Courses.CourseRecord): int { c.id }

  function StudentCheck(s: Students.StudentRecord): Outcome { Students.Check(s.name, s.email, s.age) }
  function InstructorCheck(i: Instructors.InstructorRecord): Outcome { Instructors.Check(i.name, i.email) }
  function CourseCheck(c: Courses.CourseRecord): Outcome { Courses.Check(c.title, c.description) }

  /** Building the objects of a collection in order: the first constructor
      that raises decides the outcome. */
  function FirstFailure<R>(recs: seq<R>, check: R -> Outcome): (o: Outcome)
    ensures o.Pass? <==> forall k :: 0 <= k < |recs| ==> check(recs[k]).Pass?
  {
    if recs == [] then Pass
    else if check(recs[0]).Fail? then check(recs[0])
    else
      var o := FirstFailure(recs[1..], check);
      assert forall k :: 1 <= k < |recs| ==> recs[k] == recs[1..][k - 1];
      o
  }

  /** Loaded students are built with `Student(**d)`: the base class, whatever
      their `student_type` says. */
  function AsPlain(m: map<int, Students.StudentRecord>): map<int, StudentEntry>
  {
    map k | k in m :: StudentEntry(Students.PlainStudent, m[k])
  }

  /** `load_from_file`. Without a file (None) nothing changes. Otherwise the
      students, the instructors and the courses are replaced one collection
      at a time, each only once all of its objects are built; a constructor
      that raises stops the load with the earlier collections already
      replaced. The counters are replaced last. */
  function Load(r: RegistryState, snap: Option<Snapshot>): Step
  {
    if snap.None? then Step(Pass, r)
    else
      var s := snap.value;
      var o1 := FirstFailure(s.students, StudentCheck);
      if o1.Fail? then Step(o1, r)
      else
        var r1 := r.(students := AsPlain(ByKey(s.students, StudentId)),
                     studentOrder := KeysInOrder(s.students, StudentId));
        var o2 := FirstFailure(s.instructors, InstructorCheck);
        if o2.Fail? then Step(o2, r1)
        else
          var r2 := r1.(instructors := ByKey(s.instructors, InstructorId),
                        instructorOrder := KeysInOrder(s.instructors, InstructorId));
          var o3 := FirstFailure(s.courses, CourseCheck);
          if o3.Fail? then Step(o3, r2)
          else
            Step(Pass, r2.(courses := ByKey(s.courses, CourseId),
                           courseOrder := KeysInOrder(s.courses, CourseId),
                           nextPersonId := s.nextPersonId,
                           nextCourseId := s.nextCourseId))
  }

  // ---------------------------------------------------------------------
  // Invariants

  /** What holds of every registry, loaded ones included: each dict's order
      lists its keys once, every entity sits under its own id, and every
      stored entity passed its constructor's checks. */
  ghost predicate WellFormed(r: RegistryState)
  {
    && StudentsWellFormed(r.studentOrder, r.students)
    && InstructorsWellFormed(r.instructorOrder, r.instructors)
    && CoursesWellFormed(r.courseOrder, r.courses)
  }

  ghost predicate StudentsWellFormed(order: seq<int>, m: map<int, StudentEntry>)
  {
    && IsOrderOf(order, m.Keys)
    && forall k :: k in m ==> m[k].fields.id == k && StudentCheck(m[k].fields).Pass?
  }

  ghost predicate InstructorsWellFormed(order: seq<int>, m: map<int, Instructors.InstructorRecord>)
  {
    && IsOrderOf(order, m.Keys)
    && forall k :: k in m ==> m[k].id == k && InstructorCheck(m[k]).Pass?
  }

  ghost predicate CoursesWellFormed(order: seq<int>, m: map<int, Courses.CourseRecord>)
  {
    && IsOrderOf(order, m.Keys)
    && forall k :: k in m ==> m[k].id == k && CourseCheck(m[k]).Pass?
  }

  /** Ids come from the counters: all ids in use are below them, and no
      person id is both a student and an instructor. */
  ghost predicate IdsFromCounters(r: RegistryState)
  {
    && (forall k :: k in r.students ==> k < r.nextPersonId)
    && (forall k :: k in r.instructors ==> k < r.nextPersonId)
    && (forall k :: k in r.courses ==> k < r.nextCourseId)
    && (forall k :: k in r.students ==> k !in r.instructors)
  }

  /** Each entity keeps its own invariant. */
  ghost predicate EntitiesValid(r: RegistryState)
  {
    && StudentsValid(r.students)
    && InstructorsValid(r.instructors)
    && CoursesValid(r.courses)
  }

  ghost predicate StudentsValid(m: map<int, StudentEntry>)
  {
    forall k :: k in m ==> Students.RecordValid(m[k].fields)
  }

  ghost predicate InstructorsValid(m: map<int, Instructors.InstructorRecord>)
  {
    forall k :: k in m ==> Instructors.RecordValid(m[k])
  }

  ghost predicate CoursesValid(m: map<int, Courses.CourseRecord>)
  {
    forall k :: k in m ==> Courses.RecordValid(m[k])
  }

  /** A student is on a course's roster exactly when the course is among the
      student's enrollments, and both exist. */
  ghost predicate EnrollmentsMatch(students: map<int, StudentEntry>, courses: map<int, Courses.CourseRecord>)
  {
    && (forall c, s :: c in courses && s in courses[c].roster ==>
          s in students && Students.Enrollment(c) in students[s].fields.enrollments)
    && (forall s, c :: s in students && Students.Enrollment(c) in students[s].fields.enrollments ==>
          c in courses && s in courses[c].roster)
  }

  /** A course names an instructor exactly when that instructor lists it. */
  ghost predicate OwnershipMatches(instructors: map<int, Instructors.InstructorRecord>,
                                   courses: map<int, Courses.CourseRecord>)
  {
    && (forall c :: c in courses && courses[c].instructorId.Some? ==>
          courses[c].instructorId.value in instructors &&
          c in instructors[courses[c].instructorId.value].courses)
    && (forall i, c :: i in instructors && c in instructors[i].courses ==>
          c in courses && courses[c].instructorId == Some(i))
  }

  /** The cross-entity rules the registry enforces by hand. */
  ghost predicate Integrity(r: RegistryState)
  {
    && WellFormed(r)
    && IdsFromCounters(r)
    && EntitiesValid(r)
    && EnrollmentsMatch(r.students, r.courses)
    && OwnershipMatches(r.instructors, r.courses)
  }
}

/** registry.py: the `Registry` object. It owns the three dicts of objects
    and the two counters and changes them in place; each method is proved to
    do to the registry's contents (`View`) exactly what the function of the
    same name in `RegistryModel` says, so every property proved there holds
    of the object. */
module SchoolRegistry {
  import opened Results
  import opened Utils
  import opened Lists
  import opened RegistryModel
  import Courses
  import Students
  import Instructors

  /** No object is stored under two keys: changing one stored object
      changes one entry. */
  ghost predicate Distinct<T>(m: map<int, T>)
  {
    forall j, k :: j in m && k in m && j != k ==> m[j] != m[k]
  }

  /** The fields (and class) of the stored students. */
  ghost function StudentEntries(m: map<int, Students.Student>): map<int, StudentEntry>
    reads m.Values
  {
    map k | k in m :: StudentEntry(m[k].cls, m[k].ToRecord())
  }

  ghost function InstructorRecords(m: map<int, Instructors.Instructor>): map<int, Instructors.InstructorRecord>
    reads m.Values
  {
    map k | k in m :: m[k].ToRecord()
  }

  ghost function CourseRecords(m: map<int, Courses.Course>): map<int, Courses.CourseRecord>
    reads m.Values
  {
    map k | k in m :: m[k].ToRecord()
  }

  /** Building the objects of a collection stops at the first record whose
      constructor raises, and that failure is the outcome. */
  lemma {:induction false} FirstFailureStops<R>(recs: seq<R>, check: R -> Outcome, i: nat)
    requires i < |recs| && check(recs[i]).Fail?
    requires AllPass(recs, check, i)
    ensures FirstFailure(recs, check) == check(recs[i])
  {
    if i > 0 {
      assert check(recs[0]).Pass?;
      assert forall k :: 0 <= k < i - 1 ==> recs[1..][k] == recs[k + 1];
      FirstFailureStops(recs[1..], check, i - 1);
    }
  }

  lemma InstructorRecordsAdd(m: map<int, Instructors.Instructor>, id: int, i: Instructors.Instructor)
    ensures InstructorRecords(m[id := i]) == InstructorRecords(m)[id := i.ToRecord()]
  {
  }

  lemma StudentEntriesAdd(m: map<int, Students.Student>, id: int, s: Students.Student)
    ensures StudentEntries(m[id := s]) == StudentEntries(m)[id := StudentEntry(s.cls, s.ToRecord())]
  {
  }

  /** The records of a dict of courses in which only the course under
      `cid` may differ from `v`. */
  lemma CourseRecordsUpdated(m: map<int, Courses.Course>, cid: int, v: map<int, Courses.CourseRecord>)
    requires cid in m && m.Keys == v.Keys
    requires forall j :: j in m && j != cid ==> m[j].ToRecord() == v[j]
    ensures CourseRecords(m) == v[cid := m[cid].ToRecord()]
    ensures m[cid].ToRecord() == v[cid] ==> CourseRecords(m) == v
  {
    assert forall k :: k in CourseRecords(m) <==> k in v;
    if m[cid].ToRecord() == v[cid] {
      assert forall k :: k in v ==> CourseRecords(m)[k] == v[k];
    }
  }

  lemma InstructorRecordsUpdated(m: map<int, Instructors.Instructor>, iid: int, v: map<int, Instructors.InstructorRecord>)
    requires iid in m && m.Keys == v.Keys
    requires forall j :: j in m && j != iid ==> m[j].ToRecord() == v[j]
    ensures InstructorRecords(m) == v[iid := m[iid].ToRecord()]
    ensures m[iid].ToRecord() == v[iid] ==> InstructorRecords(m) == v
  {
    assert forall k :: k in InstructorRecords(m) <==> k in v;
    if m[iid].ToRecord() == v[iid] {
      assert forall k :: k in v ==> InstructorRecords(m)[k] == v[k];
    }
  }

  lemma StudentEntriesUpdated(m: map<int, Students.Student>, sid: int, v: map<int, StudentEntry>)
    requires sid in m && m.Keys == v.Keys
    requires forall j :: j in m && j != sid ==> StudentEntry(m[j].cls, m[j].ToRecord()) == v[j]
    ensures StudentEntries(m) == v[sid := StudentEntry(m[sid].cls, m[sid].ToRecord())]
    ensures StudentEntry(m[sid].cls, m[sid].ToRecord()) == v[sid] ==> StudentEntries(m) == v
  {
    assert forall k :: k in StudentEntries(m) <==> k in v;
    if StudentEntry(m[sid].cls, m[sid].ToRecord()) == v[sid] {
      assert forall k :: k in v ==> StudentEntries(m)[k] == v[k];
    }
  }

  lemma CourseRecordsAdd(m: map<int, Courses.Course>, id: int, c: Courses.Course)
    ensures CourseRecords(m[id := c]) == CourseRecords(m)[id := c.ToRecord()]
  {
  }

  /** The first `i` records pass their constructor's checks. */
  ghost predicate AllPass<R>(recs: seq<R>, check: R -> Outcome, i: int)
  {
    forall k :: 0 <= k < i && k < |recs| ==> check(recs[k]).Pass?
  }

  /** The dict comprehension over one more record. */
  lemma ByKeyStep<R>(recs: seq<R>, key: R -> int, i: nat)
    requires i < |recs|
    ensures ByKey(recs[..i + 1], key) == ByKey(recs[..i], key)[key(recs[i]) := recs[i]]
    ensures var order := KeysInOrder(recs[..i], key);
      KeysInOrder(recs[..i + 1], key) == if key(recs[i]) in order then order else order + [key(recs[i])]
  {
    assert recs[..i + 1][..i] == recs[..i];
  }

  lemma AsPlainAdd(m: map<int, Students.StudentRecord>, r: Students.StudentRecord)
    ensures AsPlain(m[r.id := r]) == AsPlain(m)[r.id := StudentEntry(Students.PlainStudent, r)]
  {
  }

  lemma DistinctAdd<T>(m: map<int, T>, id: int, x: T)
    requires Distinct(m) && forall k :: k in m ==> m[k] != x
    ensures Distinct(m[id := x])
  {
  }

  lemma AllPassStep<R>(recs: seq<R>, check: R -> Outcome, i: nat)
    requires AllPass(recs, check, i) && i < |recs| && check(recs[i]).Pass?
    ensures AllPass(recs, check, i + 1)
  {
  }

  /** `{d["id"]: Student(**d) for d in recs}`: every object is built with
      the base class; the first constructor that raises stops the build. */
  method BuildStudents(recs: seq<Students.StudentRecord>)
    returns (m: map<int, Students.Student>, order: seq<int>, o: Outcome)
    ensures o == FirstFailure(recs, StudentCheck)
    ensures o.Pass? ==>
      && Distinct(m)
      && StudentEntries(m) == AsPlain(ByKey(recs, StudentId))
      && order == KeysInOrder(recs, StudentId)
  {
    m := map[];
    order := [];
    var i := 0;
    while i < |recs|
      invariant i <= |recs|
      invariant AllPass(recs, StudentCheck, i)
      invariant Distinct(m)
      invariant StudentEntries(m) == AsPlain(ByKey(recs[..i], StudentId))
      invariant order == KeysInOrder(recs[..i], StudentId)
    {
      var made := Students.Student.Make(Students.PlainStudent, recs[i]);
      if made.Err? {
        FirstFailureStops(recs, StudentCheck, i);
        return m, order, Fail(made.error);
      }
      AllPassStep(recs, StudentCheck, i);
      ByKeyStep(recs, StudentId, i);
      AsPlainAdd(ByKey(recs[..i], StudentId), recs[i]);
      var id := recs[i].id;
      DistinctAdd(m, id, made.value);
      StudentEntriesAdd(m, id, made.value);
      order := if id in order then order else order + [id];
      m := m[id := made.value];
      i := i + 1;
    }
    assert recs[..i] == recs;
    o := Pass;
  }

  method BuildInstructors(recs: seq<Instructors.InstructorRecord>)
    returns (m: map<int, Instructors.Instructor>, order: seq<int>, o: Outcome)
    ensures o == FirstFailure(recs, InstructorCheck)
    ensures o.Pass? ==>
      && Distinct(m)
      && InstructorRecords(m) == ByKey(recs, InstructorId)
      && order == KeysInOrder(recs, InstructorId)
  {
    m := map[];
    order := [];
    var i := 0;
    while i < |recs|
      invariant i <= |recs|
      invariant AllPass(recs, InstructorCheck, i)
      invariant Distinct(m)
      invariant InstructorRecords(m) == ByKey(recs[..i], InstructorId)
      invariant order == KeysInOrder(recs[..i], InstructorId)
    {
      var made := Instructors.Instructor.Make(recs[i]);
      if made.Err? {
        FirstFailureStops(recs, InstructorCheck, i);
        return m, order, Fail(made.error);
      }
      AllPassStep(recs, InstructorCheck, i);
      ByKeyStep(recs, InstructorId, i);
      var id := recs[i].id;
      DistinctAdd(m, id, made.value);
      InstructorRecordsAdd(m, id, made.value);
      order := if id in order then order else order + [id];
      m := m[id := made.value];
      i := i + 1;
    }
    assert recs[..i] == recs;
    o := Pass;
  }

  method BuildCourses(recs: seq<Courses.CourseRecord>)
    returns (m: map<int, Courses.Course>, order: seq<int>, o: Outcome)
    ensures o == FirstFailure(recs, CourseCheck)
    ensures o.Pass? ==>
      && Distinct(m)
      && CourseRecords(m) == ByKey(recs, CourseId)
      && order == KeysInOrder(recs, CourseId)
  {
    m := map[];
    order := [];
    var i := 0;
    while i < |recs|
      invariant i <= |recs|
      invariant AllPass(recs, CourseCheck, i)
      invariant Distinct(m)
      invariant CourseRecords(m) == ByKey(recs[..i], CourseId)
      invariant order == KeysInOrder(recs[..i], CourseId)
    {
      var made := Courses.Course.Make(recs[i]);
      if made.Err? {
        FirstFailureStops(recs, CourseCheck, i);
        return m, order, Fail(made.error);
      }
      AllPassStep(recs, CourseCheck, i);
      ByKeyStep(recs, CourseId, i);
      var id := recs[i].id;
      DistinctAdd(m, id, made.value);
      CourseRecordsAdd(m, id, made.value);
      order := if id in order then order else order + [id];
      m := m[id := made.value];
      i := i + 1;
    }
    assert recs[..i] == recs;
    o := Pass;
  }

  class Registry {
    var students: map<int, Students.Student>
    var studentOrder: seq<int>
    var instructors: map<int, Instructors.Instructor>
    var instructorOrder: seq<int>
    var courses: map<int, Courses.Course>
    var courseOrder: seq<int>
    var nextPersonId: int
    var nextCourseId: int

    /** What the registry holds, as a value. */
    ghost function View(): RegistryState
      reads this, students.Values, instructors.Values, courses.Values
    {
      RegistryState(StudentEntries(students), studentOrder,
                    InstructorRecords(instructors), instructorOrder,
                    CourseRecords(courses), courseOrder,
                    nextPersonId, nextCourseId)
    }

    ghost predicate Valid()
      reads this
    {
      Distinct(students) && Distinct(instructors) && Distinct(courses)
    }

    /** `Registry.__init__`. */
    constructor ()
      ensures Valid() && View() == Empty()
    {
      students := map[];
      studentOrder := [];
      instructors := map[];
      instructorOrder := [];
      courses := map[];
      courseOrder := [];
      nextPersonId := 1;
      nextCourseId := 1;
    }

    method CreateStudent(name: string, email: string, age: int, year: int, studentType: string)
      returns (r: Result<Students.Student>)
      requires Valid()
      modifies this
      ensures Valid()
      ensures var st := RegistryModel.CreateStudent(old(View()), name, email, age, year, studentType);
        OutcomeOf(r) == st.outcome && View() == st.after
      ensures r.Ok? ==> fresh(r.value) && students == old(students)[old(nextPersonId) := r.value]
      ensures r.Err? ==> students == old(students)
      ensures instructors == old(instructors) && courses == old(courses)
    {
      var cls := Students.SelectClass(studentType);
      var id := nextPersonId;
      var fields := Students.StudentRecord(id, name, email, age, year, [], Students.DefaultType(cls));
      r := Students.Student.Make(cls, fields);
      if r.Err? {
        return;
      }
      StoreStudent(id, r.value);
    }

    /** `self._students[id] = student` and `self._next_person_id += 1`. */
    method StoreStudent(id: int, s: Students.Student)
      requires Valid() && id == nextPersonId && forall k :: k in students ==> students[k] != s
      modifies this
      ensures Valid()
      ensures students == old(students)[id := s]
      ensures instructors == old(instructors) && courses == old(courses)
      ensures View() == old(View()).(students := old(View()).students[id := StudentEntry(s.cls, s.ToRecord())],
                                      studentOrder := Inserted(old(studentOrder), old(students).Keys, id),
                                      nextPersonId := id + 1)
    {
      ghost var v := View();
      StudentEntriesAdd(students, id, s);
      studentOrder := Inserted(studentOrder, students.Keys, id);
      students := students[id := s];
      nextPersonId := id + 1;
      assert InstructorRecords(instructors) == v.instructors;
      assert CourseRecords(courses) == v.courses;
    }

    method CreateInstructor(name: string, email: string) returns (r: Result<Instructors.Instructor>)
      requires Valid()
      modifies this
      ensures Valid()
      ensures var st := RegistryModel.CreateInstructor(old(View()), name, email);
        OutcomeOf(r) == st.outcome && View() == st.after
      ensures r.Ok? ==> fresh(r.value) && instructors == old(instructors)[old(nextPersonId) := r.value]
      ensures r.Err? ==> instructors == old(instructors)
      ensures students == old(students) && courses == old(courses)
    {
      var id := nextPersonId;
      var fields := Instructors.InstructorRecord(id, name, email, []);
      r := Instructors.Instructor.Make(fields);
      if r.Err? {
        return;
      }
      StoreInstructor(id, r.value);
    }

    /** `self._intructors[id] = instructor` and `self._next_person_id += 1`. */
    method StoreInstructor(id: int, i: Instructors.Instructor)
      requires Valid() && id == nextPersonId && forall k :: k in instructors ==> instructors[k] != i
      modifies this
      ensures Valid()
      ensures instructors == old(instructors)[id := i]
      ensures students == old(students) && courses == old(courses)
      ensures View() == old(View()).(instructors := old(View()).instructors[id := i.ToRecord()],
                                      instructorOrder := Inserted(old(instructorOrder), old(instructors).Keys, id),
                                      nextPersonId := id + 1)
    {
      ghost var v := View();
      InstructorRecordsAdd(instructors, id, i);
      instructorOrder := Inserted(instructorOrder, instructors.Keys, id);
      instructors := instructors[id := i];
      nextPersonId := id + 1;
      assert StudentEntries(students) == v.students;
      assert CourseRecords(courses) == v.courses;
    }

    method CreateCourse(title: string, description: string, instructorId: Option<int>, year: Option<int>)
      returns (r: Result<Courses.Course>)
      requires Valid()
      modifies this, instructors.Values
      ensures Valid()
      ensures var st := RegistryModel.CreateCourse(old(View()), title, description, instructorId, year);
        OutcomeOf(r) == st.outcome && View() == st.after
      ensures r.Ok? ==> fresh(r.value) && courses == old(courses)[old(nextCourseId) := r.value]
      ensures (instructorId.Some? && instructorId.value !in old(instructors)) || Courses.Check(title, description).Fail?
        ==> courses == old(courses)
      ensures students == old(students) && instructors == old(instructors)
    {
      if instructorId.Some? && instructorId.value !in instructors {
        return Err(UnknownInstructor);
      }
      var fields := Courses.CourseRecord(nextCourseId, title, description, year, instructorId, [], map[]);
      r := Courses.Course.Make(fields);
      if r.Err? {
        return;
      }
      var o := AddCourse(r.value);
      if o.Fail? {
        r := Err(o.error);
      }
    }

    /** What `create_course` does once the course object exists: store it,
        assign it to its instructor (which may raise), advance the counter. */
    method AddCourse(c: Courses.Course) returns (o: Outcome)
      requires Valid() && c.id == nextCourseId && forall k :: k in courses ==> courses[k] != c
      requires c.instructorId.None? || c.instructorId.value in instructors
      modifies this, instructors.Values
      ensures Valid()
      ensures var v := old(View());
        var id := v.nextCourseId;
        var r1 := v.(courses := v.courses[id := old(c.ToRecord())], courseOrder := Inserted(v.courseOrder, v.courses.Keys, id));
        if c.instructorId.None? then o == Pass && View() == r1.(nextCourseId := id + 1)
        else
          var a := Instructors.AssignStep(v.instructors[c.instructorId.value], id);
          && o == OutcomeOf(a)
          && View() == if a.Err? then r1
                       else r1.(instructors := v.instructors[c.instructorId.value := a.value], nextCourseId := id + 1)
      ensures courses == old(courses)[old(nextCourseId) := c]
      ensures students == old(students) && instructors == old(instructors)
    {
      var id := nextCourseId;
      StoreCourse(id, c);
      if c.instructorId.Some? {
        o := AssignToInstructor(c.instructorId.value, id);
        if o.Fail? {
          return;
        }
      } else {
        o := Pass;
      }
      AdvanceCourseCounter();
    }

    /** `self._courses[cid] = course`. */
    method StoreCourse(cid: int, c: Courses.Course)
      requires Valid() && forall k :: k in courses ==> courses[k] != c
      modifies this
      ensures Valid()
      ensures View() == old(View()).(courses := old(View()).courses[cid := c.ToRecord()],
                                      courseOrder := Inserted(old(courseOrder), old(courses).Keys, cid))
      ensures instructors == old(instructors) && courses == old(courses)[cid := c]
      ensures students == old(students)
    {
      ghost var v := View();
      CourseRecordsAdd(courses, cid, c);
      courseOrder := Inserted(courseOrder, courses.Keys, cid);
      courses := courses[cid := c];
      assert StudentEntries(students) == v.students;
      assert InstructorRecords(instructors) == v.instructors;
    }

    /** `self._next_course_id += 1`. */
    method AdvanceCourseCounter()
      requires Valid()
      modifies this
      ensures Valid()
      ensures View() == old(View()).(nextCourseId := old(nextCourseId) + 1)
      ensures students == old(students) && instructors == old(instructors) && courses == old(courses)
    {
      ghost var v := View();
      nextCourseId := nextCourseId + 1;
      assert StudentEntries(students) == v.students;
      assert InstructorRecords(instructors) == v.instructors;
      assert CourseRecords(courses) == v.courses;
    }

    /** `self._intructors[iid].assign_course(cid)`: only that instructor changes. */
    method AssignToInstructor(iid: int, cid: int) returns (o: Outcome)
      requires Valid() && iid in instructors
      modifies instructors[iid]
      ensures Valid()
      ensures var step := Instructors.AssignStep(old(View()).instructors[iid], cid);
        && o == OutcomeOf(step)
        && View() == (if step.Ok? then old(View()).(instructors := old(View()).instructors[iid := step.value])
                      else old(View()))
    {
      ghost var v := View();
      var inst := instructors[iid];
      o := inst.AssignCourse(cid);
      forall j | j in instructors && j != iid
        ensures instructors[j].ToRecord() == v.instructors[j]
      {
        assert instructors[j] != inst;
      }
      InstructorRecordsUpdated(instructors, iid, v.instructors);
      assert StudentEntries(students) == v.students;
      assert CourseRecords(courses) == v.courses;
    }

    method GetStudent(id: int) returns (s: Option<Students.Student>)
      ensures s.None? <==> id !in View().students
      ensures s.Some? ==> s.value == students[id] && StudentEntry(s.value.cls, s.value.ToRecord()) == View().students[id]
    {
      if id in students {
        return Some(students[id]);
      }
      return None;
    }

    method GetInstructor(id: int) returns (i: Option<Instructors.Instructor>)
      ensures i.None? <==> id !in View().instructors
      ensures i.Some? ==> i.value == instructors[id] && i.value.ToRecord() == View().instructors[id]
    {
      if id in instructors {
        return Some(instructors[id]);
      }
      return None;
    }

    method GetCourse(id: int) returns (c: Option<Courses.Course>)
      ensures c.None? <==> id !in View().courses
      ensures c.Some? ==> c.value == courses[id] && c.value.ToRecord() == View().courses[id]
    {
      if id in courses {
        return Some(courses[id]);
      }
      return None;
    }

    /** `find_students_by_email`: walks the students in insertion order. */
    method FindStudentByEmail(email: string) returns (s: Option<Students.Student>)
      ensures var found := RegistryModel.FindStudentByEmail(studentOrder, View().students, email);
        && (s.None? <==> found.None?)
        && (s.Some? ==> found.value in students && s.value == students[found.value])
    {
      var target := Lower(email);
      var i := 0;
      while i < |studentOrder|
        invariant i <= |studentOrder|
        invariant RegistryModel.FindStudentByEmail(studentOrder, View().students, email)
               == RegistryModel.FindStudentByEmail(studentOrder[i..], View().students, email)
      {
        var k := studentOrder[i];
        assert studentOrder[i..][1..] == studentOrder[i + 1..];
        if k in students && Lower(students[k].email) == target {
          return Some(students[k]);
        }
        i := i + 1;
      }
      return None;
    }

    // -------------------------------------------------------------------
    // Enrollment and grading

    /** `enroll_student_in_course`. */
    method EnrollStudentInCourse(sid: int, cid: int) returns (o: Outcome)
      requires Valid()
      modifies students.Values, courses.Values
      ensures Valid()
      ensures var st := RegistryModel.EnrollStudentInCourse(old(View()), sid, cid);
        o == st.outcome && View() == st.after
    {
      if sid !in students {
        return Fail(UnknownStudent);
      }
      if cid !in courses {
        return Fail(UnknownCourse);
      }
      o := EnrollOnCourse(cid, sid);
      if o.Fail? {
        return;
      }
      EnrollOnStudent(sid, cid);
    }

    /** `unenroll_student_from_course`. */
    method UnenrollStudentFromCourse(sid: int, cid: int) returns (o: Outcome)
      requires Valid()
      modifies students.Values, courses.Values
      ensures Valid()
      ensures var st := RegistryModel.UnenrollStudentFromCourse(old(View()), sid, cid);
        o == st.outcome && View() == st.after
    {
      if sid !in students {
        return Fail(UnknownStudent);
      }
      if cid !in courses {
        return Fail(UnknownCourse);
      }
      o := UnenrollOnCourse(cid, sid);
      if o.Fail? {
        return;
      }
      o := UnenrollOnStudent(sid, cid);
    }

    /** `Registry.set_grade`. */
    method SetGrade(iid: int, cid: int, sid: int, grade: real) returns (o: Outcome)
      requires Valid()
      modifies courses.Values
      ensures Valid()
      ensures var st := RegistryModel.SetGrade(old(View()), iid, cid, sid, grade);
        o == st.outcome && View() == st.after
    {
      if cid !in courses {
        return Fail(UnknownCourse);
      }
      if courses[cid].instructorId != Some(iid) {
        return Fail(NotCourseInstructor);
      }
      o := GradeOnCourse(cid, sid, grade);
    }

    /** `course.enroll_student(sid)`: only that course changes. */
    method EnrollOnCourse(cid: int, sid: int) returns (o: Outcome)
      requires Valid() && cid in courses
      modifies courses[cid]
      ensures Valid()
      ensures var step := Courses.EnrollStep(old(View()).courses[cid], sid);
        && o == OutcomeOf(step)
        && View() == (if step.Ok? then old(View()).(courses := old(View()).courses[cid := step.value])
                      else old(View()))
    {
      ghost var v := View();
      var c := courses[cid];
      o := c.EnrollStudent(sid);
      forall j | j in courses && j != cid
        ensures courses[j].ToRecord() == v.courses[j]
      {
        assert courses[j] != c;
      }
      CourseRecordsUpdated(courses, cid, v.courses);
      assert StudentEntries(students) == v.students;
      assert InstructorRecords(instructors) == v.instructors;
    }

    /** `course.unenroll_student(sid)`. */
    method UnenrollOnCourse(cid: int, sid: int) returns (o: Outcome)
      requires Valid() && cid in courses
      modifies courses[cid]
      ensures Valid()
      ensures var step := Courses.UnenrollStep(old(View()).courses[cid], sid);
        && o == OutcomeOf(step)
        && View() == (if step.Ok? then old(View()).(courses := old(View()).courses[cid := step.value])
                      else old(View()))
    {
      ghost var v := View();
      var c := courses[cid];
      o := c.UnenrollStudent(sid);
      forall j | j in courses && j != cid
        ensures courses[j].ToRecord() == v.courses[j]
      {
        assert courses[j] != c;
      }
      CourseRecordsUpdated(courses, cid, v.courses);
      assert StudentEntries(students) == v.students;
      assert InstructorRecords(instructors) == v.instructors;
    }

    /** `course.set_grade(sid, grade)`. */
    method GradeOnCourse(cid: int, sid: int, grade: real) returns (o: Outcome)
      requires Valid() && cid in courses
      modifies courses[cid]
      ensures Valid()
      ensures var step := Courses.GradeStep(old(View()).courses[cid], sid, grade);
        && o == OutcomeOf(step)
        && View() == (if step.Ok? then old(View()).(courses := old(View()).courses[cid := step.value])
                      else old(View()))
    {
      ghost var v := View();
      var c := courses[cid];
      o := c.SetGrade(sid, grade);
      forall j | j in courses && j != cid
        ensures courses[j].ToRecord() == v.courses[j]
      {
        assert courses[j] != c;
      }
      CourseRecordsUpdated(courses, cid, v.courses);
      assert StudentEntries(students) == v.students;
      assert InstructorRecords(instructors) == v.instructors;
    }

    /** `student.enroll(cid)`, which never raises. */
    method EnrollOnStudent(sid: int, cid: int)
      requires Valid() && sid in students
      modifies students[sid]
      ensures Valid()
      ensures var e := old(View()).students[sid];
        View() == old(View()).(students := old(View()).students[sid := e.(fields := Students.EnrollStep(e.fields, cid))])
    {
      ghost var v := View();
      var s := students[sid];
      s.Enroll(cid);
      forall j | j in students && j != sid
        ensures StudentEntry(students[j].cls, students[j].ToRecord()) == v.students[j]
      {
        assert students[j] != s;
      }
      StudentEntriesUpdated(students, sid, v.students);
      assert CourseRecords(courses) == v.courses;
      assert InstructorRecords(instructors) == v.instructors;
    }

    /** `student.unenroll(cid)`. */
    method UnenrollOnStudent(sid: int, cid: int) returns (o: Outcome)
      requires Valid() && sid in students
      modifies students[sid]
      ensures Valid()
      ensures var e := old(View()).students[sid];
        var step := Students.UnenrollStep(e.fields, cid);
        && o == OutcomeOf(step)
        && View() == (if step.Ok? then old(View()).(students := old(View()).students[sid := e.(fields := step.value)])
                      else old(View()))
    {
      ghost var v := View();
      var s := students[sid];
      o := s.Unenroll(cid);
      forall j | j in students && j != sid
        ensures StudentEntry(students[j].cls, students[j].ToRecord()) == v.students[j]
      {
        assert students[j] != s;
      }
      StudentEntriesUpdated(students, sid, v.students);
      assert CourseRecords(courses) == v.courses;
      assert InstructorRecords(instructors) == v.instructors;
    }

    // -------------------------------------------------------------------
    // Persistence. The document is a `Snapshot` value: writing it to a
    // file (`json.dump`) and reading it back (`json.load`) are not modelled.

    /** `save_to_file`: each collection's `to_dict` records, in insertion
        order, and both counters. */
    method Save() returns (snap: Snapshot)
      ensures snap == RegistryModel.Save(View())
    {
      var ss := SaveStudents();
      var irecs := SaveInstructors();
      var cs := SaveCourses();
      snap := Snapshot(ss, irecs, cs, nextPersonId, nextCourseId);
    }

    method SaveStudents() returns (recs: seq<Students.StudentRecord>)
      ensures recs == ValuesInOrder(studentOrder, StudentFields(View().students))
    {
      ghost var fm := StudentFields(View().students);
      recs := [];
      var i := 0;
      while i < |studentOrder|
        invariant i <= |studentOrder|
        invariant recs == ValuesInOrder(studentOrder[..i], fm)
      {
        var k := studentOrder[i];
        assert studentOrder[..i + 1][..i] == studentOrder[..i];
        if k in students {
          recs := recs + [students[k].ToRecord()];
        }
        i := i + 1;
      }
      assert studentOrder[..i] == studentOrder;
    }

    method SaveInstructors() returns (recs: seq<Instructors.InstructorRecord>)
      ensures recs == ValuesInOrder(instructorOrder, View().instructors)
    {
      ghost var m := View().instructors;
      recs := [];
      var i := 0;
      while i < |instructorOrder|
        invariant i <= |instructorOrder|
        invariant recs == ValuesInOrder(instructorOrder[..i], m)
      {
        var k := instructorOrder[i];
        assert instructorOrder[..i + 1][..i] == instructorOrder[..i];
        if k in instructors {
          recs := recs + [instructors[k].ToRecord()];
        }
        i := i + 1;
      }
      assert instructorOrder[..i] == instructorOrder;
    }

    method SaveCourses() returns (recs: seq<Courses.CourseRecord>)
      ensures recs == ValuesInOrder(courseOrder, View().courses)
    {
      ghost var m := View().courses;
      recs := [];
      var i := 0;
      while i < |courseOrder|
        invariant i <= |courseOrder|
        invariant recs == ValuesInOrder(courseOrder[..i], m)
      {
        var k := courseOrder[i];
        assert courseOrder[..i + 1][..i] == courseOrder[..i];
        if k in courses {
          recs := recs + [courses[k].ToRecord()];
        }
        i := i + 1;
      }
      assert courseOrder[..i] == courseOrder;
    }

    /** `load_from_file`; `None` stands for a missing file. */
    method Load(snap: Option<Snapshot>) returns (o: Outcome)
      requires Valid()
      modifies this
      ensures Valid()
      ensures var st := RegistryModel.Load(old(View()), snap);
        o == st.outcome && View() == st.after
      ensures snap.None? || FirstFailure(snap.value.students, StudentCheck).Fail? ==>
        students == old(students) && instructors == old(instructors) && courses == old(courses)
      ensures snap.Some? && FirstFailure(snap.value.students, StudentCheck).Pass? &&
              FirstFailure(snap.value.instructors, InstructorCheck).Fail? ==>
        instructors == old(instructors) && courses == old(courses)
      ensures snap.Some? && FirstFailure(snap.value.students, StudentCheck).Pass? &&
              FirstFailure(snap.value.instructors, InstructorCheck).Pass? &&
              FirstFailure(snap.value.courses, CourseCheck).Fail? ==>
        courses == old(courses)
    {
      if snap.None? {
        return Pass;
      }
      var s := snap.value;
      ghost var v := View();
      var ms, so, os := BuildStudents(s.students);
      if os.Fail? {
        return os;
      }
      ReplaceStudents(ms, so);
      ghost var v1 := v.(students := AsPlain(ByKey(s.students, StudentId)),
                         studentOrder := KeysInOrder(s.students, StudentId));
      assert View() == v1;
      var mi, io, oi := BuildInstructors(s.instructors);
      if oi.Fail? {
        return oi;
      }
      ReplaceInstructors(mi, io);
      ghost var v2 := v1.(instructors := ByKey(s.instructors, InstructorId),
                          instructorOrder := KeysInOrder(s.instructors, InstructorId));
      assert View() == v2;
      var mc, co, oc := BuildCourses(s.courses);
      if oc.Fail? {
        return oc;
      }
      ReplaceCourses(mc, co, s.nextPersonId, s.nextCourseId);
      return Pass;
    }

    method ReplaceStudents(m: map<int, Students.Student>, order: seq<int>)
      requires Valid() && Distinct(m)
      modifies this
      ensures Valid()
      ensures View() == old(View()).(students := old(StudentEntries(m)), studentOrder := order)
      ensures students == m && instructors == old(instructors) && courses == old(courses)
    {
      ghost var v := View();
      ghost var e := StudentEntries(m);
      students := m;
      studentOrder := order;
      assert StudentEntries(students) == e;
      assert InstructorRecords(instructors) == v.instructors;
      assert CourseRecords(courses) == v.courses;
    }

    method ReplaceInstructors(m: map<int, Instructors.Instructor>, order: seq<int>)
      requires Valid() && Distinct(m)
      modifies this
      ensures Valid()
      ensures View() == old(View()).(instructors := old(InstructorRecords(m)), instructorOrder := order)
      ensures instructors == m && students == old(students) && courses == old(courses)
    {
      ghost var v := View();
      ghost var e := InstructorRecords(m);
      instructors := m;
      instructorOrder := order;
      assert InstructorRecords(instructors) == e;
      assert StudentEntries(students) == v.students;
      assert CourseRecords(courses) == v.courses;
    }

    method ReplaceCourses(m: map<int, Courses.Course>, order: seq<int>, nextPerson: int, nextCourse: int)
      requires Valid() && Distinct(m)
      modifies this
      ensures Valid()
      ensures View() == old(View()).(courses := old(CourseRecords(m)), courseOrder := order,
                                      nextPersonId := nextPerson, nextCourseId := nextCourse)
      ensures courses == m && students == old(students) && instructors == old(instructors)
    {
      ghost var v := View();
      ghost var e := CourseRecords(m);
      courses := m;
      courseOrder := order;
      nextPersonId := nextPerson;
      nextCourseId := nextCourse;
      assert CourseRecords(courses) == e;
      assert StudentEntries(students) == v.students;
      assert InstructorRecords(instructors) == v.instructors;
    }
  }
}

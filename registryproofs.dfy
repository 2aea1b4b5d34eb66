/** What the registry's operations promise, proved about the value model:
    every operation keeps the registry well formed, every operation but
    `load` keeps the cross-entity rules (`Integrity`), each says exactly
    what it changes, and under those rules none of them fails half-way. */
module RegistryProofs {
  import opened Results
  import opened Utils
  import opened Lists
  import opened RegistryModel
  import Courses
  import Students
  import Instructors

  /** A new registry is empty, both counters are 1, and it satisfies the rules. */
  lemma EmptyProperties()
    ensures Integrity(Empty())
    ensures Empty().students == map[] && Empty().instructors == map[] && Empty().courses == map[]
    ensures Empty().nextPersonId == 1 && Empty().nextCourseId == 1
  {
  }

  // =====================================================================
  // Well-formedness: kept by every operation, whatever state it starts from

  lemma CreateStudentKeepsWellFormed(r: RegistryState, name: string, email: string, age: int, year: int,
                                     studentType: string)
    requires WellFormed(r)
    ensures WellFormed(CreateStudent(r, name, email, age, year, studentType).after)
  {
    InsertedIsOrder(r.studentOrder, r.students.Keys, r.nextPersonId);
  }

  lemma CreateInstructorKeepsWellFormed(r: RegistryState, name: string, email: string)
    requires WellFormed(r)
    ensures WellFormed(CreateInstructor(r, name, email).after)
  {
    InsertedIsOrder(r.instructorOrder, r.instructors.Keys, r.nextPersonId);
  }

  lemma CourseAddedWellFormed(order: seq<int>, m: map<int, Courses.CourseRecord>, c: Courses.CourseRecord)
    requires CoursesWellFormed(order, m) && CourseCheck(c).Pass?
    ensures CoursesWellFormed(Inserted(order, m.Keys, c.id), m[c.id := c])
  {
    InsertedIsOrder(order, m.Keys, c.id);
  }

  lemma CoursesAssignedWellFormed(order: seq<int>, m: map<int, Instructors.InstructorRecord>, iid: int, cs: seq<int>)
    requires InstructorsWellFormed(order, m) && iid in m
    ensures InstructorsWellFormed(order, m[iid := m[iid].(courses := cs)])
  {
  }

  lemma CreateCourseKeepsWellFormed(r: RegistryState, title: string, description: string,
                                    instructorId: Option<int>, year: Option<int>)
    requires WellFormed(r)
    ensures WellFormed(CreateCourse(r, title, description, instructorId, year).after)
  {
    var id := r.nextCourseId;
    if !(instructorId.Some? && instructorId.value !in r.instructors) && Courses.Check(title, description).Pass? {
      var c := Courses.CourseRecord(id, title, description, year, instructorId, [], map[]);
      CourseAddedWellFormed(r.courseOrder, r.courses, c);
      if instructorId.Some? {
        var iid := instructorId.value;
        CoursesAssignedWellFormed(r.instructorOrder, r.instructors, iid, r.instructors[iid].courses + [id]);
      }
    }
  }

  lemma EnrollKeepsWellFormed(r: RegistryState, sid: int, cid: int)
    requires WellFormed(r)
    ensures WellFormed(EnrollStudentInCourse(r, sid, cid).after)
  {
  }

  lemma UnenrollKeepsWellFormed(r: RegistryState, sid: int, cid: int)
    requires WellFormed(r)
    ensures WellFormed(UnenrollStudentFromCourse(r, sid, cid).after)
  {
    if sid in r.students && cid in r.courses {
      var c := Courses.UnenrollStep(r.courses[cid], sid);
      if c.Ok? {
        CourseUpdateWellFormed(r.courseOrder, r.courses, cid, c.value);
        var s := r.students[sid];
        var u := Students.UnenrollStep(s.fields, cid);
        if u.Ok? {
          StudentUpdateWellFormed(r.studentOrder, r.students, sid, s.(fields := u.value));
        }
      }
    }
  }

  /** Replacing a course by one with the same id, title and description
      keeps the collection well formed. */
  lemma CourseUpdateWellFormed(order: seq<int>, m: map<int, Courses.CourseRecord>, cid: int, c: Courses.CourseRecord)
    requires CoursesWellFormed(order, m) && cid in m
    requires c.id == cid && c.title == m[cid].title && c.description == m[cid].description
    ensures CoursesWellFormed(order, m[cid := c])
  {
    assert m[cid := c].Keys == m.Keys;
  }

  /** Replacing a student by one with the same id, name, email and age
      keeps the collection well formed. */
  lemma StudentUpdateWellFormed(order: seq<int>, m: map<int, StudentEntry>, sid: int, e: StudentEntry)
    requires StudentsWellFormed(order, m) && sid in m
    requires e.fields.id == sid && e.fields.name == m[sid].fields.name
    requires e.fields.email == m[sid].fields.email && e.fields.age == m[sid].fields.age
    ensures StudentsWellFormed(order, m[sid := e])
  {
    assert m[sid := e].Keys == m.Keys;
  }

  lemma SetGradeKeepsWellFormed(r: RegistryState, iid: int, cid: int, sid: int, grade: real)
    requires WellFormed(r)
    ensures WellFormed(SetGrade(r, iid, cid, sid, grade).after)
  {
  }

  /** A collection rebuilt from records that all pass their checks is well
      formed: keys are ids, the order lists each key once. */
  lemma LoadedStudentsWellFormed(recs: seq<Students.StudentRecord>)
    requires FirstFailure(recs, StudentCheck).Pass?
    ensures IsOrderOf(KeysInOrder(recs, StudentId), AsPlain(ByKey(recs, StudentId)).Keys)
    ensures var m := AsPlain(ByKey(recs, StudentId));
      forall k :: k in m ==> m[k].fields.id == k && StudentCheck(m[k].fields).Pass?
  {
    KeysInOrderIsOrder(recs, StudentId);
    ByKeyEntries(recs, StudentId);
  }

  lemma LoadedInstructorsWellFormed(recs: seq<Instructors.InstructorRecord>)
    requires FirstFailure(recs, InstructorCheck).Pass?
    ensures IsOrderOf(KeysInOrder(recs, InstructorId), ByKey(recs, InstructorId).Keys)
    ensures var m := ByKey(recs, InstructorId);
      forall k :: k in m ==> m[k].id == k && InstructorCheck(m[k]).Pass?
  {
    KeysInOrderIsOrder(recs, InstructorId);
    ByKeyEntries(recs, InstructorId);
  }

  lemma LoadedCoursesWellFormed(recs: seq<Courses.CourseRecord>)
    requires FirstFailure(recs, CourseCheck).Pass?
    ensures IsOrderOf(KeysInOrder(recs, CourseId), ByKey(recs, CourseId).Keys)
    ensures var m := ByKey(recs, CourseId);
      forall k :: k in m ==> m[k].id == k && CourseCheck(m[k]).Pass?
  {
    KeysInOrderIsOrder(recs, CourseId);
    ByKeyEntries(recs, CourseId);
  }

  /** `load_from_file` leaves a well-formed registry, whatever the document
      holds and however far the load gets. */
  lemma LoadKeepsWellFormed(r: RegistryState, snap: Option<Snapshot>)
    requires WellFormed(r)
    ensures WellFormed(Load(r, snap).after)
  {
    if snap.Some? {
      var s := snap.value;
      if FirstFailure(s.students, StudentCheck).Pass? {
        LoadedStudentsWellFormed(s.students);
        assert StudentsWellFormed(KeysInOrder(s.students, StudentId), AsPlain(ByKey(s.students, StudentId)));
        if FirstFailure(s.instructors, InstructorCheck).Pass? {
          LoadedInstructorsWellFormed(s.instructors);
          assert InstructorsWellFormed(KeysInOrder(s.instructors, InstructorId), ByKey(s.instructors, InstructorId));
          if FirstFailure(s.courses, CourseCheck).Pass? {
            LoadedCoursesWellFormed(s.courses);
            assert CoursesWellFormed(KeysInOrder(s.courses, CourseId), ByKey(s.courses, CourseId));
          }
        }
      }
    }
  }

  // =====================================================================
  // create_student, create_instructor

  // Each rule depends on a few fields only; the helpers below re-establish
  // one rule at a time from just the facts it needs.

  lemma NewStudentKeepsRules(r: RegistryState, r': RegistryState, id: int, e: StudentEntry)
    requires IdsFromCounters(r) && EntitiesValid(r) && EnrollmentsMatch(r.students, r.courses)
    requires id == r.nextPersonId && e.fields.enrollments == []
    requires r'.students == r.students[id := e] && r'.nextPersonId == id + 1
    requires r'.instructors == r.instructors && r'.courses == r.courses && r'.nextCourseId == r.nextCourseId
    ensures IdsFromCounters(r') && EntitiesValid(r') && EnrollmentsMatch(r'.students, r'.courses)
  {
    assert IdsFromCounters(r');
    assert StudentsValid(r'.students);
    assert id !in r.students;
    NewStudentKeepsEnrollments(r.students, r.courses, id, e);
  }

  lemma NewStudentKeepsEnrollments(students: map<int, StudentEntry>, courses: map<int, Courses.CourseRecord>,
                                   id: int, e: StudentEntry)
    requires EnrollmentsMatch(students, courses) && id !in students && e.fields.enrollments == []
    ensures EnrollmentsMatch(students[id := e], courses)
  {
  }

  /** `create_student` stores the new student under the old person counter,
      as a new key at the end of the order, advances that counter by one,
      picks the class from `student_type`, touches nothing else, and keeps
      the rules; when the constructor raises, nothing changes. */
  lemma CreateStudentProperties(r: RegistryState, name: string, email: string, age: int, year: int, studentType: string)
    requires Integrity(r)
    ensures var st := CreateStudent(r, name, email, age, year, studentType);
      var id := r.nextPersonId;
      && Integrity(st.after)
      && st.outcome == Students.Check(name, email, age)
      && (st.outcome.Fail? ==> st.after == r)
      && (st.outcome.Pass? ==>
            && id !in r.students && id !in r.instructors
            && st.after.students.Keys == r.students.Keys + {id}
            && st.after.students == r.students[id := StudentEntry(Students.SelectClass(studentType),
                 Students.StudentRecord(id, name, email, age, year, [],
                                        Students.DefaultType(Students.SelectClass(studentType))))]
            && st.after.students[id].cls == Students.SelectClass(studentType)
            && st.after.students[id].fields ==
                 Students.StudentRecord(id, name, email, age, year, [],
                                        Students.DefaultType(Students.SelectClass(studentType)))
            && st.after.studentOrder == r.studentOrder + [id]
            && st.after.nextPersonId == id + 1
            && st.after.(students := r.students, studentOrder := r.studentOrder, nextPersonId := id) == r)
  {
    var st := CreateStudent(r, name, email, age, year, studentType);
    var id := r.nextPersonId;
    CreateStudentKeepsWellFormed(r, name, email, age, year, studentType);
    if st.outcome.Pass? {
      assert id !in r.students;
      NewStudentKeepsRules(r, st.after, id, st.after.students[id]);
    }
  }

  lemma NewInstructorKeepsRules(r: RegistryState, r': RegistryState, id: int, i: Instructors.InstructorRecord)
    requires IdsFromCounters(r) && EntitiesValid(r) && OwnershipMatches(r.instructors, r.courses)
    requires id == r.nextPersonId && i.courses == []
    requires r'.instructors == r.instructors[id := i] && r'.nextPersonId == id + 1
    requires r'.students == r.students && r'.courses == r.courses && r'.nextCourseId == r.nextCourseId
    ensures IdsFromCounters(r') && EntitiesValid(r') && OwnershipMatches(r'.instructors, r'.courses)
  {
    assert IdsFromCounters(r');
    assert InstructorsValid(r'.instructors);
    assert id !in r.instructors;
    NewInstructorKeepsOwnership(r.instructors, r.courses, id, i);
  }

  lemma NewInstructorKeepsOwnership(instructors: map<int, Instructors.InstructorRecord>,
                                    courses: map<int, Courses.CourseRecord>, id: int, i: Instructors.InstructorRecord)
    requires OwnershipMatches(instructors, courses) && id !in instructors && i.courses == []
    ensures OwnershipMatches(instructors[id := i], courses)
  {
  }

  /** `create_instructor`: the same shape as `create_student`, sharing its
      counter, with an empty course list. */
  lemma CreateInstructorProperties(r: RegistryState, name: string, email: string)
    requires Integrity(r)
    ensures var st := CreateInstructor(r, name, email);
      var id := r.nextPersonId;
      && Integrity(st.after)
      && st.outcome == Instructors.Check(name, email)
      && (st.outcome.Fail? ==> st.after == r)
      && (st.outcome.Pass? ==>
            && id !in r.students && id !in r.instructors
            && st.after.instructors == r.instructors[id := Instructors.InstructorRecord(id, name, email, [])]
            && st.after.instructorOrder == r.instructorOrder + [id]
            && st.after.nextPersonId == id + 1
            && st.after.(instructors := r.instructors, instructorOrder := r.instructorOrder, nextPersonId := id) == r)
  {
    var st := CreateInstructor(r, name, email);
    var id := r.nextPersonId;
    CreateInstructorKeepsWellFormed(r, name, email);
    if st.outcome.Pass? {
      assert id !in r.instructors;
      NewInstructorKeepsRules(r, st.after, id, st.after.instructors[id]);
    }
  }

  // =====================================================================
  // create_course

  lemma NewCourseKeepsEnrollments(students: map<int, StudentEntry>, courses: map<int, Courses.CourseRecord>,
                                  c: Courses.CourseRecord)
    requires EnrollmentsMatch(students, courses) && c.id !in courses && c.roster == []
    ensures EnrollmentsMatch(students, courses[c.id := c])
  {
  }

  lemma NewUnownedCourseKeepsOwnership(instructors: map<int, Instructors.InstructorRecord>,
                                       courses: map<int, Courses.CourseRecord>, c: Courses.CourseRecord)
    requires OwnershipMatches(instructors, courses) && c.id !in courses && c.instructorId.None?
    ensures OwnershipMatches(instructors, courses[c.id := c])
  {
  }

  lemma NewOwnedCourseKeepsOwnership(instructors: map<int, Instructors.InstructorRecord>,
                                     courses: map<int, Courses.CourseRecord>, c: Courses.CourseRecord, iid: int)
    requires OwnershipMatches(instructors, courses) && c.id !in courses
    requires c.instructorId == Some(iid) && iid in instructors
    ensures var inst := instructors[iid];
      OwnershipMatches(instructors[iid := inst.(courses := inst.courses + [c.id])], courses[c.id := c])
  {
  }

  /** The course id about to be used is free, so the instructor's
      `assign_course` cannot raise. */
  lemma NextCourseIdIsFree(r: RegistryState, iid: int)
    requires IdsFromCounters(r) && OwnershipMatches(r.instructors, r.courses) && iid in r.instructors
    ensures r.nextCourseId !in r.courses
    ensures r.nextCourseId !in r.instructors[iid].courses
  {
  }

  /** `create_course` raises with nothing changed for an unknown instructor
      or an empty title or description; otherwise it stores the course
      under the old course counter, appends that id to the instructor's
      courses, advances only the course counter, and keeps the rules. The
      half-way failure (course stored, assignment raising) cannot happen
      while the rules hold. */
  lemma CreateCourseProperties(r: RegistryState, title: string, description: string,
                               instructorId: Option<int>, year: Option<int>)
    requires Integrity(r)
    ensures var st := CreateCourse(r, title, description, instructorId, year);
      var id := r.nextCourseId;
      && Integrity(st.after)
      && (st.outcome.Fail? ==> st.after == r)
      && (instructorId.Some? && instructorId.value !in r.instructors ==> st.outcome == Fail(UnknownInstructor))
      && (st.outcome.Pass? <==>
            (instructorId.None? || instructorId.value in r.instructors) && Courses.Check(title, description).Pass?)
      && (st.outcome.Pass? ==>
            && id !in r.courses
            && st.after.courses == r.courses[id := Courses.CourseRecord(id, title, description, year, instructorId, [], map[])]
            && st.after.courseOrder == r.courseOrder + [id]
            && st.after.nextCourseId == id + 1
            && (instructorId.None? ==> st.after.instructors == r.instructors)
            && (instructorId.Some? ==>
                  var inst := r.instructors[instructorId.value];
                  st.after.instructors == r.instructors[instructorId.value := inst.(courses := inst.courses + [id])])
            && st.after.(courses := r.courses, courseOrder := r.courseOrder,
                         instructors := r.instructors, nextCourseId := id) == r)
  {
    CreateCourseEffects(r, title, description, instructorId, year);
    CreateCourseKeepsIntegrity(r, title, description, instructorId, year);
  }

  lemma CreateCourseEffects(r: RegistryState, title: string, description: string,
                            instructorId: Option<int>, year: Option<int>)
    requires IdsFromCounters(r) && OwnershipMatches(r.instructors, r.courses)
    ensures var st := CreateCourse(r, title, description, instructorId, year);
      var id := r.nextCourseId;
      && (st.outcome.Fail? ==> st.after == r)
      && (instructorId.Some? && instructorId.value !in r.instructors ==> st.outcome == Fail(UnknownInstructor))
      && (st.outcome.Pass? <==>
            (instructorId.None? || instructorId.value in r.instructors) && Courses.Check(title, description).Pass?)
      && (st.outcome.Pass? ==>
            && id !in r.courses
            && st.after.courses == r.courses[id := Courses.CourseRecord(id, title, description, year, instructorId, [], map[])]
            && st.after.courseOrder == r.courseOrder + [id]
            && st.after.nextCourseId == id + 1
            && (instructorId.None? ==> st.after.instructors == r.instructors)
            && (instructorId.Some? ==>
                  var inst := r.instructors[instructorId.value];
                  st.after.instructors == r.instructors[instructorId.value := inst.(courses := inst.courses + [id])])
            && st.after.(courses := r.courses, courseOrder := r.courseOrder,
                         instructors := r.instructors, nextCourseId := id) == r)
  {
    if instructorId.Some? && instructorId.value in r.instructors {
      NextCourseIdIsFree(r, instructorId.value);
      Instructors.AssignStepProperties(r.instructors[instructorId.value], r.nextCourseId);
    }
  }

  lemma CreateCourseKeepsIntegrity(r: RegistryState, title: string, description: string,
                                   instructorId: Option<int>, year: Option<int>)
    requires Integrity(r)
    ensures Integrity(CreateCourse(r, title, description, instructorId, year).after)
  {
    var st := CreateCourse(r, title, description, instructorId, year);
    var id := r.nextCourseId;
    CreateCourseKeepsWellFormed(r, title, description, instructorId, year);
    CreateCourseEffects(r, title, description, instructorId, year);
    if st.outcome.Pass? {
      var c := Courses.CourseRecord(id, title, description, year, instructorId, [], map[]);
      assert Courses.RecordValid(c);
      CoursesValidUpdate(r.courses, id, c);
      NewCourseKeepsEnrollments(r.students, r.courses, c);
      if instructorId.Some? {
        var iid := instructorId.value;
        var inst := r.instructors[iid];
        Instructors.AssignStepProperties(inst, id);
        assert InstructorsValid(r.instructors[iid := inst.(courses := inst.courses + [id])]);
        NewOwnedCourseKeepsOwnership(r.instructors, r.courses, c, iid);
      } else {
        NewUnownedCourseKeepsOwnership(r.instructors, r.courses, c);
      }
      assert IdsFromCounters(st.after);
    }
  }

  // =====================================================================
  // enroll_student_in_course, unenroll_student_from_course, set_grade

  /** Changing a course without touching its instructor keeps ownership. */
  lemma SameOwnerKeepsOwnership(instructors: map<int, Instructors.InstructorRecord>,
                                courses: map<int, Courses.CourseRecord>, cid: int, c: Courses.CourseRecord)
    requires OwnershipMatches(instructors, courses) && cid in courses
    requires c.instructorId == courses[cid].instructorId
    ensures OwnershipMatches(instructors, courses[cid := c])
  {
  }

  /** Changing a course without touching its roster keeps the enrollments. */
  lemma SameRosterKeepsEnrollments(students: map<int, StudentEntry>, courses: map<int, Courses.CourseRecord>,
                                   cid: int, c: Courses.CourseRecord)
    requires EnrollmentsMatch(students, courses) && cid in courses
    requires c.roster == courses[cid].roster
    ensures EnrollmentsMatch(students, courses[cid := c])
  {
  }

  lemma EnrollKeepsEnrollments(students: map<int, StudentEntry>, courses: map<int, Courses.CourseRecord>,
                               sid: int, cid: int)
    requires EnrollmentsMatch(students, courses) && sid in students && cid in courses
    requires sid !in courses[cid].roster
    ensures var s := students[sid];
      var c := courses[cid];
      EnrollmentsMatch(students[sid := s.(fields := Students.EnrollStep(s.fields, cid))],
                       courses[cid := c.(roster := c.roster + [sid])])
  {
  }

  /** Under the rules, `enroll_student_in_course` succeeds exactly when both
      exist and the student is not yet on the roster; it raises before any
      change otherwise; on success both sides record the enrollment, nothing
      else changes, and the rules still hold. Enrolling the same pair again
      raises. */
  lemma EnrollProperties(r: RegistryState, sid: int, cid: int)
    requires Integrity(r)
    ensures var st := EnrollStudentInCourse(r, sid, cid);
      && Integrity(st.after)
      && (st.outcome.Fail? ==> st.after == r)
      && (sid !in r.students ==> st.outcome == Fail(UnknownStudent))
      && (sid in r.students && cid !in r.courses ==> st.outcome == Fail(UnknownCourse))
      && (st.outcome.Pass? <==> sid in r.students && cid in r.courses && sid !in r.courses[cid].roster)
      && (st.outcome.Pass? ==>
            && st.after.courses[cid].roster == r.courses[cid].roster + [sid]
            && st.after.students[sid].fields.enrollments == r.students[sid].fields.enrollments + [Students.Enrollment(cid)]
            && st.after.courses == r.courses[cid := r.courses[cid].(roster := r.courses[cid].roster + [sid])]
            && st.after.students == r.students[sid := r.students[sid].(fields := r.students[sid].fields.(
                 enrollments := r.students[sid].fields.enrollments + [Students.Enrollment(cid)]))]
            && st.after.students.Keys == r.students.Keys && st.after.courses.Keys == r.courses.Keys
            && st.after.(students := r.students, courses := r.courses) == r
            && EnrollStudentInCourse(st.after, sid, cid) == Step(Fail(AlreadyEnrolled), st.after))
  {
    EnrollEffects(r, sid, cid);
    EnrollKeepsIntegrity(r, sid, cid);
  }

  /** What `enroll_student_in_course` does, on any registry. */
  lemma EnrollEffects(r: RegistryState, sid: int, cid: int)
    ensures var st := EnrollStudentInCourse(r, sid, cid);
      && (st.outcome.Fail? ==> st.after == r)
      && (sid !in r.students ==> st.outcome == Fail(UnknownStudent))
      && (sid in r.students && cid !in r.courses ==> st.outcome == Fail(UnknownCourse))
      && (st.outcome.Pass? <==> sid in r.students && cid in r.courses && sid !in r.courses[cid].roster)
      && (st.outcome.Pass? ==>
            && st.after.courses[cid].roster == r.courses[cid].roster + [sid]
            && st.after.students[sid].fields.enrollments == r.students[sid].fields.enrollments + [Students.Enrollment(cid)]
            && st.after.courses == r.courses[cid := r.courses[cid].(roster := r.courses[cid].roster + [sid])]
            && st.after.students == r.students[sid := r.students[sid].(fields := r.students[sid].fields.(
                 enrollments := r.students[sid].fields.enrollments + [Students.Enrollment(cid)]))]
            && st.after.students.Keys == r.students.Keys && st.after.courses.Keys == r.courses.Keys
            && st.after.(students := r.students, courses := r.courses) == r
            && EnrollStudentInCourse(st.after, sid, cid) == Step(Fail(AlreadyEnrolled), st.after))
  {
  }

  lemma EnrollKeepsIntegrity(r: RegistryState, sid: int, cid: int)
    requires Integrity(r)
    ensures Integrity(EnrollStudentInCourse(r, sid, cid).after)
  {
    var st := EnrollStudentInCourse(r, sid, cid);
    EnrollKeepsWellFormed(r, sid, cid);
    EnrollEffects(r, sid, cid);
    if st.outcome.Pass? {
      var s := r.students[sid];
      var c := r.courses[cid];
      assert Students.Enrollment(cid) !in s.fields.enrollments;
      Students.EnrollStepProperties(s.fields, cid);
      Courses.EnrollStepProperties(c, sid);
      StudentsValidUpdate(r.students, sid, st.after.students[sid]);
      CoursesValidUpdate(r.courses, cid, st.after.courses[cid]);
      EnrollKeepsEnrollments(r.students, r.courses, sid, cid);
      SameOwnerKeepsOwnership(r.instructors, r.courses, cid, st.after.courses[cid]);
      SameKeysKeepCounters(r, st.after);
    }
  }

  /** The counters bound the ids as long as the keys and counters stay. */
  lemma SameKeysKeepCounters(r: RegistryState, r': RegistryState)
    requires IdsFromCounters(r)
    requires r'.students.Keys == r.students.Keys && r'.instructors.Keys == r.instructors.Keys
    requires r'.courses.Keys == r.courses.Keys
    requires r'.nextPersonId == r.nextPersonId && r'.nextCourseId == r.nextCourseId
    ensures IdsFromCounters(r')
  {
  }

  lemma StudentsValidUpdate(m: map<int, StudentEntry>, sid: int, e: StudentEntry)
    requires StudentsValid(m) && Students.RecordValid(e.fields)
    ensures StudentsValid(m[sid := e])
  {
  }

  lemma CoursesValidUpdate(m: map<int, Courses.CourseRecord>, cid: int, c: Courses.CourseRecord)
    requires CoursesValid(m) && Courses.RecordValid(c)
    ensures CoursesValid(m[cid := c])
  {
  }

  lemma UnenrollKeepsEnrollments(students: map<int, StudentEntry>, courses: map<int, Courses.CourseRecord>,
                                 sid: int, cid: int)
    requires EnrollmentsMatch(students, courses) && StudentsValid(students) && CoursesValid(courses)
    requires sid in students && cid in courses && sid in courses[cid].roster
    ensures Students.Enrollment(cid) in students[sid].fields.enrollments
    ensures var s := students[sid];
      var c := courses[cid];
      EnrollmentsMatch(students[sid := s.(fields := Students.UnenrollStep(s.fields, cid).value)],
                       courses[cid := Courses.UnenrollStep(c, sid).value])
  {
    var s := students[sid];
    var c := courses[cid];
    Students.UnenrollStepProperties(s.fields, cid);
    Courses.UnenrollStepProperties(c, sid);
  }

  /** Under the rules, `unenroll_student_from_course` succeeds exactly when
      both exist and the student is on the roster; the student side then
      cannot raise, so a failure changes nothing; on success both sides
      forget the enrollment and the grade, and the rules still hold.
      Unenrolling the same pair again raises. */
  lemma UnenrollProperties(r: RegistryState, sid: int, cid: int)
    requires Integrity(r)
    ensures var st := UnenrollStudentFromCourse(r, sid, cid);
      && Integrity(st.after)
      && (st.outcome.Fail? ==> st.after == r)
      && (sid !in r.students ==> st.outcome == Fail(UnknownStudent))
      && (sid in r.students && cid !in r.courses ==> st.outcome == Fail(UnknownCourse))
      && (st.outcome.Pass? <==> sid in r.students && cid in r.courses && sid in r.courses[cid].roster)
      && (st.outcome.Pass? ==>
            && sid !in st.after.courses[cid].roster
            && sid !in st.after.courses[cid].grades
            && Students.Enrollment(cid) !in st.after.students[sid].fields.enrollments
            && st.after.courses == r.courses[cid := r.courses[cid].(
                 roster := RemoveFirst(r.courses[cid].roster, sid), grades := r.courses[cid].grades - {sid})]
            && st.after.students == r.students[sid := r.students[sid].(fields := r.students[sid].fields.(
                 enrollments := RemoveFirst(r.students[sid].fields.enrollments, Students.Enrollment(cid))))]
            && st.after.students.Keys == r.students.Keys && st.after.courses.Keys == r.courses.Keys
            && st.after.(students := r.students, courses := r.courses) == r
            && UnenrollStudentFromCourse(st.after, sid, cid) == Step(Fail(NotEnrolled), st.after))
  {
    UnenrollEffects(r, sid, cid);
    UnenrollKeepsIntegrity(r, sid, cid);
  }

  /** What `unenroll_student_from_course` does when rosters and enrollments
      match and neither holds duplicates. */
  lemma UnenrollEffects(r: RegistryState, sid: int, cid: int)
    requires EnrollmentsMatch(r.students, r.courses) && StudentsValid(r.students) && CoursesValid(r.courses)
    ensures var st := UnenrollStudentFromCourse(r, sid, cid);
      && (st.outcome.Fail? ==> st.after == r)
      && (sid !in r.students ==> st.outcome == Fail(UnknownStudent))
      && (sid in r.students && cid !in r.courses ==> st.outcome == Fail(UnknownCourse))
      && (st.outcome.Pass? <==> sid in r.students && cid in r.courses && sid in r.courses[cid].roster)
      && (st.outcome.Pass? ==>
            && sid !in st.after.courses[cid].roster
            && sid !in st.after.courses[cid].grades
            && Students.Enrollment(cid) !in st.after.students[sid].fields.enrollments
            && st.after.courses == r.courses[cid := r.courses[cid].(
                 roster := RemoveFirst(r.courses[cid].roster, sid), grades := r.courses[cid].grades - {sid})]
            && st.after.students == r.students[sid := r.students[sid].(fields := r.students[sid].fields.(
                 enrollments := RemoveFirst(r.students[sid].fields.enrollments, Students.Enrollment(cid))))]
            && st.after.students.Keys == r.students.Keys && st.after.courses.Keys == r.courses.Keys
            && st.after.(students := r.students, courses := r.courses) == r
            && UnenrollStudentFromCourse(st.after, sid, cid) == Step(Fail(NotEnrolled), st.after))
  {
    if sid in r.students && cid in r.courses && sid in r.courses[cid].roster {
      var s := r.students[sid];
      var c := r.courses[cid];
      assert Students.Enrollment(cid) in s.fields.enrollments;
      Students.UnenrollStepProperties(s.fields, cid);
      Courses.UnenrollStepProperties(c, sid);
    }
  }

  lemma UnenrollKeepsIntegrity(r: RegistryState, sid: int, cid: int)
    requires Integrity(r)
    ensures Integrity(UnenrollStudentFromCourse(r, sid, cid).after)
  {
    var st := UnenrollStudentFromCourse(r, sid, cid);
    UnenrollKeepsWellFormed(r, sid, cid);
    UnenrollEffects(r, sid, cid);
    if st.outcome.Pass? {
      var s := r.students[sid];
      var c := r.courses[cid];
      UnenrollKeepsEnrollments(r.students, r.courses, sid, cid);
      Students.UnenrollStepProperties(s.fields, cid);
      Courses.UnenrollStepProperties(c, sid);
      StudentsValidUpdate(r.students, sid, st.after.students[sid]);
      CoursesValidUpdate(r.courses, cid, st.after.courses[cid]);
      SameOwnerKeepsOwnership(r.instructors, r.courses, cid, st.after.courses[cid]);
      SameKeysKeepCounters(r, st.after);
    }
  }

  /** Enrolling a student who has neither the enrollment, a roster place
      nor a grade, and then unenrolling them, gives back the registry
      exactly as it was. */
  lemma EnrollThenUnenrollRestores(r: RegistryState, sid: int, cid: int)
    requires sid in r.students && cid in r.courses
    requires sid !in r.courses[cid].roster && sid !in r.courses[cid].grades
    requires Students.Enrollment(cid) !in r.students[sid].fields.enrollments
    ensures UnenrollStudentFromCourse(EnrollStudentInCourse(r, sid, cid).after, sid, cid) == Step(Pass, r)
  {
    var s := r.students[sid];
    var c := r.courses[cid];
    Courses.EnrollThenUnenroll(c, sid);
    Students.UnenrollStepProperties(s.fields, cid);
    var c1 := Courses.EnrollStep(c, sid).value;
    var s1 := s.(fields := Students.EnrollStep(s.fields, cid));
    var r1 := r.(courses := r.courses[cid := c1], students := r.students[sid := s1]);
    assert EnrollStudentInCourse(r, sid, cid) == Step(Pass, r1);
    MapUpdateRestores(r.courses, cid, c1);
    MapUpdateRestores(r.students, sid, s1);
    assert UnenrollStudentFromCourse(r1, sid, cid) == Step(Pass, r1.(courses := r.courses, students := r.students));
  }

  /** Writing a dict entry and then writing back the old value gives the dict. */
  lemma MapUpdateRestores<K, V>(m: map<K, V>, k: K, x: V)
    requires k in m
    ensures m[k := x][k := m[k]] == m
  {
  }

  /** Under the rules, every successful enrollment is undone exactly by
      the matching unenrollment. */
  lemma EnrollThenUnenroll(r: RegistryState, sid: int, cid: int)
    requires Integrity(r)
    requires EnrollStudentInCourse(r, sid, cid).outcome.Pass?
    ensures UnenrollStudentFromCourse(EnrollStudentInCourse(r, sid, cid).after, sid, cid) == Step(Pass, r)
  {
    assert Students.Enrollment(cid) !in r.students[sid].fields.enrollments;
    assert sid !in r.courses[cid].grades;
    EnrollThenUnenrollRestores(r, sid, cid);
  }

  /** Under the rules, `set_grade` succeeds exactly for an existing course
      whose instructor is the caller, a student on its roster and a grade in
      [0, 100]; it changes only that grade; a failure changes nothing, and
      a course without an instructor can never be graded. */
  lemma SetGradeProperties(r: RegistryState, iid: int, cid: int, sid: int, grade: real)
    requires Integrity(r)
    ensures var st := SetGrade(r, iid, cid, sid, grade);
      && Integrity(st.after)
      && (st.outcome.Fail? ==> st.after == r)
      && (cid !in r.courses ==> st.outcome == Fail(UnknownCourse))
      && (cid in r.courses && r.courses[cid].instructorId != Some(iid) ==> st.outcome == Fail(NotCourseInstructor))
      && (st.outcome.Pass? <==>
            && cid in r.courses && r.courses[cid].instructorId == Some(iid)
            && sid in r.courses[cid].roster && 0.0 <= grade <= 100.0)
      && (cid in r.courses && r.courses[cid].instructorId.None? ==> st.outcome.Fail?)
      && (st.outcome.Pass? ==>
            && st.after.courses == r.courses[cid := r.courses[cid].(grades := r.courses[cid].grades[sid := grade])]
            && st.after.(courses := r.courses) == r)
  {
    SetGradeEffects(r, iid, cid, sid, grade);
    SetGradeKeepsIntegrity(r, iid, cid, sid, grade);
  }

  lemma SetGradeEffects(r: RegistryState, iid: int, cid: int, sid: int, grade: real)
    ensures var st := SetGrade(r, iid, cid, sid, grade);
      && (st.outcome.Fail? ==> st.after == r)
      && (cid !in r.courses ==> st.outcome == Fail(UnknownCourse))
      && (cid in r.courses && r.courses[cid].instructorId != Some(iid) ==> st.outcome == Fail(NotCourseInstructor))
      && (st.outcome.Pass? <==>
            && cid in r.courses && r.courses[cid].instructorId == Some(iid)
            && sid in r.courses[cid].roster && 0.0 <= grade <= 100.0)
      && (cid in r.courses && r.courses[cid].instructorId.None? ==> st.outcome.Fail?)
      && (st.outcome.Pass? ==>
            && st.after.courses == r.courses[cid := r.courses[cid].(grades := r.courses[cid].grades[sid := grade])]
            && st.after.(courses := r.courses) == r)
  {
    if cid in r.courses {
      Courses.GradeStepProperties(r.courses[cid], sid, grade);
    }
  }

  lemma SetGradeKeepsIntegrity(r: RegistryState, iid: int, cid: int, sid: int, grade: real)
    requires Integrity(r)
    ensures Integrity(SetGrade(r, iid, cid, sid, grade).after)
  {
    var st := SetGrade(r, iid, cid, sid, grade);
    SetGradeKeepsWellFormed(r, iid, cid, sid, grade);
    SetGradeEffects(r, iid, cid, sid, grade);
    if st.outcome.Pass? {
      Courses.GradeStepProperties(r.courses[cid], sid, grade);
      CoursesValidUpdate(r.courses, cid, st.after.courses[cid]);
      SameRosterKeepsEnrollments(r.students, r.courses, cid, st.after.courses[cid]);
      SameOwnerKeepsOwnership(r.instructors, r.courses, cid, st.after.courses[cid]);
      SameKeysKeepCounters(r, st.after);
    }
  }

  // =====================================================================
  // find_students_by_email

  /** The student under `id` exists and has `email`, ignoring letter case. */
  ghost predicate HasEmail(students: map<int, StudentEntry>, id: int, email: string)
  {
    id in students && Lower(students[id].fields.email) == Lower(email)
  }

  /** The search looks only at the lower-cased query. */
  lemma {:induction false} FindIgnoresCase(order: seq<int>, students: map<int, StudentEntry>, e1: string, e2: string)
    requires Lower(e1) == Lower(e2)
    ensures FindStudentByEmail(order, students, e1) == FindStudentByEmail(order, students, e2)
  {
    if order != [] {
      FindIgnoresCase(order[1..], students, e1, e2);
    }
  }

  /** `find_students_by_email` returns None exactly when no student in the
      order has the email, and otherwise the first one (in insertion order)
      that does; the query's letter case does not matter. */
  lemma {:induction false} FindStudentByEmailSpec(order: seq<int>, students: map<int, StudentEntry>, email: string)
    ensures var found := FindStudentByEmail(order, students, email);
      && (found.None? <==> forall i :: 0 <= i < |order| ==> !HasEmail(students, order[i], email))
      && (found.Some? ==>
            exists i :: 0 <= i < |order| && order[i] == found.value && HasEmail(students, order[i], email)
                        && forall j :: 0 <= j < i ==> !HasEmail(students, order[j], email))
      && FindStudentByEmail(order, students, Lower(email)) == found
  {
    LowerIdempotent(email);
    FindIgnoresCase(order, students, Lower(email), email);
    if order != [] {
      var rest := order[1..];
      FindStudentByEmailSpec(rest, students, email);
      assert forall i :: 1 <= i < |order| ==> order[i] == rest[i - 1];
      var found := FindStudentByEmail(order, students, email);
      if !HasEmail(students, order[0], email) && found.Some? {
        var i :| 0 <= i < |rest| && rest[i] == found.value && HasEmail(students, rest[i], email)
                 && forall j :: 0 <= j < i ==> !HasEmail(students, rest[j], email);
        assert order[i + 1] == found.value;
        assert forall j :: 0 <= j < i + 1 ==> !HasEmail(students, order[j], email);
      }
      if HasEmail(students, order[0], email) {
        assert order[0] == found.value;
      }
    }
  }

  // =====================================================================
  // save_to_file, load_from_file

  lemma StudentFieldsWellFormed(order: seq<int>, m: map<int, StudentEntry>)
    requires StudentsWellFormed(order, m)
    ensures var fm := StudentFields(m);
      && NoDuplicates(order)
      && (forall k :: k in order <==> k in fm)
      && (forall k :: k in fm ==> fm[k].id == k && StudentCheck(fm[k]).Pass?)
  {
  }

  /** Saving a dict in insertion order and rebuilding it from the saved
      records passes every check and gives back the keys, their order and
      the values, provided each value sits under its own key and passes. */
  lemma RecordsRoundTrip<R>(order: seq<int>, m: map<int, R>, key: R -> int, check: R -> Outcome)
    requires NoDuplicates(order)
    requires forall k :: k in order <==> k in m
    requires forall k :: k in m ==> key(m[k]) == k && check(m[k]).Pass?
    ensures var vs := ValuesInOrder(order, m);
      && FirstFailure(vs, check).Pass?
      && KeysInOrder(vs, key) == order
      && ByKey(vs, key) == m
  {
    var vs := ValuesInOrder(order, m);
    RebuildFromValues(order, m, key);
    MapOverKeys(order, m);
    ValuesInOrderMembers(order, m);
    forall i | 0 <= i < |vs|
      ensures check(vs[i]).Pass?
    {
      assert vs[i] in m.Values;
      var k :| k in m && m[k] == vs[i];
    }
  }

  lemma MapOverKeys<R>(order: seq<int>, m: map<int, R>)
    requires forall k :: k in order <==> k in m
    ensures (map k | k in order :: m[k]) == m
  {
    var rebuilt := map k | k in order :: m[k];
    assert forall k :: k in rebuilt <==> k in m;
  }

  lemma StudentsRoundTrip(order: seq<int>, m: map<int, StudentEntry>)
    requires StudentsWellFormed(order, m)
    ensures var vs := ValuesInOrder(order, StudentFields(m));
      && FirstFailure(vs, StudentCheck).Pass?
      && KeysInOrder(vs, StudentId) == order
      && ByKey(vs, StudentId) == StudentFields(m)
  {
    StudentFieldsWellFormed(order, m);
    RecordsRoundTrip(order, StudentFields(m), StudentId, StudentCheck);
  }

  lemma InstructorsRoundTrip(order: seq<int>, m: map<int, Instructors.InstructorRecord>)
    requires InstructorsWellFormed(order, m)
    ensures var vs := ValuesInOrder(order, m);
      && FirstFailure(vs, InstructorCheck).Pass?
      && KeysInOrder(vs, InstructorId) == order
      && ByKey(vs, InstructorId) == m
  {
    assert forall k :: k in order <==> k in m;
    RecordsRoundTrip(order, m, InstructorId, InstructorCheck);
  }

  lemma CoursesRoundTrip(order: seq<int>, m: map<int, Courses.CourseRecord>)
    requires CoursesWellFormed(order, m)
    ensures var vs := ValuesInOrder(order, m);
      && FirstFailure(vs, CourseCheck).Pass?
      && KeysInOrder(vs, CourseId) == order
      && ByKey(vs, CourseId) == m
  {
    assert forall k :: k in order <==> k in m;
    RecordsRoundTrip(order, m, CourseId, CourseCheck);
  }

  /** Loading what `save_to_file` wrote, into any registry, succeeds and
      rebuilds the saved registry: the same dicts in the same insertion
      order and the same counters. The one difference is that every student
      comes back as a plain `Student`. */
  lemma SaveLoadRoundTrip(r: RegistryState, r0: RegistryState)
    requires WellFormed(r)
    ensures Load(r0, Some(Save(r))) == Step(Pass, r.(students := AsPlain(StudentFields(r.students))))
  {
    StudentsRoundTrip(r.studentOrder, r.students);
    InstructorsRoundTrip(r.instructorOrder, r.instructors);
    CoursesRoundTrip(r.courseOrder, r.courses);
  }

  /** Two student dicts with the same keys and the same fields under each. */
  ghost predicate SameFields(m: map<int, StudentEntry>, m': map<int, StudentEntry>)
  {
    m'.Keys == m.Keys && forall k :: k in m ==> m'[k].fields == m[k].fields
  }

  lemma AsPlainSameFields(m: map<int, StudentEntry>)
    ensures SameFields(m, AsPlain(StudentFields(m)))
    ensures StudentFields(AsPlain(StudentFields(m))) == StudentFields(m)
  {
  }

  lemma SameFieldsWellFormed(order: seq<int>, m: map<int, StudentEntry>, m': map<int, StudentEntry>)
    requires SameFields(m, m') && StudentsWellFormed(order, m)
    ensures StudentsWellFormed(order, m')
  {
  }

  lemma SameFieldsValid(m: map<int, StudentEntry>, m': map<int, StudentEntry>)
    requires SameFields(m, m') && StudentsValid(m)
    ensures StudentsValid(m')
  {
  }

  lemma SameFieldsEnrollments(m: map<int, StudentEntry>, m': map<int, StudentEntry>,
                              courses: map<int, Courses.CourseRecord>)
    requires SameFields(m, m') && EnrollmentsMatch(m, courses)
    ensures EnrollmentsMatch(m', courses)
  {
  }

  /** Replacing each student's class by the base class keeps the rules
      about students, which depend on the fields alone. */
  lemma AsPlainKeepsStudentRules(order: seq<int>, m: map<int, StudentEntry>, courses: map<int, Courses.CourseRecord>)
    requires StudentsWellFormed(order, m) && StudentsValid(m) && EnrollmentsMatch(m, courses)
    ensures var m' := AsPlain(StudentFields(m));
      && m'.Keys == m.Keys
      && StudentFields(m') == StudentFields(m)
      && StudentsWellFormed(order, m') && StudentsValid(m') && EnrollmentsMatch(m', courses)
  {
    var m' := AsPlain(StudentFields(m));
    AsPlainSameFields(m);
    SameFieldsWellFormed(order, m, m');
    SameFieldsValid(m, m');
    SameFieldsEnrollments(m, m', courses);
  }

  lemma AsPlainKeepsIntegrity(r: RegistryState)
    requires Integrity(r)
    ensures var r' := r.(students := AsPlain(StudentFields(r.students)));
      && Integrity(r')
      && Save(r') == Save(r)
  {
    AsPlainKeepsStudentRules(r.studentOrder, r.students, r.courses);
    var r' := r.(students := AsPlain(StudentFields(r.students)));
    assert IdsFromCounters(r');
  }

  /** What the persistence test checks: a fresh registry loaded from a saved
      one has as many students and courses and the same person counter; it
      keeps the rules, and saving it again writes the same document. */
  lemma SaveLoadIntoFresh(r: RegistryState)
    requires Integrity(r)
    ensures var st := Load(Empty(), Some(Save(r)));
      && st.outcome == Pass
      && |st.after.students| == |r.students|
      && |st.after.courses| == |r.courses|
      && st.after.nextPersonId == r.nextPersonId
      && Integrity(st.after)
      && Save(st.after) == Save(r)
  {
    SaveLoadRoundTrip(r, Empty());
    AsPlainKeepsIntegrity(r);
    assert AsPlain(StudentFields(r.students)).Keys == r.students.Keys;
  }

  /** Without a file nothing changes. Otherwise the collections are
      replaced in the order students, instructors, courses, each with its
      own insertion order, and then both counters. The first collection
      with a raising constructor decides the error; the collections before
      it stay replaced, and it and everything after it stay as they were. */
  lemma LoadProperties(r: RegistryState, s: Snapshot)
    ensures Load(r, None) == Step(Pass, r)
    ensures var st := Load(r, Some(s));
      var o1 := FirstFailure(s.students, StudentCheck);
      var o2 := FirstFailure(s.instructors, InstructorCheck);
      var o3 := FirstFailure(s.courses, CourseCheck);
      && (st.outcome.Pass? <==>
            && (forall k :: 0 <= k < |s.students| ==> StudentCheck(s.students[k]).Pass?)
            && (forall k :: 0 <= k < |s.instructors| ==> InstructorCheck(s.instructors[k]).Pass?)
            && (forall k :: 0 <= k < |s.courses| ==> CourseCheck(s.courses[k]).Pass?))
      && (o1.Fail? ==> st == Step(o1, r))
      && (o1.Pass? ==>
            && st.after.students == AsPlain(ByKey(s.students, StudentId))
            && st.after.studentOrder == KeysInOrder(s.students, StudentId))
      && (o1.Pass? && o2.Fail? ==>
            && st.outcome == o2
            && st.after.(students := r.students, studentOrder := r.studentOrder) == r)
      && (o1.Pass? && o2.Pass? ==>
            && st.after.instructors == ByKey(s.instructors, InstructorId)
            && st.after.instructorOrder == KeysInOrder(s.instructors, InstructorId))
      && (o1.Pass? && o2.Pass? && o3.Fail? ==>
            && st.outcome == o3
            && st.after.(students := r.students, studentOrder := r.studentOrder,
                         instructors := r.instructors, instructorOrder := r.instructorOrder) == r)
      && (st.outcome.Pass? ==>
            && st.after.courses == ByKey(s.courses, CourseId)
            && st.after.courseOrder == KeysInOrder(s.courses, CourseId)
            && st.after.nextPersonId == s.nextPersonId
            && st.after.nextCourseId == s.nextCourseId)
  {
    var st := Load(r, Some(s));
    var o1 := FirstFailure(s.students, StudentCheck);
    var o2 := FirstFailure(s.instructors, InstructorCheck);
    var o3 := FirstFailure(s.courses, CourseCheck);
    var r1 := r.(students := AsPlain(ByKey(s.students, StudentId)),
                 studentOrder := KeysInOrder(s.students, StudentId));
    var r2 := r1.(instructors := ByKey(s.instructors, InstructorId),
                  instructorOrder := KeysInOrder(s.instructors, InstructorId));
    if o1.Fail? {
      assert st == Step(o1, r);
    } else if o2.Fail? {
      assert st == Step(o2, r1);
    } else if o3.Fail? {
      assert st == Step(o3, r2);
    } else {
      assert st.outcome == Pass;
      assert st.after == r2.(courses := ByKey(s.courses, CourseId), courseOrder := KeysInOrder(s.courses, CourseId),
                             nextPersonId := s.nextPersonId, nextCourseId := s.nextCourseId);
    }
  }

  // =====================================================================
  // Worked cases

  /** The half-way failure of `create_course`: an instructor who already
      lists the next course id makes the assignment raise after the course
      is stored, and the course counter is not advanced. Such a registry
      breaks the rules, which is why the call cannot fail this way under them. */
  lemma CreateCourseCanFailHalfWay()
    ensures var inst := Instructors.InstructorRecord(1, "Ann", "ann@b.cd", [1]);
      var r := Empty().(instructors := map[1 := inst], instructorOrder := [1]);
      var st := CreateCourse(r, "T", "D", Some(1), None);
      && st.outcome == Fail(AlreadyAssigned)
      && 1 in st.after.courses
      && st.after.nextCourseId == r.nextCourseId
      && !Integrity(r)
  {
    assert Nonempty("T") by { assert !IsWhitespace("T"[0]); }
    assert Nonempty("D") by { assert !IsWhitespace("D"[0]); }
  }

  /** The half-way failure of `unenroll_student_from_course`: a roster that
      lists a student with no matching enrollment loses the student, and
      then the student side raises. */
  lemma UnenrollCanFailHalfWay()
    ensures var s := Students.StudentRecord(1, "Ann", "ann@b.cd", 5, 1, [], "student");
      var c := Courses.CourseRecord(2, "T", "D", None, None, [1], map[]);
      var r := Empty().(students := map[1 := StudentEntry(Students.PlainStudent, s)], studentOrder := [1],
                        courses := map[2 := c], courseOrder := [2]);
      var st := UnenrollStudentFromCourse(r, 1, 2);
      && st.outcome == Fail(StudentNotEnrolled)
      && st.after.courses[2].roster == []
      && st.after.students == r.students
  {
  }

  /** The first steps of the test fixture: the instructor is created with
      id 1, but the student of age 15 is rejected, because `valid_age`
      accepts only ages up to 10 or from 30 on. */
  lemma FixtureRejectsStudent()
    ensures var st := CreateInstructor(Empty(), "Dr Test", "dr.test@example.com");
      && st.outcome == Pass
      && st.after.instructors.Keys == {1}
      && CreateStudent(st.after, "john", "john@example.com", 15, 3, "undergraduate") == Step(Fail(InvalidAge), st.after)
  {
    FixtureInstructor();
    FixtureStudent(CreateInstructor(Empty(), "Dr Test", "dr.test@example.com").after);
  }

  lemma FixtureInstructor()
    ensures CreateInstructor(Empty(), "Dr Test", "dr.test@example.com").outcome == Pass
    ensures CreateInstructor(Empty(), "Dr Test", "dr.test@example.com").after.instructors.Keys == {1}
  {
    EmailExamples();
    NameExamples();
  }

  lemma FixtureStudent(r: RegistryState)
    ensures CreateStudent(r, "john", "john@example.com", 15, 3, "undergraduate") == Step(Fail(InvalidAge), r)
  {
    EmailExamples();
    NameExamples();
    RangeChecksInverted(15, 3, 0.0);
  }

  /** Students and instructors draw from one counter: an instructor and
      then a student get consecutive ids, and creating a course in between
      does not move the person counter. */
  lemma PersonIdsAreShared(r: RegistryState, iname: string, iemail: string,
                           title: string, description: string,
                           name: string, email: string, age: int, year: int, studentType: string)
    requires CreateInstructor(r, iname, iemail).outcome.Pass?
    ensures var r1 := CreateInstructor(r, iname, iemail).after;
      var r2 := CreateCourse(r1, title, description, Some(r.nextPersonId), None).after;
      && r1.nextPersonId == r.nextPersonId + 1
      && r2.nextPersonId == r1.nextPersonId
      && (CreateStudent(r2, name, email, age, year, studentType).outcome.Pass? ==>
            CreateStudent(r2, name, email, age, year, studentType).after.students[r2.nextPersonId].fields.id
              == r1.instructors[r.nextPersonId].id + 1)
  {
  }
}

/** course.py: a course with its roster (the ids of its students, in
    enrollment order) and its grades (student id to grade). The pure
    functions on `CourseRecord` say what each operation does to the fields;
    the methods of `Course` do it in place and are proved to agree. */
module Courses {
  import opened Results
  import opened Utils
  import opened Lists

  /** The fields of a course, as the constructor takes them and `to_dict`
      reports them. `year` is optional because the registry passes None. */
  datatype CourseRecord = CourseRecord(
    id: int,
    title: string,
    description: string,
    year: Option<int>,
    instructorId: Option<int>,
    roster: seq<int>,
    grades: map<int, real>)

  /** `__post_init__`: the title, then the description, must hold a
      non-whitespace character. */
  function Check(title: string, description: string): Outcome
  {
    if !Nonempty(title) then Fail(EmptyTitle)
    else if !Nonempty(description) then Fail(EmptyDescription)
    else Pass
  }

  lemma CheckIff(title: string, description: string)
    ensures Check(title, description).Pass? <==>
      && (exists k :: 0 <= k < |title| && !IsWhitespace(title[k]))
      && (exists k :: 0 <= k < |description| && !IsWhitespace(description[k]))
    ensures Check(title, description).Fail? ==>
      Check(title, description).error == (if Nonempty(title) then EmptyDescription else EmptyTitle)
  {
    NonemptyIff(title);
    NonemptyIff(description);
  }

  /** The range `set_grade` accepts: it raises when `grade < 0.0 or grade > 100.0`. */
  predicate GradeAccepted(grade: real)
  {
    !(grade < 0.0 || grade > 100.0)
  }

  /** `utils.valid_grade` is the exact negation of the check `set_grade` makes. */
  lemma ValidGradeRejectsAcceptedGrades(grade: real)
    ensures ValidGrade(grade) <==> !GradeAccepted(grade)
    ensures GradeAccepted(grade) <==> 0.0 <= grade <= 100.0
  {
  }

  /** The invariant the operations keep: nobody twice on the roster, grades
      only for students on the roster, every grade in [0, 100]. */
  ghost predicate RecordValid(c: CourseRecord)
  {
    && NoDuplicates(c.roster)
    && (forall s :: s in c.grades ==> s in c.roster)
    && InRange(c.grades)
  }

  // ---------------------------------------------------------------------
  // What each operation does to the fields

  /** `enroll_student`. */
  function EnrollStep(c: CourseRecord, sid: int): Result<CourseRecord>
  {
    if sid in c.roster then Err(AlreadyEnrolled)
    else Ok(c.(roster := c.roster + [sid]))
  }

  /** `unenroll_student`: `roster.remove(sid)` and `grades.pop(sid, None)`. */
  function UnenrollStep(c: CourseRecord, sid: int): Result<CourseRecord>
  {
    if sid !in c.roster then Err(NotEnrolled)
    else Ok(c.(roster := RemoveFirst(c.roster, sid), grades := c.grades - {sid}))
  }

  /** `set_grade`: membership first, then the range. */
  function GradeStep(c: CourseRecord, sid: int, grade: real): Result<CourseRecord>
  {
    if sid !in c.roster then Err(NotEnrolled)
    else if !GradeAccepted(grade) then Err(GradeOutOfRange)
    else Ok(c.(grades := c.grades[sid := grade]))
  }

  /** `enroll_student` appends at the end, never duplicates, leaves the
      grades alone and keeps the invariant. */
  lemma EnrollStepProperties(c: CourseRecord, sid: int)
    ensures EnrollStep(c, sid).Err? <==> sid in c.roster
    ensures EnrollStep(c, sid).Ok? ==>
      var c' := EnrollStep(c, sid).value;
      && c'.roster == c.roster + [sid] && c'.grades == c.grades
      && (NoDuplicates(c.roster) ==> NoDuplicates(c'.roster))
      && (RecordValid(c) ==> RecordValid(c'))
  {
    if sid !in c.roster && NoDuplicates(c.roster) {
      AppendNoDuplicates(c.roster, sid);
    }
  }

  /** `unenroll_student` takes the student off the roster and out of the
      grades, keeps the others in order with their grades, changes no other
      field, and keeps the invariant. */
  lemma {:induction false} UnenrollStepProperties(c: CourseRecord, sid: int)
    ensures UnenrollStep(c, sid).Err? <==> sid !in c.roster
    ensures UnenrollStep(c, sid).Ok? ==>
      var c' := UnenrollStep(c, sid).value;
      && |c'.roster| == |c.roster| - 1
      && sid !in c'.grades
      && (forall s :: s in c'.grades <==> s in c.grades && s != sid)
      && (forall s :: s in c'.grades ==> c'.grades[s] == c.grades[s])
      && c'.(roster := c.roster, grades := c.grades) == c
      && (RecordValid(c) ==> RecordValid(c') && sid !in c'.roster
                             && forall s :: s in c'.roster <==> s in c.roster && s != sid)
  {
    if sid in c.roster && RecordValid(c) {
      RemoveFirstNoDuplicates(c.roster, sid);
    }
  }

  /** `set_grade` succeeds exactly for a student on the roster and a grade in
      [0, 100], overwrites only that student's grade, changes no other field,
      and keeps the invariant. */
  lemma GradeStepProperties(c: CourseRecord, sid: int, grade: real)
    ensures GradeStep(c, sid, grade).Ok? <==> sid in c.roster && 0.0 <= grade <= 100.0
    ensures GradeStep(c, sid, grade).Ok? ==>
      var c' := GradeStep(c, sid, grade).value;
      && c'.roster == c.roster
      && c'.grades[sid] == grade
      && c'.grades.Keys == c.grades.Keys + {sid}
      && (forall s :: s in c.grades && s != sid ==> s in c'.grades && c'.grades[s] == c.grades[s])
      && c'.(grades := c.grades) == c
      && (RecordValid(c) ==> RecordValid(c'))
  {
  }

  /** Enrolling and then unenrolling a student restores the course. */
  lemma EnrollThenUnenroll(c: CourseRecord, sid: int)
    requires EnrollStep(c, sid).Ok? && sid !in c.grades
    ensures UnenrollStep(EnrollStep(c, sid).value, sid) == Ok(c)
    ensures EnrollStep(EnrollStep(c, sid).value, sid) == Err(AlreadyEnrolled)
  {
    RemoveAppended(c.roster, sid);
    assert c.grades - {sid} == c.grades;
  }

  // ---------------------------------------------------------------------
  // get_average_grade

  /** The sum of the grades, in no particular order (real addition commutes). */
  ghost function SumGrades(m: map<int, real>): real
    decreases |m|
  {
    if m == map[] then 0.0
    else
      MapHasKey(m);
      var s :| s in m;
      m[s] + SumGrades(m - {s})
  }

  /** The sum takes any grade out first. */
  lemma {:induction false} SumGradesRemove(m: map<int, real>, s: int)
    requires s in m
    ensures SumGrades(m) == m[s] + SumGrades(m - {s})
    decreases |m|
  {
    var t :| t in m && SumGrades(m) == m[t] + SumGrades(m - {t});
    if t != s {
      SumGradesRemove(m - {t}, s);
      SumGradesRemove(m - {s}, t);
      assert m - {t} - {s} == m - {s} - {t};
    }
  }

  /** Every grade lies in [0, 100]. */
  ghost predicate InRange(m: map<int, real>)
  {
    forall s :: s in m ==> GradeAccepted(m[s])
  }

  /** With every grade in [0, 100], the sum lies in [0, 100 times the count]. */
  lemma {:induction false} SumGradesBounds(m: map<int, real>)
    requires InRange(m)
    ensures 0.0 <= SumGrades(m) <= 100.0 * |m| as real
    decreases |m|
  {
    if m != map[] {
      MapHasKey(m);
      var s :| s in m;
      var rest := m - {s};
      SumGradesRemove(m, s);
      assert InRange(rest);
      SumGradesBounds(rest);
      var n := |rest| as real;
      assert |m| as real == n + 1.0;
    }
  }

  /** `get_average_grade`: 0.0 without grades, otherwise the mean; within
      [0, 100] when every grade is. */
  ghost function Mean(m: map<int, real>): (avg: real)
    ensures m == map[] ==> avg == 0.0
    ensures m != map[] ==> avg * |m| as real == SumGrades(m)
    ensures InRange(m) ==> 0.0 <= avg <= 100.0
  {
    if |m| == 0 then 0.0
    else if InRange(m) then
      SumGradesBounds(m);
      SumGrades(m) / |m| as real
    else
      SumGrades(m) / |m| as real
  }

  /** The average of one grade is that grade; of 80 and 90 it is 85. */
  lemma MeanExamples(s: int, t: int, g: real)
    requires s != t
    ensures Mean(map[s := g]) == g
    ensures Mean(map[s := 80.0, t := 90.0]) == 85.0
  {
    var one := map[s := g];
    SumGradesRemove(one, s);
    assert one - {s} == map[];
    assert |one| == 1;
    var two := map[s := 80.0, t := 90.0];
    SumGradesRemove(two, s);
    var rest := two - {s};
    assert rest == map[t := 90.0];
    SumGradesRemove(rest, t);
    assert rest - {t} == map[];
    assert two.Keys == {s, t};
    assert |two| == 2;
    assert Mean(two) * 2.0 == 170.0;
  }

  // ---------------------------------------------------------------------
  // The object

  class Course {
    const id: int
    const title: string
    const description: string
    const year: Option<int>
    const instructorId: Option<int>
    var roster: seq<int>
    var grades: map<int, real>

    /** The dataclass `__init__`, reached only once `__post_init__` passes. */
    constructor (fields: CourseRecord)
      requires Check(fields.title, fields.description).Pass?
      ensures ToRecord() == fields
    {
      id := fields.id;
      title := fields.title;
      description := fields.description;
      year := fields.year;
      instructorId := fields.instructorId;
      roster := fields.roster;
      grades := fields.grades;
    }

    /** `Course(**fields)`: raises from `__post_init__` or yields a new
        course whose fields are exactly the arguments. */
    static method Make(fields: CourseRecord) returns (r: Result<Course>)
      ensures r.Err? <==> Check(fields.title, fields.description).Fail?
      ensures r.Err? ==> r.error == Check(fields.title, fields.description).error
      ensures r.Ok? ==> fresh(r.value) && r.value.ToRecord() == fields
    {
      var o := Check(fields.title, fields.description);
      if o.Fail? {
        return Err(o.error);
      }
      var c := new Course(fields);
      return Ok(c);
    }

    /** `to_dict`. */
    function ToRecord(): CourseRecord
      reads this
    {
      CourseRecord(id, title, description, year, instructorId, roster, grades)
    }

    ghost predicate Valid()
      reads this
    {
      RecordValid(ToRecord())
    }

    method EnrollStudent(sid: int) returns (o: Outcome)
      modifies this
      ensures var r := EnrollStep(old(ToRecord()), sid);
        o == OutcomeOf(r) && ToRecord() == (if r.Ok? then r.value else old(ToRecord()))
      ensures old(Valid()) ==> Valid()
    {
      if sid in roster {
        return Fail(AlreadyEnrolled);
      }
      EnrollStepProperties(ToRecord(), sid);
      roster := roster + [sid];
      return Pass;
    }

    method UnenrollStudent(sid: int) returns (o: Outcome)
      modifies this
      ensures var r := UnenrollStep(old(ToRecord()), sid);
        o == OutcomeOf(r) && ToRecord() == (if r.Ok? then r.value else old(ToRecord()))
      ensures old(Valid()) ==> Valid()
    {
      if sid !in roster {
        return Fail(NotEnrolled);
      }
      UnenrollStepProperties(ToRecord(), sid);
      roster := RemoveFirst(roster, sid);
      grades := grades - {sid};
      return Pass;
    }

    method SetGrade(sid: int, grade: real) returns (o: Outcome)
      modifies this
      ensures var r := GradeStep(old(ToRecord()), sid, grade);
        o == OutcomeOf(r) && ToRecord() == (if r.Ok? then r.value else old(ToRecord()))
      ensures old(Valid()) ==> Valid()
    {
      if sid !in roster {
        return Fail(NotEnrolled);
      }
      if grade < 0.0 || grade > 100.0 {
        return Fail(GradeOutOfRange);
      }
      grades := grades[sid := grade];
      return Pass;
    }

    /** `get_average_grade`. */
    ghost function AverageGrade(): real
      reads this
    {
      Mean(grades)
    }
  }
}

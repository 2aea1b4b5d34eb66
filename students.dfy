/** student.py: the `person` base record, `Student` with its list of
    enrollments, and the two variants that only change the default
    `student_type`. */
module Students {
  import opened Results
  import opened Utils
  import opened Lists

  /** One element of `enrollments`: the dict `{"course_id": cid}`. */
  datatype Enrollment = Enrollment(courseId: int)

  /** The Python class of a student object. */
  datatype StudentClass = PlainStudent | Undergraduate | Graduate

  /** The default of `student_type` each class declares. */
  function DefaultType(cls: StudentClass): string
  {
    match cls
    case PlainStudent => "student"
    case Undergraduate => "undergraduate"
    case Graduate => "graduate"
  }

  /** The class `create_student` instantiates for a `student_type` argument,
      compared after `str.lower`. */
  function SelectClass(studentType: string): StudentClass
  {
    var t := Lower(studentType);
    if t == "undergraduate" then Undergraduate
    else if t == "graduate" then Graduate
    else PlainStudent
  }

  /** The choice ignores letter case, and each class's own default tag
      selects that class again. */
  lemma SelectClassProperties(studentType: string, cls: StudentClass)
    ensures SelectClass(Lower(studentType)) == SelectClass(studentType)
    ensures SelectClass(DefaultType(cls)) == cls
  {
    LowerIdempotent(studentType);
    DefaultTypeSelects(cls);
  }

  lemma DefaultTypeSelects(cls: StudentClass)
    ensures SelectClass(DefaultType(cls)) == cls
  {
    var t := DefaultType(cls);
    assert forall k :: 0 <= k < |t| ==> !IsAsciiUpper(t[k]);
    LowerKeepsLowercase(t);
  }

  /** The default argument "Student" gives a plain student (its length
      already rules out both variants); "GRADUATE" selects a variant. */
  lemma SelectClassExamples()
    ensures SelectClass("Student") == PlainStudent
    ensures SelectClass("GRADUATE") == Graduate
  {
    assert |Lower("Student")| == 7;
    LowerGraduate();
  }

  lemma LowerGraduate()
    ensures Lower("GRADUATE") == "graduate"
  {
    var g := Lower("GRADUATE");
    assert |g| == 8;
    assert g[0] == 'g' && g[1] == 'r' && g[2] == 'a' && g[3] == 'd';
    assert g[4] == 'u' && g[5] == 'a' && g[6] == 't' && g[7] == 'e';
  }

  /** The fields of a student, in the order `asdict` lists them. */
  datatype StudentRecord = StudentRecord(
    id: int,
    name: string,
    email: string,
    age: int,
    year: int,
    enrollments: seq<Enrollment>,
    studentType: string)

  /** `person.__post_init__`: name, then email, then age. The year is never checked. */
  function Check(name: string, email: string, age: int): Outcome
  {
    if !ValidateName(name) then Fail(InvalidName)
    else if !ValidateEmail(email) then Fail(InvalidEmail)
    else if !ValidAge(age) then Fail(InvalidAge)
    else Pass
  }

  /** A person is accepted exactly when the name has only letters and
      whitespace, the email matches the pattern, and the age is at most 10
      or at least 30: `valid_age` rejects the ages it is meant to accept. */
  lemma CheckIff(name: string, email: string, age: int)
    ensures Check(name, email, age).Pass? <==>
      && |name| >= 1 && Every(name, IsNameChar)
      && ValidateEmail(email)
      && (age <= 10 || age >= 30)
    ensures !ValidateName(name) ==> Check(name, email, age) == Fail(InvalidName)
    ensures ValidateName(name) && !ValidateEmail(email) ==> Check(name, email, age) == Fail(InvalidEmail)
    ensures 10 < age < 30 ==> Check(name, email, age).Fail?
  {
    ValidateNameIff(name);
    RangeChecksInverted(age, 0, 0.0);
  }

  /** `enroll`: its guard compares an int with dicts and never holds, so the
      enrollment is always appended. */
  function EnrollStep(s: StudentRecord, cid: int): StudentRecord
  {
    s.(enrollments := s.enrollments + [Enrollment(cid)])
  }

  /** `unenroll`: remove the first enrollment for the course, or raise. */
  function UnenrollStep(s: StudentRecord, cid: int): Result<StudentRecord>
  {
    if Enrollment(cid) !in s.enrollments then Err(StudentNotEnrolled)
    else Ok(s.(enrollments := RemoveFirst(s.enrollments, Enrollment(cid))))
  }

  ghost predicate RecordValid(s: StudentRecord)
  {
    NoDuplicates(s.enrollments)
  }

  /** `enroll` keeps the enrollments duplicate-free exactly when the course
      was not there yet; since the guard never fires, a second enroll
      duplicates the entry instead of raising. */
  lemma EnrollStepProperties(s: StudentRecord, cid: int)
    ensures EnrollStep(s, cid).enrollments == s.enrollments + [Enrollment(cid)]
    ensures RecordValid(s) ==> (RecordValid(EnrollStep(s, cid)) <==> Enrollment(cid) !in s.enrollments)
    ensures !RecordValid(EnrollStep(EnrollStep(s, cid), cid))
  {
    var e1 := EnrollStep(s, cid).enrollments;
    if Enrollment(cid) in s.enrollments {
      var j :| 0 <= j < |s.enrollments| && s.enrollments[j] == Enrollment(cid);
      assert e1[j] == e1[|s.enrollments|];
    } else if RecordValid(s) {
      AppendNoDuplicates(s.enrollments, Enrollment(cid));
    }
    var e := EnrollStep(EnrollStep(s, cid), cid).enrollments;
    assert e[|e| - 2] == e[|e| - 1];
  }

  /** `unenroll` takes the course out, keeps every other enrollment, and
      keeps the list duplicate-free; enroll then unenroll restores the list. */
  lemma UnenrollStepProperties(s: StudentRecord, cid: int)
    ensures UnenrollStep(s, cid).Err? <==> Enrollment(cid) !in s.enrollments
    ensures UnenrollStep(s, cid).Ok? ==>
      var s' := UnenrollStep(s, cid).value;
      && |s'.enrollments| == |s.enrollments| - 1
      && (RecordValid(s) ==> RecordValid(s') && forall e :: e in s'.enrollments <==> e in s.enrollments && e != Enrollment(cid))
    ensures Enrollment(cid) !in s.enrollments ==> UnenrollStep(EnrollStep(s, cid), cid) == Ok(s)
  {
    if RecordValid(s) {
      RemoveFirstNoDuplicates(s.enrollments, Enrollment(cid));
    }
    if Enrollment(cid) !in s.enrollments {
      RemoveAppended(s.enrollments, Enrollment(cid));
    }
  }

  class Student {
    const cls: StudentClass
    const id: int
    const name: string
    const email: string
    const age: int
    const year: int
    const studentType: string
    var enrollments: seq<Enrollment>

    /** The dataclass `__init__`, reached only once `__post_init__` passes. */
    constructor (cls: StudentClass, fields: StudentRecord)
      requires Check(fields.name, fields.email, fields.age).Pass?
      ensures this.cls == cls && ToRecord() == fields
    {
      this.cls := cls;
      id := fields.id;
      name := fields.name;
      email := fields.email;
      age := fields.age;
      year := fields.year;
      studentType := fields.studentType;
      enrollments := fields.enrollments;
    }

    /** Instantiating `cls(**fields)`: raises from `__post_init__` or yields
        a new object of that class whose fields are the arguments. */
    static method Make(cls: StudentClass, fields: StudentRecord) returns (r: Result<Student>)
      ensures r.Err? <==> Check(fields.name, fields.email, fields.age).Fail?
      ensures r.Err? ==> r.error == Check(fields.name, fields.email, fields.age).error
      ensures r.Ok? ==> fresh(r.value) && r.value.cls == cls && r.value.ToRecord() == fields
    {
      var o := Check(fields.name, fields.email, fields.age);
      if o.Fail? {
        return Err(o.error);
      }
      var s := new Student(cls, fields);
      return Ok(s);
    }

    /** `to_dict` (`asdict`). */
    function ToRecord(): StudentRecord
      reads this
    {
      StudentRecord(id, name, email, age, year, enrollments, studentType)
    }

    method Enroll(cid: int)
      modifies this
      ensures ToRecord() == EnrollStep(old(ToRecord()), cid)
    {
      enrollments := enrollments + [Enrollment(cid)];
    }

    /** The search loop of `unenroll`: the first enrollment for the course. */
    method FindEnrollment(cid: int) returns (i: Option<nat>)
      ensures i.None? <==> Enrollment(cid) !in enrollments
      ensures i.Some? ==>
        && i.value < |enrollments|
        && enrollments[i.value] == Enrollment(cid)
        && Enrollment(cid) !in enrollments[..i.value]
    {
      var k := 0;
      while k < |enrollments|
        invariant k <= |enrollments|
        invariant Enrollment(cid) !in enrollments[..k]
      {
        if enrollments[k].courseId == cid {
          return Some(k);
        }
        assert enrollments[..k + 1] == enrollments[..k] + [enrollments[k]];
        k := k + 1;
      }
      assert enrollments[..k] == enrollments;
      return None;
    }

    method Unenroll(cid: int) returns (o: Outcome)
      modifies this
      ensures var r := UnenrollStep(old(ToRecord()), cid);
        o == OutcomeOf(r) && ToRecord() == (if r.Ok? then r.value else old(ToRecord()))
    {
      var i := FindEnrollment(cid);
      if i.None? {
        return Fail(StudentNotEnrolled);
      }
      RemoveFirstAt(enrollments, Enrollment(cid), i.value);
      enrollments := enrollments[..i.value] + enrollments[i.value + 1..];
      return Pass;
    }

    /** `Student.__eq__`: id, email and name; age, year and enrollments are
        not compared. */
    predicate SameStudent(other: Student)
    {
      id == other.id && email == other.email && name == other.name
    }
  }

  /** Python's `a == b` between two students. `Student` defines its own
      `__eq__`; each variant gets a dataclass `__eq__` that compares every
      field when both objects have exactly that class and otherwise returns
      NotImplemented, after which the reflected operand is tried and, when
      both decline, identity decides. */
  predicate PyEquals(a: Student, b: Student)
    reads a, b
  {
    if a.cls == b.cls then
      (if a.cls == PlainStudent then a.SameStudent(b) else a.ToRecord() == b.ToRecord())
    else if a.cls == PlainStudent then a.SameStudent(b)
    else if b.cls == PlainStudent then b.SameStudent(a)
    else a == b
  }

  /** `==` on students is symmetric and reflexive; between objects of
      different variant classes it is identity, so two such objects are
      never equal; and a plain student equals any student with the same id,
      email and name. */
  lemma PyEqualsProperties(a: Student, b: Student)
    ensures PyEquals(a, b) == PyEquals(b, a)
    ensures PyEquals(a, a)
    ensures a.cls != b.cls && a.cls != PlainStudent && b.cls != PlainStudent ==> !PyEquals(a, b)
    ensures a.cls == PlainStudent ==>
      (PyEquals(a, b) <==> a.id == b.id && a.email == b.email && a.name == b.name)
  {
  }
}

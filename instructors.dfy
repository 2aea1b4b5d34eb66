/** instructor.py: an instructor and the ids of the courses assigned to them. */
module Instructors {
  import opened Results
  import opened Utils
  import opened Lists

  /** The fields of an instructor, as `to_dict` reports them. */
  datatype InstructorRecord = InstructorRecord(id: int, name: string, email: string, courses: seq<int>)

  /** `__post_init__`: the name, then the email. There is no age to check. */
  function Check(name: string, email: string): Outcome
  {
    if !ValidateName(name) then Fail(InvalidName)
    else if !ValidateEmail(email) then Fail(InvalidEmail)
    else Pass
  }

  lemma CheckIff(name: string, email: string)
    ensures Check(name, email).Pass? <==> |name| >= 1 && Every(name, IsNameChar) && ValidateEmail(email)
    ensures !ValidateName(name) ==> Check(name, email) == Fail(InvalidName)
  {
    ValidateNameIff(name);
  }

  /** `assign_course`. */
  function AssignStep(i: InstructorRecord, cid: int): Result<InstructorRecord>
  {
    if cid in i.courses then Err(AlreadyAssigned)
    else Ok(i.(courses := i.courses + [cid]))
  }

  /** `unassign_course`: `courses.remove(cid)`. */
  function UnassignStep(i: InstructorRecord, cid: int): Result<InstructorRecord>
  {
    if cid !in i.courses then Err(NotAssigned)
    else Ok(i.(courses := RemoveFirst(i.courses, cid)))
  }

  ghost predicate RecordValid(i: InstructorRecord)
  {
    NoDuplicates(i.courses)
  }

  /** Assigning appends a course that was not there, keeps the list
      duplicate-free, and is undone by unassigning it. */
  lemma AssignStepProperties(i: InstructorRecord, cid: int)
    ensures AssignStep(i, cid).Err? <==> cid in i.courses
    ensures AssignStep(i, cid).Ok? ==>
      && AssignStep(i, cid).value.courses == i.courses + [cid]
      && (RecordValid(i) ==> RecordValid(AssignStep(i, cid).value))
      && UnassignStep(AssignStep(i, cid).value, cid) == Ok(i)
      && AssignStep(AssignStep(i, cid).value, cid) == Err(AlreadyAssigned)
  {
    if cid !in i.courses {
      if RecordValid(i) {
        AppendNoDuplicates(i.courses, cid);
      }
      RemoveAppended(i.courses, cid);
    }
  }

  /** Unassigning takes the course out completely, keeps the others, and
      keeps the list duplicate-free. */
  lemma UnassignStepProperties(i: InstructorRecord, cid: int)
    ensures UnassignStep(i, cid).Err? <==> cid !in i.courses
    ensures UnassignStep(i, cid).Ok? ==>
      var i' := UnassignStep(i, cid).value;
      && |i'.courses| == |i.courses| - 1
      && (RecordValid(i) ==> RecordValid(i') && forall c :: c in i'.courses <==> c in i.courses && c != cid)
  {
    if RecordValid(i) {
      RemoveFirstNoDuplicates(i.courses, cid);
    }
  }

  class Instructor {
    const id: int
    const name: string
    const email: string
    var courses: seq<int>

    /** The dataclass `__init__`, reached only once `__post_init__` passes. */
    constructor (fields: InstructorRecord)
      requires Check(fields.name, fields.email).Pass?
      ensures ToRecord() == fields
    {
      id := fields.id;
      name := fields.name;
      email := fields.email;
      courses := fields.courses;
    }

    /** `Instructor(**fields)`: raises from `__post_init__` or yields a new
        instructor whose fields are the arguments. */
    static method Make(fields: InstructorRecord) returns (r: Result<Instructor>)
      ensures r.Err? <==> Check(fields.name, fields.email).Fail?
      ensures r.Err? ==> r.error == Check(fields.name, fields.email).error
      ensures r.Ok? ==> fresh(r.value) && r.value.ToRecord() == fields
    {
      var o := Check(fields.name, fields.email);
      if o.Fail? {
        return Err(o.error);
      }
      var i := new Instructor(fields);
      return Ok(i);
    }

    /** `to_dict`. */
    function ToRecord(): InstructorRecord
      reads this
    {
      InstructorRecord(id, name, email, courses)
    }

    method AssignCourse(cid: int) returns (o: Outcome)
      modifies this
      ensures var r := AssignStep(old(ToRecord()), cid);
        o == OutcomeOf(r) && ToRecord() == (if r.Ok? then r.value else old(ToRecord()))
    {
      if cid in courses {
        return Fail(AlreadyAssigned);
      }
      courses := courses + [cid];
      return Pass;
    }

    method UnassignCourse(cid: int) returns (o: Outcome)
      modifies this
      ensures var r := UnassignStep(old(ToRecord()), cid);
        o == OutcomeOf(r) && ToRecord() == (if r.Ok? then r.value else old(ToRecord()))
    {
      if cid !in courses {
        return Fail(NotAssigned);
      }
      courses := RemoveFirst(courses, cid);
      return Pass;
    }
  }
}

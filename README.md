# School course management registry, modelled in Dafny

This project models the in-memory core of a small Python school course
management system. The core has two parts.

The `Registry` owns three dictionaries: students, instructors and courses. It
hands out ids from two counters. Students and instructors share the person
counter; courses have their own. It also keeps the cross-entity rules by hand:
- an enrollment is recorded both on the course roster and in the student's
  list of enrollments;
- only the course's own instructor may set a grade;
- a course's instructor must exist;
- the whole registry can be saved to a document and loaded back from it.

The entities (`Course`, `Student` with its two variants, `Instructor`) check
their fields on construction. They update their own lists and dicts in place.
Plain validators on strings and numbers back those checks.

Modules, one per source file plus two shared ones:

- `Results` (`results.dfy`) holds `Option`, `Result` and `Outcome`. `Outcome`
  is an operation's "returned normally" or "raised `ValueError`". `Error` has
  one constructor per kind of error. Raises that report the same kind of
  error in different places or with different messages share a
  constructor: `NotEnrolled` serves both `unenroll_student` and `set_grade`,
  `InvalidName` and `InvalidEmail` serve both persons and instructors, and
  `UnknownStudent` and `UnknownCourse` serve every registry lookup that
  raises.
- `Utils` (`utils.dfy`) covers `utils.py`. Each regex is written as a
  predicate over characters and proved equal to a declarative statement of
  the pattern. The three range checks are modelled exactly as written. They
  return `False` inside the range they name, and a lemma states that
  inversion.
- `Lists` (`lists.dfy`) holds the Python list and dict behaviour the core
  relies on:
  - `list.remove` removes the first occurrence;
  - no duplicates;
  - dict insertion order;
  - building a dict from a list of records.
- `Courses`, `Students` and `Instructors` (`courses.dfy`, `students.dfy`,
  `instructors.dfy`) cover the matching source files. Each has a record
  datatype with the fields `to_dict` reports, and pure step functions that
  say what each operation does to those fields. Each also has a class whose
  methods update the fields in place and are proved to agree with the step
  functions. Construction is a static `Make` that either fails with the
  first failed check or returns a fresh object.
- `RegistryModel` (`registrymodel.dfy`) covers `registry.py` as a value.
  Each operation is a function from the registry state to a `Step`: the
  outcome, plus the state afterwards. A failed operation can still have
  changed the state, exactly as in the source. The module also defines the
  document `save_to_file` writes and the invariant `Integrity`: ids come from
  the counters, every entity is valid, rosters match enrollments, and course
  owners match instructors' lists.
- `RegistryProofs` (`registryproofs.dfy`) proves what each registry operation
  does and that it keeps `Integrity`. It also proves the save/load round
  trip, the search specification, and worked cases from the test fixture.
- `SchoolRegistry` (`registry.dfy`) holds the `Registry` class itself. It has
  maps of objects, the insertion orders, and the two counters. Each method is
  proved to leave the ghost `View()` of the object graph equal to the state
  the `RegistryModel` function gives, and to return its outcome.
  `find_students_by_email`, `save_to_file` and the object-building part of
  `load_from_file` are loops with invariants.

Where the code and its description disagree, the model follows the code.

- **Inverted validators.** `valid_age`, `valid_year` and `valid_grade` reject
  the ranges they are meant to accept. `person.__post_init__` calls
  `valid_age`, so a student aged 15 is rejected. The test fixture's student
  (age 15) therefore cannot be created, and `FixtureRejectsStudent` proves it.
- **`Student.enroll`'s duplicate guard never fires.** It compares an int with
  a list of dicts, so enrolling always appends.
- **Loading with no data file leaves the registry as it was.** It is not
  reset to an empty registry.
- **Loaded students are always of the base class.** They are built with
  `Student(**d)`, so they keep their `student_type` string but not their
  Python class.

## Model

| member | source | states |
|---|---|---|
| Utils.ValidateEmail | utils.py:3-8 | `validate_email`: the regex match, written as a scan over characters. Its meaning is stated by `Utils.ValidateEmailIsPattern`. |
| Utils.ValidateEmailIsPattern | utils.py:3-8 | `validate_email` accepts exactly the strings made of: a non-empty local part over `[A-Za-z0-9._%+-]`, one `@`, a domain over `[A-Za-z0-9.-]`, a dot and two or more ASCII letters, optionally followed by one final newline (the regex `$`). Without a newline it is exactly the pattern. |
| Utils.EmailMatchIsPattern | utils.py:7-8 | The executable left-to-right matcher (split at the first `@`, top-level domain after the last dot) agrees in both directions with the declarative pattern. |
| Utils.EmailAccepted | utils.py:7-8 | Any split of the string into local part, domain and top-level letters that fits the pattern makes `validate_email` true. |
| Utils.EmailWithoutAt | utils.py:7-8 | A string with no `@` is never a valid email. |
| Utils.EmailExamples | utils.py:7-8 | "john@example.com" and "dr.test@example.com" are accepted and "bademail.com" is rejected, as the fixture and `test_invalid_student_creation` expect. |
| Utils.ValidateName | utils.py:10-15 | `validate_name`: one or more letters or whitespace characters, up to an optional final newline. `Utils.ValidateNameIff` states it. |
| Utils.ValidateNameIff | utils.py:10-15 | `validate_name` holds iff the name is non-empty and every character is an ASCII letter or whitespace (a final newline included). Accepted names contain no digit and no apostrophe. |
| Utils.NameExamples | utils.py:10-15 | "john" and "Dr Test" are valid names and "123gad" is not. |
| Utils.Nonempty | utils.py:17-21 | `nonempty`: the value is non-empty and not empty after `strip()`. `Utils.NonemptyIff` states it. |
| Utils.NonemptyIff | utils.py:17-21 | `nonempty` holds iff the value contains at least one non-whitespace character. |
| Utils.StripLeading | utils.py:21 | The left-stripped string is empty iff the input is all whitespace, and otherwise starts with a non-whitespace character. |
| Utils.StripTrailing | utils.py:21 | The right-stripped string is empty iff the input is all whitespace, and otherwise ends with a non-whitespace character. |
| Utils.Password | utils.py:23-42 | `password`: the length check, then the four character-class searches, in order. `Utils.PasswordIff` states it. |
| Utils.PasswordIff | utils.py:23-42 | `password` holds iff the length is at least 8 and there is an upper-case letter, a lower-case letter, a digit and one of ``!@#$%^&*(),.?":{}\|<>``. |
| Utils.ValidAge | utils.py:44-47 | `valid_age`, as written: false on 10 < age < 30. `Utils.RangeChecksInverted` states the inversion. |
| Utils.ValidYear | utils.py:49-52 | `valid_year`, as written: false on 1 ≤ year ≤ 5. |
| Utils.ValidGrade | utils.py:54-57 | `valid_grade`, as written: false on 0 ≤ grade ≤ 100. |
| Utils.RangeChecksInverted | utils.py:44-57 | `valid_age(a)` is false exactly when 10 < a < 30, `valid_year(y)` exactly when 1 ≤ y ≤ 5, and `valid_grade(g)` exactly when 0 ≤ g ≤ 100. |
| Utils.Lower | registry.py:19 | `str.lower` keeps the length and lowers each ASCII capital, leaving every other character alone. |
| Utils.LowerIdempotent | registry.py:57 | Lowering twice is the same as lowering once. |
| Lists.RemoveFirst | course.py:29 | `list.remove(x)` leaves a list without `x` unchanged. Otherwise it is one shorter, and it takes exactly one `x` out of the multiset. |
| Lists.RemoveFirstAt | student.py:37-45 | Removing the first occurrence found at index i is cutting out index i. |
| Lists.RemoveAppended | course.py:24-29 | Removing an element just appended (and absent before) gives back the old list. |
| Lists.RemoveFirstNoDuplicates | instructor.py:23-26 | Removal keeps a duplicate-free list duplicate-free, and the remaining elements are the others. |
| Lists.RebuildFromValues | registry.py:101-103 | Listing a dict's values in insertion order, then rebuilding a dict keyed by id, gives back the same keys in the same order and the same entries. |
| Lists.KeysInOrderIsOrder | registry.py:117-119 | The dict built from a list of records has, as its insertion order, each key once. |
| Courses.Check | course.py:15-19 | `Course.__post_init__`: the title check, then the description check. `Courses.CheckIff` states it. |
| Courses.EnrollStep | course.py:21-24 | `enroll_student` on the course's fields. `Courses.EnrollStepProperties` states it. |
| Courses.UnenrollStep | course.py:26-30 | `unenroll_student` on the course's fields. `Courses.UnenrollStepProperties` states it. |
| Courses.GradeStep | course.py:32-37 | `set_grade` on the course's fields. `Courses.GradeStepProperties` states it. |
| Courses.CheckIff | course.py:15-19 | A course is accepted iff both title and description contain a non-whitespace character. A failure names the title first. |
| Courses.ValidGradeRejectsAcceptedGrades | course.py:35-36 | `set_grade` accepts exactly 0 ≤ grade ≤ 100, both ends included, and `valid_grade` is its exact negation. |
| Courses.EnrollStepProperties | course.py:21-24 | `enroll_student` raises iff the student is on the roster. Otherwise it appends at the end, leaves grades untouched, and keeps the roster duplicate-free and the course invariant intact. |
| Courses.UnenrollStepProperties | course.py:26-30 | `unenroll_student` raises iff the student is absent. Otherwise the roster is one shorter, the student's grade is gone, the other grades keep their keys and values, and no field other than roster and grades changes. The student is off a valid roster, the others remain, and the invariant holds. |
| Courses.GradeStepProperties | course.py:32-37 | `set_grade` succeeds iff the student is on the roster and 0 ≤ grade ≤ 100. It then adds exactly that student's key to the grades, writes only that student's grade, changes no field other than grades, and keeps the invariant "grade keys ⊆ roster, grades in range". |
| Courses.EnrollThenUnenroll | course.py:21-30 | Enrolling and then unenrolling a student without a grade restores the course, and a second enroll raises. |
| Courses.Mean | course.py:39-42 | The average is 0.0 without grades and otherwise the sum divided by the count. It lies in [0, 100] when every grade does. |
| Courses.SumGradesBounds | course.py:42 | With every grade in [0, 100], the sum lies between 0 and 100 times the count. |
| Courses.MeanExamples | course.py:39-42 | One grade averages to itself, and 80 and 90 average to 85. |
| Courses.Course.Make | course.py:15-19 | Construction raises with the first failed check, or yields a fresh course whose `to_dict` is exactly its arguments. |
| Courses.Course.EnrollStudent | course.py:21-24 | The in-place method returns the step's outcome and leaves the fields equal to the step's result. It keeps the course invariant. |
| Courses.Course.UnenrollStudent | course.py:26-30 | Same, for `unenroll_student` (roster removal and grade pop). |
| Courses.Course.SetGrade | course.py:32-37 | Same, for `set_grade`. |
| Students.SelectClass | registry.py:19-24 | The class `create_student` instantiates for a `student_type`. `Students.SelectClassProperties` and `Students.SelectClassExamples` state it. |
| Students.SelectClassProperties | registry.py:19-24 | The class chosen from `student_type` ignores letter case, and each class's own default tag selects that class again. |
| Students.SelectClassExamples | registry.py:18-24 | The default "Student" picks the base class, and "GRADUATE" picks `GraduateStudent`. |
| Students.Check | student.py:14-22 | `person.__post_init__`: name, email, then age. `Students.CheckIff` states it. |
| Students.EnrollStep | student.py:32-35 | `enroll` on the student's fields. `Students.EnrollStepProperties` states it. |
| Students.UnenrollStep | student.py:37-45 | `unenroll` on the student's fields. `Students.UnenrollStepProperties` states it. |
| Students.CheckIff | student.py:14-22 | A person is accepted iff the name and email validate and the age is at most 10 or at least 30. The year is never checked. Failures come in the order name, email, age. |
| Students.EnrollStepProperties | student.py:32-35 | `enroll` always appends `{"course_id": cid}`. The list stays duplicate-free iff the course was not there, so enrolling twice produces a duplicate instead of raising. |
| Students.UnenrollStepProperties | student.py:37-45 | `unenroll` raises iff there is no enrollment for the course. Otherwise it removes one, keeps a valid list valid with the others intact, and undoes an `enroll` of a new course. |
| Students.Student.Make | student.py:14-30 | Construction raises with the first failed check, or yields a fresh object of the given class whose `to_dict` is exactly its arguments. |
| Students.Student.Enroll | student.py:32-35 | The in-place method leaves the fields equal to `EnrollStep`'s result. |
| Students.Student.FindEnrollment | student.py:38-42 | The search loop returns the index of the first enrollment for the course, or none iff there is no such enrollment. |
| Students.Student.Unenroll | student.py:37-45 | The in-place method returns `UnenrollStep`'s outcome and leaves the fields equal to its result. |
| Students.PyEquals | student.py:50-59 | `Student.__eq__` with the dataclass dispatch that decides which `__eq__` runs. `Students.PyEqualsProperties` states it. |
| Students.PyEqualsProperties | student.py:50-59 | `==` on students is reflexive and symmetric, and a base-class student equals any student with the same id, email and name. Two objects of different variant classes are never equal. |
| Instructors.Check | instructor.py:12-16 | `Instructor.__post_init__`: name, then email. `Instructors.CheckIff` states it. |
| Instructors.AssignStep | instructor.py:18-21 | `assign_course` on the instructor's fields. `Instructors.AssignStepProperties` states it. |
| Instructors.UnassignStep | instructor.py:23-26 | `unassign_course` on the instructor's fields. `Instructors.UnassignStepProperties` states it. |
| Instructors.CheckIff | instructor.py:12-16 | An instructor is accepted iff the name and email validate, and a bad name is reported first. |
| Instructors.AssignStepProperties | instructor.py:18-21 | `assign_course` raises iff the course is already listed. Otherwise it appends it, keeps the list duplicate-free, is undone by `unassign_course`, and raises when repeated. |
| Instructors.UnassignStepProperties | instructor.py:23-26 | `unassign_course` raises iff the course is absent. Otherwise the list is one shorter and, when duplicate-free, stays so with exactly the others. |
| Instructors.Instructor.Make | instructor.py:12-16 | Construction raises with the first failed check, or yields a fresh instructor whose `to_dict` is exactly its arguments. |
| Instructors.Instructor.AssignCourse | instructor.py:18-21 | The in-place method returns `AssignStep`'s outcome and leaves the fields equal to its result. |
| Instructors.Instructor.UnassignCourse | instructor.py:23-26 | Same, for `unassign_course`. |
| RegistryModel.FirstFailure | registry.py:117-119 | Building a collection's objects in order succeeds iff every record passes its constructor's checks. |
| RegistryProofs.EmptyProperties | registry.py:11-16 | A new registry has three empty dicts, both counters at 1, and satisfies `Integrity`. |
| RegistryModel.CreateStudent | registry.py:18-27 | `create_student` as a step on the registry value. `RegistryProofs.CreateStudentProperties` states it. |
| RegistryModel.CreateInstructor | registry.py:29-33 | `create_instructor` as a step. `RegistryProofs.CreateInstructorProperties` states it. |
| RegistryModel.CreateCourse | registry.py:35-44 | `create_course` as a step, with the half-way failure. `RegistryProofs.CreateCourseProperties` and `RegistryProofs.CreateCourseCanFailHalfWay` state it. |
| RegistryProofs.CreateStudentProperties | registry.py:18-27 | The outcome is the person checks. On failure nothing changes. On success the student dict is the old one plus one new entry, under the old person counter (not used by any student or instructor). That entry has the selected class, the given fields, no enrollments and that class's tag. The id is appended to the insertion order, the counter goes up by one, nothing else changes, and `Integrity` is kept. |
| RegistryProofs.CreateInstructorProperties | registry.py:29-33 | The same for instructors: stored under the old person counter with no courses, the counter advanced, the rest unchanged, `Integrity` kept. |
| RegistryProofs.CreateCourseProperties | registry.py:35-44 | An unknown instructor id raises and changes nothing. The call succeeds iff the instructor is known (or none is given) and the title and description are non-blank. On success the course is stored under the old course counter, the id is appended to the instructor's courses, and only the course counter moves. `Integrity` is kept. |
| RegistryProofs.NextCourseIdIsFree | registry.py:39-42 | Under the invariant, the next course id is no stored course and is on no instructor's list. So `assign_course` cannot raise inside `create_course`. |
| RegistryProofs.CreateCourseCanFailHalfWay | registry.py:38-43 | Without the invariant, `create_course` can raise after storing the course: a concrete state where the course is stored, `assign_course` raises, and the counter is not advanced. |
| RegistryProofs.PersonIdsAreShared | registry.py:26-43 | An instructor then a student get consecutive person ids, and creating a course in between does not move the person counter. |
| RegistryProofs.FixtureRejectsStudent | registry.py:18-33 | The test fixture: "Dr Test" gets id 1, and creating "john" aged 15 then raises for the age and changes nothing. |
| RegistryModel.EnrollStudentInCourse | registry.py:70-78 | `enroll_student_in_course` as a step. `RegistryProofs.EnrollProperties` states it. |
| RegistryModel.UnenrollStudentFromCourse | registry.py:80-88 | `unenroll_student_from_course` as a step. `RegistryProofs.UnenrollProperties` and `RegistryProofs.UnenrollCanFailHalfWay` state it. |
| RegistryProofs.EnrollProperties | registry.py:70-78 | An unknown student, then an unknown course, raise before any change. The call succeeds iff both exist and the student is not on the roster. The course dict then differs only in that course's roster, which gets the student appended. The student dict differs only in that student's enrollments, which get `{course_id}` appended. Nothing else changes, `Integrity` is kept, and repeating the call raises. |
| RegistryProofs.UnenrollProperties | registry.py:80-88 | The same error order. The call succeeds iff the student is on the roster. The course dict then differs only in that course. Its roster loses the first occurrence of the student, and its grades lose the student's entry. The student dict differs only in that student's enrollments, which lose the first `{course_id}`. Afterwards the student is on neither side. Nothing else changes, `Integrity` is kept, and repeating the call raises. |
| RegistryProofs.UnenrollCanFailHalfWay | registry.py:80-88 | Without the invariant, unenrolling can raise after the course side is done: a roster that lists a student without the matching enrollment. |
| RegistryProofs.EnrollThenUnenroll | registry.py:70-88 | Under the invariant, a successful enroll followed by an unenroll of the same pair gives back the original registry. |
| RegistryProofs.EnrollThenUnenrollRestores | registry.py:70-88 | The same round trip for any registry where the pair is absent on both sides. |
| RegistryModel.SetGrade | registry.py:90-97 | `Registry.set_grade` as a step. `RegistryProofs.SetGradeProperties` states it. |
| RegistryProofs.SetGradeProperties | registry.py:90-97 | An unknown course raises, then a caller who is not the course's instructor raises; a course without an instructor can never be graded. The call succeeds iff the caller owns the course, the student is on the roster and 0 ≤ grade ≤ 100. It then writes only that grade, and `Integrity` is kept. |
| RegistryModel.FindStudentByEmail | registry.py:55-59 | `find_students_by_email` on the insertion order. `RegistryProofs.FindStudentByEmailSpec` states it. |
| RegistryProofs.FindStudentByEmailSpec | registry.py:55-59 | The search returns nothing iff no student's lower-cased email equals the lower-cased query. Otherwise it returns the first such student in insertion order. Searching for the lower-cased query gives the same answer. |
| RegistryProofs.FindIgnoresCase | registry.py:55-59 | Two queries that lower-case alike find the same student. |
| RegistryModel.Save | registry.py:99-106 | The document `save_to_file` writes. `RegistryProofs.SaveLoadRoundTrip` states what loading it gives back. |
| RegistryModel.Load | registry.py:110-121 | `load_from_file` as a step on the document, or on no file. `RegistryProofs.LoadProperties` states it. |
| RegistryProofs.SaveLoadRoundTrip | registry.py:99-121 | Loading the document saved from any well-formed registry succeeds and restores every dict, insertion order and counter. The stored students become base-class objects. |
| RegistryProofs.SaveLoadIntoFresh | registry.py:99-121 | Loading what a registry saved into a new registry succeeds with as many students and courses and the same person counter, satisfies `Integrity`, and saves the same document again. |
| RegistryProofs.AsPlainKeepsIntegrity | registry.py:117 | Turning every student into a base-class object keeps `Integrity` and does not change the saved document. |
| RegistryProofs.LoadProperties | registry.py:110-121 | With no file nothing changes. With a document the load succeeds iff every record passes its constructor's checks. The first collection with a raising record gives the error. A bad student leaves the registry as it was. A bad instructor leaves the students and their order replaced, and everything else as it was. A bad course leaves the students and the instructors, with their orders, replaced, and the courses and both counters as they were. On success all three dicts and their insertion orders are built from the document, and both counters come from it. |
| RegistryProofs.LoadKeepsWellFormed | registry.py:110-121 | Every load, successful or not, leaves each dict with a valid insertion order and only entities that passed their checks. |
| RegistryProofs.CreateCourseKeepsWellFormed | registry.py:35-44 | A course creation that fails half-way still leaves the registry well formed. |
| RegistryProofs.UnenrollKeepsWellFormed | registry.py:80-88 | So does an unenroll that fails half-way. |
| SchoolRegistry.Registry.constructor | registry.py:11-16 | A new registry object views as the empty registry. |
| SchoolRegistry.Registry.CreateStudent | registry.py:18-27 | Returns the outcome of the model's `CreateStudent`, leaves the object graph equal to its resulting state, and on success returns the fresh object it stored. On failure the students map is unchanged, and the instructors and courses maps are never touched. |
| SchoolRegistry.Registry.CreateInstructor | registry.py:29-33 | Same, for `create_instructor`: on success the fresh object is stored, on failure the instructors map is unchanged, and the students and courses maps are never touched. |
| SchoolRegistry.Registry.CreateCourse | registry.py:35-44 | Returns the outcome of the model's `CreateCourse`, including the half-way failure, and leaves the object graph equal to its resulting state. On success it returns the fresh course object, stored under the old course counter. An unknown instructor or a bad title/description leaves the courses map unchanged. The students map and the instructors map (the same instructor objects) are never replaced. |
| SchoolRegistry.Registry.GetStudent | registry.py:46-47 | `dict.get`: none iff the id is not a key, otherwise the stored object. |
| SchoolRegistry.Registry.GetInstructor | registry.py:49-50 | Same, for instructors. |
| SchoolRegistry.Registry.GetCourse | registry.py:52-53 | Same, for courses. |
| SchoolRegistry.Registry.FindStudentByEmail | registry.py:55-59 | The loop over the students in insertion order returns the student the model's search finds, or none. |
| SchoolRegistry.Registry.EnrollStudentInCourse | registry.py:70-78 | Returns the model's outcome and leaves the object graph equal to its resulting state. |
| SchoolRegistry.Registry.UnenrollStudentFromCourse | registry.py:80-88 | Same, for unenrolling. |
| SchoolRegistry.Registry.SetGrade | registry.py:90-97 | Same, for `set_grade`. |
| SchoolRegistry.Registry.Save | registry.py:99-106 | Produces exactly the model's saved document. |
| SchoolRegistry.Registry.Load | registry.py:110-121 | Returns the model's load outcome and leaves the object graph equal to its resulting state. With no file, or when a student record fails, the three maps keep the same objects. When an instructor record fails, the instructors and courses maps are kept. When a course record fails, the courses map is kept. |
| SchoolRegistry.BuildStudents | registry.py:117 | Builds the objects in document order. It fails with the first record that fails its checks; otherwise it yields distinct base-class objects keyed by id, with the insertion order of the dict comprehension. |
| SchoolRegistry.BuildInstructors | registry.py:118 | Same, for instructors. |
| SchoolRegistry.BuildCourses | registry.py:119 | Same, for courses. |
| SchoolRegistry.FirstFailureStops | registry.py:117-119 | Once every earlier record passed, the first record that fails decides the outcome of building the collection. |

## Left out

- File and JSON I/O (`open`, `json.dump`, `json.load`, `os.path.exists`) is
  left out. Persistence is the `Snapshot` document. "No data file" is
  `None`. The file path is not modelled.
- JSON turns the integer keys of `grades` into strings. A real round trip
  through a file therefore changes the grade keys. The model keeps them as
  integers.
- `data.get(key, default)` in `load_from_file` is not modelled: the document
  always has all five entries. A record with missing or extra keys, which
  would make `Class(**d)` raise `TypeError`, is not modelled either.
- The `**kwargs` pass-through of `create_student`, `create_instructor` and
  `create_course` is not modelled. Every entity starts with empty lists and
  the default `student_type` tag of its class.
- Grades and the average are Dafny `real`: no IEEE floating-point rounding
  and no NaN. `Courses.Mean` is exact.
- `str.lower` lowers only `A`–`Z`, and `\d` in `password` matches only
  `0`–`9`. Python's Unicode case folding and Unicode digits are not
  modelled. Whitespace is modelled in full: `\s`, `str.strip` and
  `str.isspace` all use Python's whitespace set, including the Unicode
  spaces, line and paragraph separators.
- `list_students`, `list_instructors` and `list_courses` return the live
  dicts themselves. They are the `students`, `instructors` and `courses`
  fields of `Registry`, so they have no operation of their own.
- `print` in `load_from_file`, and each class's `__repr__`, are not modelled
  (output only).
- `set_grade`'s `instructor_id` is an `int`, so comparing it with `None`
  (an unowned course) is always unequal, and the call raises. The model takes
  an `int` and states that case.
- `Students.Student.Enroll` and `Students.Student.Unenroll` do not state a
  separate invariant for the object: the duplicate-free property is on the
  step functions.
- `SchoolRegistry.Registry` methods state their effect as the `RegistryModel`
  step and do not repeat `Integrity` in their own contracts. That the steps
  keep `Integrity` is proved about `RegistryModel`, in `RegistryProofs`.
- Messages of the raised `ValueError`s are not modelled. Each kind of
  error is one `Error` constructor, so two raises of the same kind with
  different messages are not told apart.
- `commandline.py` (an interactive `input`/`print` menu) and `reports.py`
  (formatted printing) are not part of this model.

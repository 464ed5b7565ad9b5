/**
 * The CSV variant (coursereg.py): a course is a single row keyed by its
 * CourseID, and an enrollment is a (StudentID, CourseID) row. The live count
 * of a course is its number of enrollment rows; a Capacity of 0 or less is no
 * limit. The Students and Faculty files are reduced to their sets of IDs.
 */
module CsvRegistration {
  import opened Options
  import opened Rows
  import opened Seats

  datatype CourseRow = CourseRow(courseId: string, courseName: string, facultyId: string, capacity: int)
  datatype EnrollRow = EnrollRow(student: string, courseId: string)

  datatype Status = Done | StudentNotFound | CourseNotFound | DuplicateCourseId | AlreadyEnrolled | NotEnrolled | Full

  function IsCourse(c: string): CourseRow -> bool { (r: CourseRow) => r.courseId == c }
  function InCourse(c: string): EnrollRow -> bool { (e: EnrollRow) => e.courseId == c }
  function IsPair(s: string, c: string): EnrollRow -> bool { (e: EnrollRow) => e.student == s && e.courseId == c }
  function NotPair(s: string, c: string): EnrollRow -> bool { (e: EnrollRow) => !(e.student == s && e.courseId == c) }

  function FindCourse(courses: seq<CourseRow>, c: string): Option<nat> {
    First(courses, IsCourse(c))
  }

  /** The live number of students in course `c`. */
  function Enrolled(enr: seq<EnrollRow>, c: string): nat {
    Count(enr, InCourse(c))
  }

  predicate HasPair(enr: seq<EnrollRow>, s: string, c: string) {
    Count(enr, IsPair(s, c)) > 0
  }

  function WithoutPair(enr: seq<EnrollRow>, s: string, c: string): seq<EnrollRow> {
    Keep(enr, NotPair(s, c))
  }

  /** CourseIDs are unique, no pair is entered twice, and every enrollment names an existing course. */
  ghost predicate Consistent(courses: seq<CourseRow>, enr: seq<EnrollRow>) {
    && (forall c :: Count(courses, IsCourse(c)) <= 1)
    && (forall s, c :: Count(enr, IsPair(s, c)) <= 1)
    && (forall e :: e in enr ==> FindCourse(courses, e.courseId).Some?)
  }

  /** A held pair names an existing course while the invariant holds. */
  lemma HeldCourseExists(courses: seq<CourseRow>, enr: seq<EnrollRow>, s: string, c: string)
    requires Consistent(courses, enr) && HasPair(enr, s, c)
    ensures FindCourse(courses, c).Some?
  {
    var k := CountWitness(enr, IsPair(s, c));
    assert enr[k] in enr;
  }

  /** One line of view_all_courses. */
  datatype SeatsLine = SeatsLine(course: CourseRow, enrolled: nat, remaining: Remaining)

  /** view_all_courses: each course with its live count and its remaining seats. */
  function SeatsView(courses: seq<CourseRow>, enr: seq<EnrollRow>): (v: seq<SeatsLine>)
    ensures |v| == |courses|
    ensures forall i :: 0 <= i < |v| ==>
      && v[i].course == courses[i]
      && v[i].enrolled == Enrolled(enr, courses[i].courseId)
      && v[i].remaining == RemainingSeats(courses[i].capacity, v[i].enrolled)
  {
    if courses == [] then []
    else
      var r := courses[0];
      var n := Enrolled(enr, r.courseId);
      [SeatsLine(r, n, RemainingSeats(r.capacity, n))] + SeatsView(courses[1..], enr)
  }

  /**
   * The view and the enroll guard agree: a line shows no seat left exactly
   * when the course is full, and shows "Unlimited" exactly when Capacity is 0
   * or less.
   */
  lemma {:induction false} SeatsViewAgreesWithFull(courses: seq<CourseRow>, enr: seq<EnrollRow>, i: nat)
    requires i < |courses|
    ensures var line := SeatsView(courses, enr)[i];
      && (line.remaining.Unlimited? <==> courses[i].capacity <= 0)
      && (IsFull(courses[i].capacity, line.enrolled) <==> line.remaining.Left? && line.remaining.seats <= 0)
  {
    if i > 0 {
      SeatsViewAgreesWithFull(courses[1..], enr, i - 1);
    }
  }

  class CsvFiles {
    var courses: seq<CourseRow>
    var enrollments: seq<EnrollRow>
    var students: set<string>
    var faculty: set<string>

    ghost predicate Valid()
      reads this
    {
      Consistent(courses, enrollments)
    }

    constructor ()
      ensures Valid()
      ensures courses == [] && enrollments == [] && students == {} && faculty == {}
    {
      courses, enrollments, students, faculty := [], [], {}, {};
    }

    /**
     * Admin.create_course: refused for an existing CourseID; otherwise one
     * course row is appended, a blank or unparsable capacity becoming 0. An
     * unknown FacultyID is only warned about.
     */
    method CreateCourse(courseId: string, courseName: string, facultyId: string, capacity: CapacityInput)
      returns (status: Status, facultyKnown: bool)
      requires Valid()
      modifies this`courses
      ensures Valid()
      ensures facultyKnown <==> facultyId in faculty
      ensures status == Done <==> FindCourse(old(courses), courseId).None?
      ensures status != Done ==> status == DuplicateCourseId && courses == old(courses)
      ensures status == Done ==>
        && courses == old(courses) + [CourseRow(courseId, courseName, facultyId, CapacityOnCreate(capacity))]
        && FindCourse(courses, courseId) == Some(|old(courses)|)
    {
      facultyKnown := facultyId in faculty;
      if FindCourse(courses, courseId).Some? {
        return DuplicateCourseId, facultyKnown;
      }
      var row := CourseRow(courseId, courseName, facultyId, CapacityOnCreate(capacity));
      forall c
        ensures FindCourse(courses + [row], c) == if c == courseId then Some(|courses|) else FindCourse(courses, c)
        ensures Count(courses + [row], IsCourse(c)) <= 1
      {
        FirstAppend(courses, row, IsCourse(c));
        CountAppend(courses, row, IsCourse(c));
      }
      forall e | e in enrollments
        ensures FindCourse(courses + [row], e.courseId).Some?
      {
      }
      courses := courses + [row];
      status := Done;
    }

    /** The pair check, the course check and the capacity check of an add; then the append. */
    method Append(s: string, c: string) returns (status: Status)
      requires Valid()
      modifies this`enrollments
      ensures Valid()
      ensures status == Done <==>
        && FindCourse(courses, c).Some?
        && !HasPair(old(enrollments), s, c)
        && !IsFull(courses[FindCourse(courses, c).value].capacity, Enrolled(old(enrollments), c))
      ensures FindCourse(courses, c).None? ==> status == CourseNotFound
      ensures FindCourse(courses, c).Some? && HasPair(old(enrollments), s, c) ==> status == AlreadyEnrolled
      ensures status != Done ==> enrollments == old(enrollments)
      ensures status == Done ==>
        && enrollments == old(enrollments) + [EnrollRow(s, c)]
        && Enrolled(enrollments, c) == Enrolled(old(enrollments), c) + 1
    {
      var found := FindCourse(courses, c);
      if found.None? {
        return CourseNotFound;
      }
      if HasPair(enrollments, s, c) {
        return AlreadyEnrolled;
      }
      if IsFull(courses[found.value].capacity, Enrolled(enrollments, c)) {
        return Full;
      }
      var e := EnrollRow(s, c);
      forall s', c'
        ensures Count(enrollments + [e], IsPair(s', c')) <= 1
      {
        CountAppend(enrollments, e, IsPair(s', c'));
      }
      CountAppend(enrollments, e, InCourse(c));
      enrollments := enrollments + [e];
      status := Done;
    }

    /** The add branch of Admin.manage_enrollments: a registered student, then the checks of Append. */
    method AdminAdd(s: string, c: string) returns (status: Status)
      requires Valid()
      modifies this`enrollments
      ensures Valid()
      ensures courses != [] && s !in students ==> status == StudentNotFound
      ensures status == Done <==>
        && s in students
        && FindCourse(courses, c).Some?
        && !HasPair(old(enrollments), s, c)
        && !IsFull(courses[FindCourse(courses, c).value].capacity, Enrolled(old(enrollments), c))
      ensures status != Done ==> enrollments == old(enrollments)
      ensures status == Done ==> enrollments == old(enrollments) + [EnrollRow(s, c)]
    {
      if students == {} {
        return StudentNotFound;
      }
      if courses == [] {
        return CourseNotFound;
      }
      if s !in students {
        return StudentNotFound;
      }
      status := Append(s, c);
    }

    /** Student.enroll_course: the checks of Append for the logged-in student; Capacity is left as it is. */
    method StudentEnroll(s: string, c: string) returns (status: Status)
      requires Valid()
      modifies this`enrollments
      ensures Valid()
      ensures FindCourse(courses, c).None? ==> status == CourseNotFound
      ensures status == Done <==>
        && FindCourse(courses, c).Some?
        && !HasPair(old(enrollments), s, c)
        && !IsFull(courses[FindCourse(courses, c).value].capacity, Enrolled(old(enrollments), c))
      ensures status != Done ==> enrollments == old(enrollments)
      ensures status == Done ==> enrollments == old(enrollments) + [EnrollRow(s, c)]
    {
      if courses == [] {
        return CourseNotFound;
      }
      status := Append(s, c);
    }

    /**
     * The remove branch of Admin.manage_enrollments, with Capacity left as it
     * is: refused unless the student holds the pair; otherwise its rows go and
     * the live count of the course drops by exactly one.
     */
    method AdminRemove(s: string, c: string) returns (status: Status)
      requires Valid()
      modifies this`enrollments
      ensures Valid()
      ensures courses != [] && s !in students ==> status == StudentNotFound
      ensures status == Done <==> s in students && HasPair(old(enrollments), s, c)
      ensures status != Done ==> enrollments == old(enrollments)
      ensures status == Done ==>
        && enrollments == WithoutPair(old(enrollments), s, c)
        && !HasPair(enrollments, s, c)
        && Enrolled(enrollments, c) == Enrolled(old(enrollments), c) - 1
    {
      if students == {} {
        return StudentNotFound;
      }
      if courses == [] {
        return CourseNotFound;
      }
      if s !in students {
        return StudentNotFound;
      }
      if !HasPair(enrollments, s, c) {
        return NotEnrolled;
      }
      Remove(s, c);
      status := Done;
    }

    /**
     * The remove branch as written: after the rows go, the course's Capacity
     * is raised by one whenever it is not negative.
     */
    method AdminRemoveAsWritten(s: string, c: string) returns (status: Status)
      requires Valid()
      modifies this`enrollments, this`courses
      ensures Valid()
      ensures status == Done <==> s in old(students) && HasPair(old(enrollments), s, c)
      ensures status != Done ==> enrollments == old(enrollments) && courses == old(courses)
      ensures status == Done ==>
        && FindCourse(old(courses), c).Some?
        && var i := FindCourse(old(courses), c).value;
        && enrollments == WithoutPair(old(enrollments), s, c)
        && courses == old(courses)[i := old(courses)[i].(capacity := CapacityAfterRemoveAsWritten(old(courses)[i].capacity))]
    {
      if HasPair(enrollments, s, c) {
        HeldCourseExists(courses, enrollments, s, c);
      }
      status := AdminRemove(s, c);
      if status == Done {
        RaiseCapacity(c);
      }
    }

    /** The Capacity rewrite of the remove branch as written, on the row of course `c`; it keeps the invariant. */
    method RaiseCapacity(c: string)
      requires Valid() && FindCourse(courses, c).Some?
      modifies this`courses
      ensures Valid()
      ensures var i := FindCourse(old(courses), c).value;
        courses == old(courses)[i := old(courses)[i].(capacity := CapacityAfterRemoveAsWritten(old(courses)[i].capacity))]
    {
      var i := FindCourse(courses, c).value;
      var row := courses[i].(capacity := CapacityAfterRemoveAsWritten(courses[i].capacity));
      forall c'
        ensures Count(courses[i := row], IsCourse(c')) <= 1
        ensures FindCourse(courses[i := row], c') == FindCourse(courses, c')
      {
        FirstUpdate(courses, i, row, IsCourse(c'));
        CountUpdate(courses, i, row, IsCourse(c'));
      }
      courses := courses[i := row];
    }

    /** Filtering out the rows of a held pair keeps the invariant and lowers the live count by exactly one. */
    method Remove(s: string, c: string)
      requires Valid() && HasPair(enrollments, s, c)
      modifies this`enrollments
      ensures Valid()
      ensures enrollments == WithoutPair(old(enrollments), s, c)
      ensures !HasPair(enrollments, s, c)
      ensures Enrolled(enrollments, c) == Enrolled(old(enrollments), c) - 1
    {
      var kept := WithoutPair(enrollments, s, c);
      forall s', c'
        ensures Count(kept, IsPair(s', c')) <= 1
      {
        CountKeepLe(enrollments, NotPair(s, c), IsPair(s', c'));
      }
      forall i | 0 <= i < |kept|
        ensures !IsPair(s, c)(kept[i])
      {
        assert kept[i] in kept;
      }
      CountKeep(enrollments, NotPair(s, c), InCourse(c), IsPair(s, c));
      assert Count(enrollments, IsPair(s, c)) <= 1;
      enrollments := kept;
    }
  }
}

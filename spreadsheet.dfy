/**
 * The spreadsheet variant (courseregv2.py): the Courses and Enrollments sheets
 * of one workbook, with the Students and Faculty sheets reduced to their sets
 * of IDs. Each operation reads the sheets, checks its guards with early
 * returns, and writes back a rebuilt or edited sheet. The live count of a class
 * is its number of Enrollments rows; a Capacity of 0 or less is no limit.
 */
module Spreadsheet {
  import opened Options
  import opened Rows
  import opened Seats
  import opened Sheets

  datatype Status =
    | Done
    | StudentNotFound
    | ClassNotFound
    | CourseNotFound
    | DuplicateClassId
    | AlreadyEnrolled
    | NotEnrolled
    | Full
    | NoneListed       // every class of the course is full or unavailable
    | NotYourClass
    | NoOtherFaculty
    | FacultyNotFound

  /**
   * Some class of `course`, other than `except`, appears in the student's list:
   * Capacity 0 or seats remaining.
   */
  predicate ListedFor(classes: seq<ClassRow>, enr: seq<EnrollRow>, course: string, except: Option<string>) {
    exists i | 0 <= i < |classes| ::
      && classes[i].courseId == course
      && except != Some(classes[i].classId)
      && Listed(classes[i].capacity, Enrolled(enr, classes[i].classId))
  }

  /**
   * The checks Student.enroll_course makes, as written: the typed course has
   * a listed class, the chosen ClassID is some row of the whole sheet, the pair
   * is new and that class is not full.
   */
  predicate EnrollAcceptedAsWritten(classes: seq<ClassRow>, enr: seq<EnrollRow>, s: string, course: string, c: string) {
    && ListedFor(classes, enr, course, None)
    && FindClass(classes, c).Some?
    && !HasPair(enr, s, c)
    && !IsFull(classes[FindClass(classes, c).value].capacity, Enrolled(enr, c))
  }

  /** The same checks with the chosen class required to belong to the typed course. */
  predicate EnrollAccepted(classes: seq<ClassRow>, enr: seq<EnrollRow>, s: string, course: string, c: string) {
    EnrollAcceptedAsWritten(classes, enr, s, course, c) && classes[FindClass(classes, c).value].courseId == course
  }

  /**
   * The checks Student.swap_course makes, as written: the student holds the
   * old class, the new course has a listed class other than the old one, the
   * new ClassID is some row of the sheet, not yet held, and not full by the
   * count before the drop.
   */
  predicate SwapAcceptedAsWritten(classes: seq<ClassRow>, enr: seq<EnrollRow>, s: string, oldC: string, course: string, newC: string) {
    && HasPair(enr, s, oldC)
    && ListedFor(classes, enr, course, Some(oldC))
    && FindClass(classes, newC).Some?
    && !HasPair(enr, s, newC)
    && !IsFull(classes[FindClass(classes, newC).value].capacity, Enrolled(enr, newC))
  }

  /** The same checks with the new class required to belong to the typed course. */
  predicate SwapAccepted(classes: seq<ClassRow>, enr: seq<EnrollRow>, s: string, oldC: string, course: string, newC: string) {
    SwapAcceptedAsWritten(classes, enr, s, oldC, course, newC) && classes[FindClass(classes, newC).value].courseId == course
  }

  /**
   * As written, Student.enroll_course can record an enrollment whose CourseID
   * is not its class's: the student types course CS101, is shown its class C1,
   * then enters the ClassID C2 of a MA201 class; every check passes and the
   * row (S001, CS101, C2) breaks the agreement of CourseIDs. Both classes have
   * a positive Capacity, so the "Remaining Seats" column holds numbers only.
   */
  lemma EnrollAsWrittenMismatch()
    ensures var classes := [ClassRow("C1", "CS101", "Programming", "F001", 30), ClassRow("C2", "MA201", "Algebra", "F002", 25)];
      && Consistent(classes, [])
      && EnrollAcceptedAsWritten(classes, [], "S001", "CS101", "C2")
      && !EnrollAccepted(classes, [], "S001", "CS101", "C2")
      && !CourseAgrees(classes, [EnrollRow("S001", "CS101", "C2")])
  {
    MismatchOfTwoClasses(ClassRow("C1", "CS101", "Programming", "F001", 30), ClassRow("C2", "MA201", "Algebra", "F002", 25), "S001");
  }

  /**
   * The same for any two classes of different courses with a positive
   * Capacity and no students yet: enrolling in the second one under the first
   * one's CourseID passes every check as written.
   */
  lemma MismatchOfTwoClasses(r1: ClassRow, r2: ClassRow, s: string)
    requires r1.classId != r2.classId && r1.courseId != r2.courseId
    requires r1.capacity > 0 && r2.capacity > 0
    ensures && Consistent([r1, r2], [])
            && EnrollAcceptedAsWritten([r1, r2], [], s, r1.courseId, r2.classId)
            && !EnrollAccepted([r1, r2], [], s, r1.courseId, r2.classId)
            && !CourseAgrees([r1, r2], [EnrollRow(s, r1.courseId, r2.classId)])
  {
    var classes := [r1, r2];
    assert !IsClass(r2.classId)(classes[0]) && IsClass(r2.classId)(classes[1]);
    assert Listed(classes[0].capacity, Enrolled([], r1.classId));
    assert FindClass(classes, r2.classId) == Some(1);
    forall id
      ensures Count(classes, IsClass(id)) <= 1
    {
      assert classes[1..] == [r2] && classes[1..][1..] == [];
    }
    var row := EnrollRow(s, r1.courseId, r2.classId);
    assert row in [row];
  }

  /**
   * Student.swap_course as written has the same gap: the new ClassID is looked
   * up in the whole sheet, while the new row carries the typed CourseID. A
   * student who holds C1 of CS101 types MA201, is shown its class C2, then
   * enters the ClassID C3 of a PH301 class; every check passes and the moved
   * row (S001, MA201, C3) breaks the agreement of CourseIDs.
   */
  lemma SwapAsWrittenMismatch()
    ensures var classes := [ClassRow("C1", "CS101", "Programming", "F001", 30),
                            ClassRow("C2", "MA201", "Algebra", "F002", 25),
                            ClassRow("C3", "PH301", "Physics", "F003", 20)];
      var enr := [EnrollRow("S001", "CS101", "C1")];
      && Consistent(classes, enr)
      && SwapAcceptedAsWritten(classes, enr, "S001", "C1", "MA201", "C3")
      && !SwapAccepted(classes, enr, "S001", "C1", "MA201", "C3")
      && !CourseAgrees(classes, WithoutPair(enr, "S001", "C1") + [EnrollRow("S001", "MA201", "C3")])
  {
    SwapMismatchOfThreeClasses(ClassRow("C1", "CS101", "Programming", "F001", 30),
                               ClassRow("C2", "MA201", "Algebra", "F002", 25),
                               ClassRow("C3", "PH301", "Physics", "F003", 20), "S001");
  }

  /**
   * The same for any student holding class r0 alone, a class r1 of the typed
   * course and a class r2 of another course, r1 and r2 with a positive
   * Capacity and no students: swapping r0 for r2 under r1's CourseID passes
   * every check as written.
   */
  lemma SwapMismatchOfThreeClasses(r0: ClassRow, r1: ClassRow, r2: ClassRow, s: string)
    requires r0.classId != r1.classId && r0.classId != r2.classId && r1.classId != r2.classId
    requires r1.courseId != r2.courseId
    requires r1.capacity > 0 && r2.capacity > 0
    ensures var enr := [EnrollRow(s, r0.courseId, r0.classId)];
      && Consistent([r0, r1, r2], enr)
      && SwapAcceptedAsWritten([r0, r1, r2], enr, s, r0.classId, r1.courseId, r2.classId)
      && !SwapAccepted([r0, r1, r2], enr, s, r0.classId, r1.courseId, r2.classId)
      && !CourseAgrees([r0, r1, r2], WithoutPair(enr, s, r0.classId) + [EnrollRow(s, r1.courseId, r2.classId)])
  {
    var classes := [r0, r1, r2];
    var enr := [EnrollRow(s, r0.courseId, r0.classId)];
    assert classes[1..] == [r1, r2] && classes[1..][1..] == [r2] && classes[1..][1..][1..] == [];
    assert enr[1..] == [];
    assert FindClass(classes, r0.classId) == Some(0);
    assert !IsClass(r2.classId)(classes[0]) && !IsClass(r2.classId)(classes[1]) && IsClass(r2.classId)(classes[2]);
    assert FindClass(classes, r2.classId) == Some(2);
    assert Listed(classes[1].capacity, Enrolled(enr, r1.classId));
    assert HasPair(enr, s, r0.classId) && !HasPair(enr, s, r2.classId);
    assert WithoutPair(enr, s, r0.classId) == [];
    var row := EnrollRow(s, r1.courseId, r2.classId);
    assert row in [] + [row];
  }

  class Workbook {
    var classes: seq<ClassRow>
    var enrollments: seq<EnrollRow>
    var students: set<string>
    var faculty: set<string>

    ghost predicate Valid()
      reads this
    {
      Consistent(classes, enrollments)
    }

    /** A new workbook: every sheet empty. */
    constructor ()
      ensures Valid()
      ensures classes == [] && enrollments == [] && students == {} && faculty == {}
    {
      classes, enrollments, students, faculty := [], [], {}, {};
    }

    /**
     * Admin.create_course_assignment: refused for a ClassID already in the
     * sheet; otherwise one class row is appended, a blank or unparsable
     * capacity becoming 0. An unknown FacultyID is only warned about.
     */
    method CreateCourseAssignment(classId: string, courseId: string, courseName: string, facultyId: string,
                                  capacity: CapacityInput)
      returns (status: Status, facultyKnown: bool)
      requires Valid()
      modifies this`classes
      ensures Valid()
      ensures facultyKnown <==> facultyId in faculty
      ensures status == Done <==> FindClass(old(classes), classId).None?
      ensures status != Done ==> status == DuplicateClassId && classes == old(classes)
      ensures status == Done ==>
        && classes == old(classes) + [ClassRow(classId, courseId, courseName, facultyId, CapacityOnCreate(capacity))]
        && FindClass(classes, classId) == Some(|old(classes)|)
    {
      facultyKnown := facultyId in faculty;
      if FindClass(classes, classId).Some? {
        return DuplicateClassId, facultyKnown;
      }
      var row := ClassRow(classId, courseId, courseName, facultyId, CapacityOnCreate(capacity));
      AddClassKeepsConsistent(classes, enrollments, row);
      FirstAppend(classes, row, IsClass(classId));
      classes := classes + [row];
      status := Done;
    }

    /**
     * Admin.modify_course_assignment on the first row with the ClassID: a
     * non-empty name replaces the name, a non-empty FacultyID replaces the
     * faculty only when it is registered, and a number replaces the capacity
     * (with a warning when it is positive and below the live count); anything
     * else keeps the current value.
     */
    method ModifyCourseAssignment(classId: string, newName: string, newFaculty: string, newCapacity: CapacityInput)
      returns (status: Status, belowCount: bool)
      requires Valid()
      modifies this`classes
      ensures Valid()
      ensures status == Done <==> FindClass(old(classes), classId).Some?
      ensures status != Done ==> status == ClassNotFound && classes == old(classes) && !belowCount
      ensures status == Done ==>
        var i := FindClass(old(classes), classId).value;
        var row := old(classes)[i];
        && belowCount == (newCapacity.Number? && newCapacity.n > 0 && Enrolled(enrollments, classId) > newCapacity.n)
        && classes == old(classes)[i := ClassRow(
             classId,
             row.courseId,
             if newName != "" then newName else row.courseName,
             if newFaculty != "" && newFaculty in faculty then newFaculty else row.facultyId,
             if newCapacity.Number? then newCapacity.n else row.capacity)]
    {
      belowCount := false;
      var found := FindClass(classes, classId);
      if found.None? {
        return ClassNotFound, false;
      }
      var i := found.value;
      var row := classes[i];
      if newName != "" {
        row := row.(courseName := newName);
      }
      if newFaculty != "" && newFaculty in faculty {
        row := row.(facultyId := newFaculty);
      }
      if newCapacity.Number? {
        belowCount := newCapacity.n > 0 && Enrolled(enrollments, classId) > newCapacity.n;
        row := row.(capacity := newCapacity.n);
      }
      UpdateKeepsConsistent(classes, enrollments, i, row);
      classes := classes[i := row];
      status := Done;
    }

    /**
     * The add branch of Admin.manage_enrollments: refused for an unknown
     * student or ClassID, an existing pair, or a full class; otherwise one row
     * (student, the class's CourseID, ClassID) is appended.
     */
    method AdminAdd(s: string, c: string) returns (status: Status)
      requires Valid()
      modifies this`enrollments
      ensures Valid()
      ensures old(classes) != [] && s !in students ==> status == StudentNotFound
      ensures s in students && FindClass(classes, c).None? ==> status == ClassNotFound
      ensures s in students && FindClass(classes, c).Some? && HasPair(old(enrollments), s, c) ==> status == AlreadyEnrolled
      ensures status == Done <==>
        && s in students
        && FindClass(classes, c).Some?
        && !HasPair(old(enrollments), s, c)
        && !IsFull(classes[FindClass(classes, c).value].capacity, Enrolled(old(enrollments), c))
      ensures status != Done ==> enrollments == old(enrollments)
      ensures status == Done ==>
        var row := classes[FindClass(classes, c).value];
        && enrollments == old(enrollments) + [EnrollRow(s, row.courseId, c)]
        && Enrolled(enrollments, c) == Enrolled(old(enrollments), c) + 1
        && (row.capacity > 0 ==> Enrolled(enrollments, c) <= row.capacity)
    {
      if students == {} {
        return StudentNotFound;
      }
      if classes == [] {
        return ClassNotFound;
      }
      if s !in students {
        return StudentNotFound;
      }
      var found := FindClass(classes, c);
      if found.None? {
        return ClassNotFound;
      }
      if HasPair(enrollments, s, c) {
        return AlreadyEnrolled;
      }
      var row := classes[found.value];
      if IsFull(row.capacity, Enrolled(enrollments, c)) {
        return Full;
      }
      var e := EnrollRow(s, row.courseId, c);
      AppendKeepsConsistent(classes, enrollments, e);
      EnrolledAfterAppend(enrollments, e, c);
      enrollments := enrollments + [e];
      status := Done;
    }

    /**
     * The remove branch of Admin.manage_enrollments, with Capacity left as it
     * is: refused unless the student holds the pair; otherwise every row of the
     * pair goes and the class's live count drops by exactly one.
     */
    method AdminRemove(s: string, c: string) returns (status: Status)
      requires Valid()
      modifies this`enrollments
      ensures Valid()
      ensures old(classes) != [] && s !in students ==> status == StudentNotFound
      ensures status == Done <==> s in students && HasPair(old(enrollments), s, c)
      ensures status != Done ==> enrollments == old(enrollments)
      ensures status == Done ==>
        && enrollments == WithoutPair(old(enrollments), s, c)
        && !HasPair(enrollments, s, c)
        && (forall id :: Enrolled(enrollments, id) == Enrolled(old(enrollments), id) - (if id == c then 1 else 0))
    {
      if students == {} {
        return StudentNotFound;
      }
      if classes == [] {
        return ClassNotFound;
      }
      if s !in students {
        return StudentNotFound;
      }
      if !HasPair(enrollments, s, c) {
        return NotEnrolled;
      }
      RemoveKeepsConsistent(classes, enrollments, s, c);
      RemovedPairGone(enrollments, s, c);
      forall id
        ensures Enrolled(WithoutPair(enrollments, s, c), id) == Enrolled(enrollments, id) - (if id == c then 1 else 0)
      {
        EnrolledAfterRemove(enrollments, s, c, id);
      }
      enrollments := WithoutPair(enrollments, s, c);
      status := Done;
    }

    /**
     * The remove branch as written: after the rows of the pair go, the
     * class's Capacity is raised by one whenever it is not negative, so an
     * unlimited class (0) becomes a class of one seat.
     */
    method AdminRemoveAsWritten(s: string, c: string) returns (status: Status)
      requires Valid()
      modifies this`enrollments, this`classes
      ensures Valid()
      ensures status == Done <==> s in old(students) && HasPair(old(enrollments), s, c)
      ensures status != Done ==> enrollments == old(enrollments) && classes == old(classes)
      ensures status == Done ==>
        && FindClass(old(classes), c).Some?
        && var i := FindClass(old(classes), c).value;
        && enrollments == WithoutPair(old(enrollments), s, c)
        && classes == old(classes)[i := old(classes)[i].(capacity := CapacityAfterRemoveAsWritten(old(classes)[i].capacity))]
    {
      if students == {} {
        return StudentNotFound;
      }
      if classes == [] {
        return ClassNotFound;
      }
      if s !in students {
        return StudentNotFound;
      }
      if !HasPair(enrollments, s, c) {
        return NotEnrolled;
      }
      HeldClassExists(classes, enrollments, s, c);
      var i := FindClass(classes, c).value;
      RemoveKeepsConsistent(classes, enrollments, s, c);
      var row := classes[i].(capacity := CapacityAfterRemoveAsWritten(classes[i].capacity));
      UpdateKeepsConsistent(classes, WithoutPair(enrollments, s, c), i, row);
      enrollments := WithoutPair(enrollments, s, c);
      classes := classes[i := row];
      status := Done;
    }

    /**
     * Faculty.drop_and_assign_course: refused unless `me` teaches the class,
     * another faculty member exists, and the new FacultyID is registered;
     * otherwise the class row's FacultyID alone changes.
     */
    method ReassignClass(me: string, c: string, newFaculty: string) returns (status: Status)
      requires Valid()
      modifies this`classes
      ensures Valid()
      ensures First(old(classes), Teaches(me, c)).None? ==> status == NotYourClass
      ensures status == Done <==>
        First(old(classes), Teaches(me, c)).Some? && faculty - {me} != {} && newFaculty in faculty
      ensures status != Done ==> classes == old(classes)
      ensures status == Done ==>
        && FindClass(old(classes), c).Some?
        && var i := FindClass(old(classes), c).value;
        && old(classes)[i].facultyId == me
        && classes == old(classes)[i := old(classes)[i].(facultyId := newFaculty)]
    {
      var mine := First(classes, Teaches(me, c));
      if mine.None? {
        return NotYourClass;
      }
      OnlyRow(classes, c, mine.value);
      var i := FindClass(classes, c).value;
      if faculty - {me} == {} {
        return NoOtherFaculty;
      }
      if newFaculty !in faculty {
        return FacultyNotFound;
      }
      UpdateKeepsConsistent(classes, enrollments, i, classes[i].(facultyId := newFaculty));
      classes := classes[i := classes[i].(facultyId := newFaculty)];
      status := Done;
    }

    /**
     * Student.enroll_course with the chosen class required to be of the typed
     * course: refused for a course without classes, a course whose classes
     * are all full, an unknown ClassID or one of another course, an existing
     * pair, or a full class; otherwise one row (student, course, ClassID) is
     * appended and Capacity is left as it is.
     */
    method StudentEnroll(s: string, course: string, c: string) returns (status: Status)
      requires Valid()
      modifies this`enrollments
      ensures Valid()
      ensures First(classes, OfCourse(course)).None? ==> status == CourseNotFound
      ensures status == Done <==> EnrollAccepted(classes, old(enrollments), s, course, c)
      ensures status != Done ==> enrollments == old(enrollments)
      ensures status == Done ==>
        && enrollments == old(enrollments) + [EnrollRow(s, course, c)]
        && Enrolled(enrollments, c) == Enrolled(old(enrollments), c) + 1
    {
      if classes == [] || First(classes, OfCourse(course)).None? {
        return CourseNotFound;
      }
      if !ListedFor(classes, enrollments, course, None) {
        return NoneListed;
      }
      var found := FindClass(classes, c);
      if found.None? || classes[found.value].courseId != course {
        return ClassNotFound;
      }
      if HasPair(enrollments, s, c) {
        return AlreadyEnrolled;
      }
      if IsFull(classes[found.value].capacity, Enrolled(enrollments, c)) {
        return Full;
      }
      var e := EnrollRow(s, course, c);
      AppendKeepsConsistent(classes, enrollments, e);
      EnrolledAfterAppend(enrollments, e, c);
      enrollments := enrollments + [e];
      status := Done;
    }

    /**
     * Student.enroll_course as written: the chosen ClassID is looked up in the
     * whole Courses sheet, so the appended row can carry the typed CourseID
     * with a class of another course (see EnrollAsWrittenMismatch).
     */
    method StudentEnrollAsWritten(s: string, course: string, c: string) returns (status: Status)
      requires Valid()
      modifies this`enrollments
      ensures status == Done <==> EnrollAcceptedAsWritten(classes, old(enrollments), s, course, c)
      ensures status != Done ==> enrollments == old(enrollments)
      ensures status == Done ==> enrollments == old(enrollments) + [EnrollRow(s, course, c)]
    {
      if classes == [] || First(classes, OfCourse(course)).None? {
        return CourseNotFound;
      }
      if !ListedFor(classes, enrollments, course, None) {
        return NoneListed;
      }
      var found := FindClass(classes, c);
      if found.None? {
        return ClassNotFound;
      }
      if HasPair(enrollments, s, c) {
        return AlreadyEnrolled;
      }
      if IsFull(classes[found.value].capacity, Enrolled(enrollments, c)) {
        return Full;
      }
      enrollments := enrollments + [EnrollRow(s, course, c)];
      status := Done;
    }

    /** Student.drop_course: refused unless the student holds the pair; otherwise its rows go and Capacity is left as it is. */
    method StudentDrop(s: string, c: string) returns (status: Status)
      requires Valid()
      modifies this`enrollments
      ensures Valid()
      ensures status == Done <==> HasPair(old(enrollments), s, c)
      ensures status != Done ==> status == NotEnrolled && enrollments == old(enrollments)
      ensures status == Done ==>
        && enrollments == WithoutPair(old(enrollments), s, c)
        && !HasPair(enrollments, s, c)
        && Enrolled(enrollments, c) == Enrolled(old(enrollments), c) - 1
    {
      if !HasPair(enrollments, s, c) {
        return NotEnrolled;
      }
      // the class row exists: the source's check for a missing row cannot fire
      HeldClassExists(classes, enrollments, s, c);
      RemoveKeepsConsistent(classes, enrollments, s, c);
      RemovedPairGone(enrollments, s, c);
      EnrolledAfterRemove(enrollments, s, c, c);
      enrollments := WithoutPair(enrollments, s, c);
      status := Done;
    }

    /**
     * Student.swap_course with Capacity left as it is and the new class
     * required to be of the typed course: every check is made before anything
     * is written; then the rows of the old pair go and one row (student, new
     * course, new ClassID) is appended.
     */
    method StudentSwap(s: string, oldC: string, course: string, newC: string) returns (status: Status)
      requires Valid()
      modifies this`enrollments
      ensures Valid()
      ensures !HasPair(old(enrollments), s, oldC) ==> status == NotEnrolled
      ensures HasPair(old(enrollments), s, oldC) && HasPair(old(enrollments), s, newC) ==> status != Done
      ensures status == Done <==> SwapAccepted(classes, old(enrollments), s, oldC, course, newC)
      ensures status != Done ==> enrollments == old(enrollments)
      ensures status == Done ==>
        && newC != oldC
        && enrollments == WithoutPair(old(enrollments), s, oldC) + [EnrollRow(s, course, newC)]
        && Enrolled(enrollments, oldC) == Enrolled(old(enrollments), oldC) - 1
        && Enrolled(enrollments, newC) == Enrolled(old(enrollments), newC) + 1
    {
      if !HasPair(enrollments, s, oldC) {
        return NotEnrolled;
      }
      HeldClassExists(classes, enrollments, s, oldC);
      if First(classes, OfCourse(course)).None? {
        return CourseNotFound;
      }
      if !ListedFor(classes, enrollments, course, Some(oldC)) {
        return NoneListed;
      }
      var found := FindClass(classes, newC);
      if found.None? || classes[found.value].courseId != course {
        return ClassNotFound;
      }
      if HasPair(enrollments, s, newC) {
        return AlreadyEnrolled;
      }
      if IsFull(classes[found.value].capacity, Enrolled(enrollments, newC)) {
        return Full;
      }
      Move(s, oldC, EnrollRow(s, course, newC));
      status := Done;
    }

    /**
     * The write of a swap: the rows of the held pair (s, oldC) go and row `e`
     * of the same student for another class, which they do not hold, is
     * appended; one unit of live count moves from oldC to e's class.
     */
    method Move(s: string, oldC: string, e: EnrollRow)
      requires Valid() && HasPair(enrollments, s, oldC)
      requires e.student == s && e.classId != oldC && !HasPair(enrollments, s, e.classId)
      requires FindClass(classes, e.classId).Some? && classes[FindClass(classes, e.classId).value].courseId == e.courseId
      modifies this`enrollments
      ensures Valid()
      ensures enrollments == WithoutPair(old(enrollments), s, oldC) + [e]
      ensures Enrolled(enrollments, oldC) == Enrolled(old(enrollments), oldC) - 1
      ensures Enrolled(enrollments, e.classId) == Enrolled(old(enrollments), e.classId) + 1
    {
      var kept := WithoutPair(enrollments, s, oldC);
      RemoveKeepsConsistent(classes, enrollments, s, oldC);
      CountKeepLe(enrollments, NotPair(s, oldC), IsPair(s, e.classId));
      AppendKeepsConsistent(classes, kept, e);
      EnrolledAfterRemove(enrollments, s, oldC, oldC);
      EnrolledAfterRemove(enrollments, s, oldC, e.classId);
      EnrolledAfterAppend(kept, e, oldC);
      EnrolledAfterAppend(kept, e, e.classId);
      enrollments := kept + [e];
    }

    /**
     * Student.swap_course as written: the new ClassID is looked up in the whole
     * sheet, and besides moving the student it raises the old class's positive
     * Capacity by one and lowers the new class's positive Capacity by one.
     */
    method StudentSwapAsWritten(s: string, oldC: string, course: string, newC: string) returns (status: Status)
      requires Valid()
      modifies this`enrollments, this`classes
      ensures status == Done <==> SwapAcceptedAsWritten(old(classes), old(enrollments), s, oldC, course, newC)
      ensures status != Done ==> enrollments == old(enrollments) && classes == old(classes)
      ensures status == Done ==>
        && FindClass(old(classes), oldC).Some? && FindClass(old(classes), newC).Some?
        && var oi := FindClass(old(classes), oldC).value;
        && var ni := FindClass(old(classes), newC).value;
        && oi != ni
        && enrollments == WithoutPair(old(enrollments), s, oldC) + [EnrollRow(s, course, newC)]
        && classes == old(classes)[oi := old(classes)[oi].(capacity := CapacityReleasedAsWritten(old(classes)[oi].capacity))]
                                  [ni := old(classes)[ni].(capacity := CapacityTakenAsWritten(old(classes)[ni].capacity))]
    {
      if !HasPair(enrollments, s, oldC) {
        return NotEnrolled;
      }
      HeldClassExists(classes, enrollments, s, oldC);
      var oi := FindClass(classes, oldC).value;
      if First(classes, OfCourse(course)).None? {
        return CourseNotFound;
      }
      if !ListedFor(classes, enrollments, course, Some(oldC)) {
        return NoneListed;
      }
      var found := FindClass(classes, newC);
      if found.None? {
        return ClassNotFound;
      }
      var ni := found.value;
      if HasPair(enrollments, s, newC) {
        return AlreadyEnrolled;
      }
      if IsFull(classes[ni].capacity, Enrolled(enrollments, newC)) {
        return Full;
      }
      assert IsClass(oldC)(classes[oi]) && IsClass(newC)(classes[ni]) && oldC != newC;
      var newClasses := classes[oi := classes[oi].(capacity := CapacityReleasedAsWritten(classes[oi].capacity))];
      newClasses := newClasses[ni := classes[ni].(capacity := CapacityTakenAsWritten(classes[ni].capacity))];
      enrollments := WithoutPair(enrollments, s, oldC) + [EnrollRow(s, course, newC)];
      classes := newClasses;
      status := Done;
    }
  }
}

/**
 * The service variant (main.py): CourseService over the Courses and
 * Enrollments sheets of Sheets. The sheets the DataManager would load are
 * passed in as values to the queries and held as fields by the class whose
 * methods save a new Enrollments sheet.
 */
module Service {
  import opened Options
  import opened Rows
  import opened Seats
  import opened Sheets

  /**
   * CourseService.can_enroll: false for an unknown ClassID, true for a
   * Capacity of 0, otherwise true exactly when the live count is below the
   * Capacity of the class's first row.
   */
  function CanEnroll(classes: seq<ClassRow>, enr: seq<EnrollRow>, c: string): (ok: bool)
    ensures FindClass(classes, c).None? ==> !ok
    ensures FindClass(classes, c).Some? ==>
      var cap := classes[FindClass(classes, c).value].capacity;
      && (cap == 0 ==> ok)
      && (cap != 0 ==> (ok <==> Enrolled(enr, c) < cap))
  {
    match FindClass(classes, c)
    case None => false
    case Some(i) => classes[i].capacity == 0 || Enrolled(enr, c) < classes[i].capacity
  }

  /**
   * can_enroll is the negation of the full guard the other variants use, for
   * every Capacity that is not negative; a negative Capacity refuses every
   * enrollment although it is not full.
   */
  lemma CanEnrollIffNotFull(classes: seq<ClassRow>, enr: seq<EnrollRow>, c: string)
    requires FindClass(classes, c).Some?
    ensures var cap := classes[FindClass(classes, c).value].capacity;
      && (cap >= 0 ==> (CanEnroll(classes, enr, c) <==> !IsFull(cap, Enrolled(enr, c))))
      && (cap < 0 ==> !CanEnroll(classes, enr, c) && !IsFull(cap, Enrolled(enr, c)))
  {
  }

  /** One row of get_course_with_enrollment_info. */
  datatype ClassInfo = ClassInfo(row: ClassRow, enrolled: nat, remaining: Remaining)

  /** get_course_with_enrollment_info: every class row with its live count and "Remaining Seats". */
  function EnrollmentInfo(classes: seq<ClassRow>, enr: seq<EnrollRow>): (info: seq<ClassInfo>)
    ensures |info| == |classes|
    ensures forall i :: 0 <= i < |info| ==> info[i].row == classes[i] && info[i].enrolled == Enrolled(enr, classes[i].classId)
  {
    if classes == [] then []
    else
      var n := Enrolled(enr, classes[0].classId);
      [ClassInfo(classes[0], n, RemainingSeats(classes[0].capacity, n))] + EnrollmentInfo(classes[1..], enr)
  }

  /**
   * The information table and can_enroll agree on the class's first row: for a
   * Capacity that is not negative, can_enroll holds exactly when the row
   * shows seats left or Capacity 0.
   */
  lemma {:induction false} InfoAgreesWithCanEnroll(classes: seq<ClassRow>, enr: seq<EnrollRow>, c: string)
    requires FindClass(classes, c).Some?
    requires classes[FindClass(classes, c).value].capacity >= 0
    ensures var line := EnrollmentInfo(classes, enr)[FindClass(classes, c).value];
      CanEnroll(classes, enr, c) <==> line.row.capacity == 0 || (line.remaining.Left? && line.remaining.seats > 0)
  {
    InfoRemaining(classes, enr, FindClass(classes, c).value);
  }

  /** The "Remaining Seats" of line `i`: capacity minus count when positive, otherwise "Unlimited". */
  lemma {:induction false} InfoRemaining(classes: seq<ClassRow>, enr: seq<EnrollRow>, i: nat)
    requires i < |classes|
    ensures EnrollmentInfo(classes, enr)[i].remaining
         == RemainingSeats(classes[i].capacity, Enrolled(enr, classes[i].classId))
  {
    if i > 0 {
      InfoRemaining(classes[1..], enr, i - 1);
    }
  }

  class CourseService {
    var classes: seq<ClassRow>
    var enrollments: seq<EnrollRow>

    ghost predicate Valid()
      reads this
    {
      Consistent(classes, enrollments)
    }

    constructor ()
      ensures Valid()
      ensures classes == [] && enrollments == []
    {
      classes, enrollments := [], [];
    }

    /**
     * CourseService.enroll_student: false with no write when can_enroll fails
     * or the pair exists; otherwise one row (student, the class's CourseID,
     * ClassID) is appended and the result is true.
     */
    method EnrollStudent(s: string, c: string) returns (ok: bool)
      requires Valid()
      modifies this`enrollments
      ensures Valid()
      ensures ok <==> CanEnroll(classes, old(enrollments), c) && !HasPair(old(enrollments), s, c)
      ensures !ok ==> enrollments == old(enrollments)
      ensures ok ==>
        && FindClass(classes, c).Some?
        && enrollments == old(enrollments) + [EnrollRow(s, classes[FindClass(classes, c).value].courseId, c)]
        && Enrolled(enrollments, c) == Enrolled(old(enrollments), c) + 1
    {
      if !CanEnroll(classes, enrollments, c) {
        return false;
      }
      if HasPair(enrollments, s, c) {
        return false;
      }
      // can_enroll found the class: the second lookup cannot come back empty
      var i := FindClass(classes, c).value;
      var e := EnrollRow(s, classes[i].courseId, c);
      AppendKeepsConsistent(classes, enrollments, e);
      EnrolledAfterAppend(enrollments, e, c);
      enrollments := enrollments + [e];
      ok := true;
    }

    /** CourseService.drop_student: false with no write when the pair is absent; otherwise its rows go and the result is true. */
    method DropStudent(s: string, c: string) returns (ok: bool)
      requires Valid()
      modifies this`enrollments
      ensures Valid()
      ensures ok <==> HasPair(old(enrollments), s, c)
      ensures !ok ==> enrollments == old(enrollments)
      ensures ok ==>
        && enrollments == WithoutPair(old(enrollments), s, c)
        && !HasPair(enrollments, s, c)
        && (forall e :: e in enrollments <==> e in old(enrollments) && !(e.student == s && e.classId == c))
        && (forall id :: Enrolled(enrollments, id) == Enrolled(old(enrollments), id) - (if id == c then 1 else 0))
    {
      if !HasPair(enrollments, s, c) {
        return false;
      }
      RemoveKeepsConsistent(classes, enrollments, s, c);
      RemovedPairGone(enrollments, s, c);
      forall id
        ensures Enrolled(WithoutPair(enrollments, s, c), id) == Enrolled(enrollments, id) - (if id == c then 1 else 0)
      {
        EnrolledAfterRemove(enrollments, s, c, id);
      }
      enrollments := WithoutPair(enrollments, s, c);
      ok := true;
    }
  }
}

/**
 * The two sheets the spreadsheet variant (courseregv2.py) and the service
 * variant (main.py) share:
 *   Courses      ClassID, CourseID, CourseName, FacultyID, Capacity
 *   Enrollments  StudentID, CourseID, ClassID
 * The number of students in a class is counted live from the Enrollments
 * rows with its ClassID. `Consistent` is the invariant the operations keep:
 * ClassIDs are unique, no (StudentID, ClassID) pair is entered twice, and
 * every enrollment row names an existing class and that class's CourseID.
 */
module Sheets {
  import opened Options
  import opened Rows

  datatype ClassRow = ClassRow(classId: string, courseId: string, courseName: string, facultyId: string, capacity: int)
  datatype EnrollRow = EnrollRow(student: string, courseId: string, classId: string)

  // ----- masks -----

  function IsClass(id: string): ClassRow -> bool { (r: ClassRow) => r.classId == id }
  function OfCourse(c: string): ClassRow -> bool { (r: ClassRow) => r.courseId == c }
  function Teaches(f: string, id: string): ClassRow -> bool { (r: ClassRow) => r.facultyId == f && r.classId == id }
  function InClass(id: string): EnrollRow -> bool { (e: EnrollRow) => e.classId == id }
  function IsPair(s: string, id: string): EnrollRow -> bool { (e: EnrollRow) => e.student == s && e.classId == id }
  function NotPair(s: string, id: string): EnrollRow -> bool { (e: EnrollRow) => !(e.student == s && e.classId == id) }

  // ----- queries -----

  /** courses_df[courses_df['ClassID'] == id].index[0], when there is such a row. */
  function FindClass(classes: seq<ClassRow>, id: string): Option<nat> {
    First(classes, IsClass(id))
  }

  /** The live number of students in class `id`. */
  function Enrolled(enr: seq<EnrollRow>, id: string): nat {
    Count(enr, InClass(id))
  }

  predicate HasPair(enr: seq<EnrollRow>, s: string, id: string) {
    Count(enr, IsPair(s, id)) > 0
  }

  /** The Enrollments sheet without any row pairing student `s` with class `id`. */
  function WithoutPair(enr: seq<EnrollRow>, s: string, id: string): seq<EnrollRow> {
    Keep(enr, NotPair(s, id))
  }

  // ----- the invariant -----

  ghost predicate UniqueClassIds(classes: seq<ClassRow>) {
    forall id :: Count(classes, IsClass(id)) <= 1
  }

  ghost predicate UniquePairs(enr: seq<EnrollRow>) {
    forall s, id :: Count(enr, IsPair(s, id)) <= 1
  }

  predicate Referenced(classes: seq<ClassRow>, enr: seq<EnrollRow>) {
    forall e :: e in enr ==> FindClass(classes, e.classId).Some?
  }

  predicate CourseAgrees(classes: seq<ClassRow>, enr: seq<EnrollRow>) {
    forall e :: e in enr && FindClass(classes, e.classId).Some? ==>
      classes[FindClass(classes, e.classId).value].courseId == e.courseId
  }

  ghost predicate Consistent(classes: seq<ClassRow>, enr: seq<EnrollRow>) {
    UniqueClassIds(classes) && UniquePairs(enr) && Referenced(classes, enr) && CourseAgrees(classes, enr)
  }

  // ----- counting lemmas -----

  /** With unique ClassIDs, the only row with ClassID `id` is the one FindClass finds. */
  lemma OnlyRow(classes: seq<ClassRow>, id: string, j: nat)
    requires UniqueClassIds(classes)
    requires j < |classes| && classes[j].classId == id
    ensures FindClass(classes, id) == Some(j)
  {
    var i := FindClass(classes, id).value;
    if i != j {
      CountTwo(classes, i, j, IsClass(id));
    }
  }

  /** A held pair points at an existing class while `Referenced` holds. */
  lemma HeldClassExists(classes: seq<ClassRow>, enr: seq<EnrollRow>, s: string, id: string)
    requires Referenced(classes, enr) && HasPair(enr, s, id)
    ensures FindClass(classes, id).Some?
  {
    var i := CountWitness(enr, IsPair(s, id));
    assert enr[i] in enr;
  }

  /** Appending a row adds one to the live count of its class and to no other. */
  lemma EnrolledAfterAppend(enr: seq<EnrollRow>, e: EnrollRow, id: string)
    ensures Enrolled(enr + [e], id) == Enrolled(enr, id) + (if e.classId == id then 1 else 0)
  {
    CountAppend(enr, e, InClass(id));
  }

  /** Removing a held pair takes exactly one from the live count of its class and nothing from any other. */
  lemma EnrolledAfterRemove(enr: seq<EnrollRow>, s: string, id: string, other: string)
    requires UniquePairs(enr) && HasPair(enr, s, id)
    ensures Enrolled(WithoutPair(enr, s, id), other) == Enrolled(enr, other) - (if other == id then 1 else 0)
  {
    if other == id {
      CountKeep(enr, NotPair(s, id), InClass(id), IsPair(s, id));
      assert Count(enr, IsPair(s, id)) <= 1;
    } else {
      var none: EnrollRow -> bool := e => false;
      CountKeep(enr, NotPair(s, id), InClass(other), none);
    }
  }

  /** No pair is left after its rows are removed. */
  lemma RemovedPairGone(enr: seq<EnrollRow>, s: string, id: string)
    ensures !HasPair(WithoutPair(enr, s, id), s, id)
  {
    var r := WithoutPair(enr, s, id);
    forall i | 0 <= i < |r|
      ensures !IsPair(s, id)(r[i])
    {
      assert r[i] in r;
    }
  }

  // ----- the invariant under each sheet update -----

  /** Appending an enrollment of a new pair for an existing class, under that class's CourseID. */
  lemma AppendKeepsConsistent(classes: seq<ClassRow>, enr: seq<EnrollRow>, e: EnrollRow)
    requires Consistent(classes, enr)
    requires !HasPair(enr, e.student, e.classId)
    requires FindClass(classes, e.classId).Some? && classes[FindClass(classes, e.classId).value].courseId == e.courseId
    ensures Consistent(classes, enr + [e])
  {
    forall s, id
      ensures Count(enr + [e], IsPair(s, id)) <= 1
    {
      CountAppend(enr, e, IsPair(s, id));
    }
  }

  /** Removing the rows of one pair. */
  lemma RemoveKeepsConsistent(classes: seq<ClassRow>, enr: seq<EnrollRow>, s: string, id: string)
    requires Consistent(classes, enr)
    ensures Consistent(classes, WithoutPair(enr, s, id))
  {
    forall s', id'
      ensures Count(WithoutPair(enr, s, id), IsPair(s', id')) <= 1
    {
      CountKeepLe(enr, NotPair(s, id), IsPair(s', id'));
    }
  }

  /** Rewriting one class row, keeping its ClassID and CourseID. */
  lemma UpdateKeepsConsistent(classes: seq<ClassRow>, enr: seq<EnrollRow>, i: nat, r: ClassRow)
    requires Consistent(classes, enr)
    requires i < |classes| && r.classId == classes[i].classId && r.courseId == classes[i].courseId
    ensures Consistent(classes[i := r], enr)
    ensures forall id :: FindClass(classes[i := r], id) == FindClass(classes, id)
  {
    forall id
      ensures FindClass(classes[i := r], id) == FindClass(classes, id)
      ensures Count(classes[i := r], IsClass(id)) <= 1
    {
      FirstUpdate(classes, i, r, IsClass(id));
      CountUpdate(classes, i, r, IsClass(id));
    }
  }

  /** Appending a class row under a ClassID not yet in the sheet. */
  lemma AddClassKeepsConsistent(classes: seq<ClassRow>, enr: seq<EnrollRow>, r: ClassRow)
    requires Consistent(classes, enr)
    requires FindClass(classes, r.classId).None?
    ensures Consistent(classes + [r], enr)
    ensures forall id :: id != r.classId ==> FindClass(classes + [r], id) == FindClass(classes, id)
  {
    forall id
      ensures FindClass(classes + [r], id) == if id == r.classId then Some(|classes|) else FindClass(classes, id)
      ensures Count(classes + [r], IsClass(id)) <= 1
    {
      FirstAppend(classes, r, IsClass(id));
      CountAppend(classes, r, IsClass(id));
    }
    forall e | e in enr
      ensures FindClass(classes + [r], e.classId) == FindClass(classes, e.classId)
    {
      assert e.classId != r.classId;
    }
  }
}

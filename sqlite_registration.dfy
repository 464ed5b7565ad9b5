/**
 * The database variant of the registration engine (courseregv2_1.py; its copy
 * courseregv2_2.py differs only in two UI strings).
 *
 * Four tables are modelled:
 *   courses                     CourseID -> (CourseName, Credits)
 *   course_faculty_assignments  ClassID  -> (CourseID, FacultyID, Capacity, EnrolledStudents)
 *                               (an "offering": one section of a course)
 *   enrollments                 ClassID  -> (StudentID, FacultyAssignmentClassID)
 *   sequences                   the one row 'global_class_id_sequence'
 * Each offering keeps a stored counter, EnrolledStudents, which every
 * operation rewrites as the value it read plus or minus one. The object
 * invariant `Valid` states that the counter equals the number of enrollment
 * rows that reference the offering, that no offering is over capacity, that
 * every enrollment references an existing offering, and that every key was
 * issued by the sequence; every operation below keeps it.
 *
 * Each button handler in the source runs one SQLite transaction: either
 * `conn.commit()` is reached or `conn.rollback()` undoes every statement,
 * including the sequence increment made on the same cursor. The parameter
 * `storageOk` says whether the storage layer accepts the statements; when it
 * does not, the operation reports StorageFailure and changes nothing.
 */
module SqliteRegistration {
  import opened Options
  import opened ClassIds

  datatype Course = Course(name: string, credits: int)
  datatype Offering = Offering(course: string, faculty: string, capacity: int, enrolled: int)
  datatype Enrollment = Enrollment(student: string, offering: string)

  datatype Status =
    | Done
    | MissingField      // "All fields are required."
    | NotFound          // the selected row is not in its table
    | AlreadyEnrolled   // the student already holds this offering
    | NotEnrolled       // the student does not hold this offering
    | Full              // EnrolledStudents >= Capacity
    | SameOffering      // a swap of an offering for itself
    | DuplicateCourse   // the student already holds a section of this CourseID
    | StorageFailure    // sqlite3.Error: the transaction was rolled back

  // ----- queries over the tables -----

  /** The keys of the enrollment rows that reference offering `o`. */
  function RefsTo(enr: map<string, Enrollment>, o: string): set<string> {
    set k | k in enr && enr[k].offering == o
  }

  /** SELECT COUNT(*) FROM enrollments WHERE FacultyAssignmentClassID = o */
  function CountRefs(enr: map<string, Enrollment>, o: string): nat {
    |RefsTo(enr, o)|
  }

  /** Some enrollment row pairs student `s` with offering `o`. */
  predicate Holds(enr: map<string, Enrollment>, s: string, o: string) {
    exists k :: k in enr && enr[k].student == s && enr[k].offering == o
  }

  /** Student `s` is enrolled in some offering of course `c`. */
  predicate HoldsCourse(offs: map<string, Offering>, enr: map<string, Enrollment>, s: string, c: string) {
    exists k :: k in enr && enr[k].student == s && enr[k].offering in offs && offs[enr[k].offering].course == c
  }

  /** Faculty `f` already teaches an offering of course `c`. */
  predicate Assigned(offs: map<string, Offering>, c: string, f: string) {
    exists o :: o in offs && offs[o].course == c && offs[o].faculty == f
  }

  /** The enrollment rows left after offering `o` is deleted with ON DELETE CASCADE. */
  function Cascade(enr: map<string, Enrollment>, o: string): (r: map<string, Enrollment>)
    ensures forall k :: k in r <==> k in enr && enr[k].offering != o
    ensures forall k :: k in r ==> r[k] == enr[k]
  {
    map k | k in enr && enr[k].offering != o :: enr[k]
  }

  /** The stored sequence value, with the value the row is created with when absent. */
  function Stored(sequence: Option<int>): int {
    if sequence.Some? then sequence.value else SequenceStart
  }

  // ----- the parts of the invariant -----

  /** Every enrollment references an existing offering. */
  predicate Referenced(offs: map<string, Offering>, enr: map<string, Enrollment>) {
    forall k :: k in enr ==> enr[k].offering in offs
  }

  /** The stored counter of every offering equals its number of enrollment rows. */
  predicate CountsAgree(offs: map<string, Offering>, enr: map<string, Enrollment>) {
    forall o :: o in offs ==> offs[o].enrolled == CountRefs(enr, o)
  }

  /** No offering holds more students than its capacity. */
  predicate WithinCapacity(offs: map<string, Offering>) {
    forall o :: o in offs ==> offs[o].enrolled <= offs[o].capacity
  }

  /** No key of either table is a ClassID that the sequence has yet to issue: every key was issued before. */
  ghost predicate KeysIssued(offs: map<string, Offering>, enr: map<string, Enrollment>, sequence: Option<int>) {
    forall year: int, n: nat :: FourDigitYear(year) && n > Stored(sequence) ==>
      ClassId(year, n) !in offs && ClassId(year, n) !in enr
  }

  /** The stored sequence value never drops below its start. */
  predicate SequenceOk(sequence: Option<int>) {
    sequence.Some? ==> sequence.value >= SequenceStart
  }

  ghost predicate Consistent(offs: map<string, Offering>, enr: map<string, Enrollment>, sequence: Option<int>) {
    && Referenced(offs, enr)
    && CountsAgree(offs, enr)
    && WithinCapacity(offs)
    && SequenceOk(sequence)
    && KeysIssued(offs, enr, sequence)
  }

  // ----- counting lemmas -----

  /** Inserting a new enrollment row adds one to the count of its offering and to no other. */
  lemma CountAfterInsert(enr: map<string, Enrollment>, k: string, e: Enrollment, o: string)
    requires k !in enr
    ensures CountRefs(enr[k := e], o) == CountRefs(enr, o) + (if e.offering == o then 1 else 0)
  {
    if e.offering == o {
      assert RefsTo(enr[k := e], o) == RefsTo(enr, o) + {k};
    } else {
      assert RefsTo(enr[k := e], o) == RefsTo(enr, o);
    }
  }

  /** Deleting an enrollment row takes one from the count of its offering and from no other. */
  lemma CountAfterDelete(enr: map<string, Enrollment>, k: string, o: string)
    requires k in enr
    ensures CountRefs(enr - {k}, o) == CountRefs(enr, o) - (if enr[k].offering == o then 1 else 0)
  {
    if enr[k].offering == o {
      assert RefsTo(enr - {k}, o) == RefsTo(enr, o) - {k};
    } else {
      assert RefsTo(enr - {k}, o) == RefsTo(enr, o);
    }
  }

  /** After the cascade, the deleted offering has no rows and every other count is unchanged. */
  lemma CountAfterCascade(enr: map<string, Enrollment>, victim: string, o: string)
    ensures CountRefs(Cascade(enr, victim), o) == if o == victim then 0 else CountRefs(enr, o)
  {
    if o == victim {
      assert RefsTo(Cascade(enr, victim), o) == {};
    } else {
      assert RefsTo(Cascade(enr, victim), o) == RefsTo(enr, o);
    }
  }

  /** An offering that is not in the table has no enrollment rows while `Referenced` holds. */
  lemma AbsentHasNoRefs(offs: map<string, Offering>, enr: map<string, Enrollment>, o: string)
    requires Referenced(offs, enr)
    requires o !in offs
    ensures CountRefs(enr, o) == 0
  {
    assert RefsTo(enr, o) == {};
  }

  /** A held offering has a positive count: the counter written back as count - 1 never goes below 0. */
  lemma HeldCountPositive(enr: map<string, Enrollment>, k: string)
    requires k in enr
    ensures CountRefs(enr, enr[k].offering) >= 1
  {
    assert k in RefsTo(enr, enr[k].offering);
  }

  /** A ClassID drawn from the next sequence value is not yet a key of either table. */
  lemma NextIdFresh(offs: map<string, Offering>, enr: map<string, Enrollment>, sequence: Option<int>, year: int)
    requires SequenceOk(sequence) && KeysIssued(offs, enr, sequence)
    requires FourDigitYear(year)
    ensures ClassId(year, NextSequence(sequence)) !in offs
    ensures ClassId(year, NextSequence(sequence)) !in enr
  {
  }

  /**
   * Drawing a sequence number keeps every key issued; so does then keying one
   * new row of either table by the drawn ClassID.
   */
  lemma DrawKeepsIssued(offs: map<string, Offering>, enr: map<string, Enrollment>, sequence: Option<int>, year: int,
                        offs': map<string, Offering>, enr': map<string, Enrollment>)
    requires SequenceOk(sequence) && KeysIssued(offs, enr, sequence)
    requires FourDigitYear(year)
    requires offs'.Keys <= offs.Keys + {ClassId(year, NextSequence(sequence))}
    requires enr'.Keys <= enr.Keys + {ClassId(year, NextSequence(sequence))}
    ensures KeysIssued(offs', enr', Some(NextSequence(sequence)))
  {
    var next := NextSequence(sequence);
    forall y: int, n: nat | FourDigitYear(y) && n > next
      ensures ClassId(y, n) !in offs' && ClassId(y, n) !in enr'
    {
      if ClassId(y, n) == ClassId(year, next) {
        ClassIdInjective(y, n, year, next);
      }
    }
  }

  // ----- the invariant under each table update -----

  /** Enroll: one new row for `o` with its counter raised by one keeps the counts in agreement. */
  lemma EnrollKeepsAgreement(offs: map<string, Offering>, enr: map<string, Enrollment>, k: string, s: string, o: string)
    requires Referenced(offs, enr) && CountsAgree(offs, enr)
    requires k !in enr && o in offs
    ensures Referenced(offs[o := offs[o].(enrolled := offs[o].enrolled + 1)], enr[k := Enrollment(s, o)])
    ensures CountsAgree(offs[o := offs[o].(enrolled := offs[o].enrolled + 1)], enr[k := Enrollment(s, o)])
  {
    var offs' := offs[o := offs[o].(enrolled := offs[o].enrolled + 1)];
    forall p | p in offs'
      ensures offs'[p].enrolled == CountRefs(enr[k := Enrollment(s, o)], p)
    {
      CountAfterInsert(enr, k, Enrollment(s, o), p);
    }
  }

  /** Drop: deleting row `k` with its offering's counter lowered by one keeps the counts in agreement. */
  lemma DropKeepsAgreement(offs: map<string, Offering>, enr: map<string, Enrollment>, k: string)
    requires Referenced(offs, enr) && CountsAgree(offs, enr)
    requires k in enr
    ensures var o := enr[k].offering;
      && Referenced(offs[o := offs[o].(enrolled := offs[o].enrolled - 1)], enr - {k})
      && CountsAgree(offs[o := offs[o].(enrolled := offs[o].enrolled - 1)], enr - {k})
  {
    var o := enr[k].offering;
    var offs' := offs[o := offs[o].(enrolled := offs[o].enrolled - 1)];
    forall p | p in offs'
      ensures offs'[p].enrolled == CountRefs(enr - {k}, p)
    {
      CountAfterDelete(enr, k, p);
    }
  }

  /** Swap: drop row `k` and insert row `k2` for `n`, moving one unit of count from the old offering to `n`. */
  lemma SwapKeepsAgreement(offs: map<string, Offering>, enr: map<string, Enrollment>, k: string, k2: string, s: string, n: string)
    requires Referenced(offs, enr) && CountsAgree(offs, enr)
    requires k in enr && k2 !in enr - {k} && n in offs && n != enr[k].offering
    ensures var o := enr[k].offering;
      var offs' := offs[o := offs[o].(enrolled := offs[o].enrolled - 1)][n := offs[n].(enrolled := offs[n].enrolled + 1)];
      && Referenced(offs', (enr - {k})[k2 := Enrollment(s, n)])
      && CountsAgree(offs', (enr - {k})[k2 := Enrollment(s, n)])
  {
    var o := enr[k].offering;
    DropKeepsAgreement(offs, enr, k);
    var offs1 := offs[o := offs[o].(enrolled := offs[o].enrolled - 1)];
    assert offs1[n] == offs[n];
    EnrollKeepsAgreement(offs1, enr - {k}, k2, s, n);
    assert offs1[n := offs1[n].(enrolled := offs1[n].enrolled + 1)]
        == offs[o := offs[o].(enrolled := offs[o].enrolled - 1)][n := offs[n].(enrolled := offs[n].enrolled + 1)];
  }

  /** Faculty swap: repointing row `k` to `n` moves one unit of count from its old offering to `n`. */
  lemma RepointKeepsAgreement(offs: map<string, Offering>, enr: map<string, Enrollment>, k: string, n: string)
    requires Referenced(offs, enr) && CountsAgree(offs, enr)
    requires k in enr && n in offs && n != enr[k].offering
    ensures var o := enr[k].offering;
      var offs' := offs[o := offs[o].(enrolled := offs[o].enrolled - 1)][n := offs[n].(enrolled := offs[n].enrolled + 1)];
      && Referenced(offs', enr[k := enr[k].(offering := n)])
      && CountsAgree(offs', enr[k := enr[k].(offering := n)])
  {
    SwapKeepsAgreement(offs, enr, k, k, enr[k].student, n);
    assert (enr - {k})[k := Enrollment(enr[k].student, n)] == enr[k := enr[k].(offering := n)];
  }

  /** Delete: removing offering `o` together with its rows keeps the counts in agreement. */
  lemma CascadeKeepsAgreement(offs: map<string, Offering>, enr: map<string, Enrollment>, o: string)
    requires Referenced(offs, enr) && CountsAgree(offs, enr)
    ensures Referenced(offs - {o}, Cascade(enr, o))
    ensures CountsAgree(offs - {o}, Cascade(enr, o))
  {
    forall p | p in offs - {o}
      ensures (offs - {o})[p].enrolled == CountRefs(Cascade(enr, o), p)
    {
      CountAfterCascade(enr, o, p);
    }
  }

  /** Create: a new offering with count 0 under an unused ClassID keeps the counts in agreement. */
  lemma NewOfferingKeepsAgreement(offs: map<string, Offering>, enr: map<string, Enrollment>, id: string, off: Offering)
    requires Referenced(offs, enr) && CountsAgree(offs, enr)
    requires id !in offs && off.enrolled == 0
    ensures Referenced(offs[id := off], enr)
    ensures CountsAgree(offs[id := off], enr)
  {
    AbsentHasNoRefs(offs, enr, id);
  }

  /**
   * What create_course_assignment's loop over the selected faculty list `fs`
   * adds to the offerings table `before` to give `after`: existing rows stay as
   * they are; each ClassID in `created` is new and holds an offering of course
   * `c` with the given capacity and count 0, for a listed faculty member who
   * taught no offering of `c` before, with no faculty member served twice;
   * afterwards every listed faculty member teaches an offering of `c`.
   */
  ghost predicate CreatedFor(before: map<string, Offering>, after: map<string, Offering>, created: seq<string>,
                       c: string, fs: seq<string>, capacity: int) {
    && (forall o :: o in after <==> o in before || o in created)
    && (forall o :: o in before ==> after[o] == before[o])
    && (forall i :: 0 <= i < |created| ==>
          && created[i] !in before
          && created[i] in after
          && after[created[i]].course == c
          && after[created[i]].faculty in fs
          && !Assigned(before, c, after[created[i]].faculty)
          && after[created[i]].capacity == capacity
          && after[created[i]].enrolled == 0)
    && (forall i, j :: 0 <= i < j < |created| ==> after[created[i]].faculty != after[created[j]].faculty)
    && (forall f :: f in fs ==> Assigned(after, c, f))
  }

  /** Before the loop nothing is created. */
  lemma CreatedForStart(before: map<string, Offering>, c: string, capacity: int)
    ensures CreatedFor(before, before, [], c, [], capacity)
  {
  }

  /** A faculty member who already teaches `c` is skipped. */
  lemma CreatedForSkip(before: map<string, Offering>, after: map<string, Offering>, created: seq<string>,
                       c: string, fs: seq<string>, capacity: int, f: string)
    requires CreatedFor(before, after, created, c, fs, capacity)
    requires Assigned(after, c, f)
    ensures CreatedFor(before, after, created, c, fs + [f], capacity)
  {
    forall i | 0 <= i < |created|
      ensures after[created[i]].faculty in fs + [f]
    {
    }
  }

  /** A faculty member who does not yet teach `c` gets a new offering under the unused ClassID `id`. */
  lemma CreatedForAdd(before: map<string, Offering>, after: map<string, Offering>, created: seq<string>,
                      c: string, fs: seq<string>, capacity: int, f: string, id: string)
    requires CreatedFor(before, after, created, c, fs, capacity)
    requires !Assigned(after, c, f) && id !in after
    ensures CreatedFor(before, after[id := Offering(c, f, capacity, 0)], created + [id], c, fs + [f], capacity)
  {
    var after' := after[id := Offering(c, f, capacity, 0)];
    var created' := created + [id];
    forall i | 0 <= i < |created|
      ensures after[created[i]].faculty != f
    {
      assert created[i] in after;
    }
    forall i | 0 <= i < |created'|
      ensures && created'[i] !in before
              && created'[i] in after'
              && after'[created'[i]].course == c
              && after'[created'[i]].faculty in fs + [f]
              && !Assigned(before, c, after'[created'[i]].faculty)
              && after'[created'[i]].capacity == capacity
              && after'[created'[i]].enrolled == 0
    {
      if i < |created| {
        assert created'[i] == created[i];
        assert created[i] != id;
      }
    }
    forall g | g in fs + [f]
      ensures Assigned(after', c, g)
    {
      if g == f {
        assert after'[id].course == c && after'[id].faculty == f;
      } else {
        var o :| o in after && after[o].course == c && after[o].faculty == g;
        assert after'[o] == after[o];
      }
    }
  }

  /**
   * The ClassIDs in `created` are those of successive draws from the stored
   * value `start`, in order, and `now` is the stored value after them: `start`
   * itself when nothing was drawn.
   */
  predicate DrawnInOrder(start: Option<int>, now: Option<int>, created: seq<string>, year: int) {
    && FourDigitYear(year) && SequenceOk(start)
    && now == (if created == [] then start else Some(Draws(start, |created|)[|created| - 1]))
    && forall j :: 0 <= j < |created| ==> created[j] == ClassId(year, Draws(start, |created|)[j])
  }

  /** One more draw appends its ClassID and becomes the stored value. */
  lemma DrawnStep(start: Option<int>, now: Option<int>, created: seq<string>, year: int)
    requires DrawnInOrder(start, now, created, year)
    ensures DrawnInOrder(start, Some(NextSequence(now)), created + [ClassId(year, NextSequence(now))], year)
  {
    var k := |created|;
    DrawsSnoc(start, k);
    var created' := created + [ClassId(year, NextSequence(now))];
    forall j | 0 <= j < k + 1
      ensures created'[j] == ClassId(year, Draws(start, k + 1)[j])
    {
      if j < k {
        assert Draws(start, k + 1)[j] == Draws(start, k)[j];
      }
    }
  }

  // ----- the whole invariant under each transaction -----

  /** Enroll student `s` in offering `o` below capacity under the next ClassID. */
  lemma EnrollStep(offs: map<string, Offering>, enr: map<string, Enrollment>, sq: Option<int>, year: int, s: string, o: string)
    requires Consistent(offs, enr, sq) && FourDigitYear(year)
    requires o in offs && offs[o].enrolled < offs[o].capacity
    ensures var id := ClassId(year, NextSequence(sq));
      && id !in offs && id !in enr
      && Consistent(offs[o := offs[o].(enrolled := offs[o].enrolled + 1)], enr[id := Enrollment(s, o)], Some(NextSequence(sq)))
  {
    var id := ClassId(year, NextSequence(sq));
    NextIdFresh(offs, enr, sq, year);
    DrawKeepsIssued(offs, enr, sq, year, offs[o := offs[o].(enrolled := offs[o].enrolled + 1)], enr[id := Enrollment(s, o)]);
    EnrollKeepsAgreement(offs, enr, id, s, o);
  }

  /** Drop enrollment row `k`; the counter of its offering was at least 1. */
  lemma DropStep(offs: map<string, Offering>, enr: map<string, Enrollment>, sq: Option<int>, k: string)
    requires Consistent(offs, enr, sq)
    requires k in enr
    ensures var o := enr[k].offering;
      && o in offs && offs[o].enrolled >= 1
      && Consistent(offs[o := offs[o].(enrolled := offs[o].enrolled - 1)], enr - {k}, sq)
  {
    DropKeepsAgreement(offs, enr, k);
    HeldCountPositive(enr, k);
  }

  /** Replace row `k` by a row for offering `n` (below capacity) under the next ClassID. */
  lemma SwapStep(offs: map<string, Offering>, enr: map<string, Enrollment>, sq: Option<int>, year: int, k: string, s: string, n: string)
    requires Consistent(offs, enr, sq) && FourDigitYear(year)
    requires k in enr && n in offs && n != enr[k].offering && offs[n].enrolled < offs[n].capacity
    ensures var o := enr[k].offering;
      var id := ClassId(year, NextSequence(sq));
      && id !in enr
      && Consistent(offs[o := offs[o].(enrolled := offs[o].enrolled - 1)][n := offs[n].(enrolled := offs[n].enrolled + 1)],
                    (enr - {k})[id := Enrollment(s, n)], Some(NextSequence(sq)))
  {
    var o := enr[k].offering;
    var id := ClassId(year, NextSequence(sq));
    NextIdFresh(offs, enr, sq, year);
    DrawKeepsIssued(offs, enr, sq, year, offs[o := offs[o].(enrolled := offs[o].enrolled - 1)][n := offs[n].(enrolled := offs[n].enrolled + 1)],
                    (enr - {k})[id := Enrollment(s, n)]);
    SwapKeepsAgreement(offs, enr, k, id, s, n);
    HeldCountPositive(enr, k);
  }

  /** Point row `k` at offering `n` (below capacity). */
  lemma RepointStep(offs: map<string, Offering>, enr: map<string, Enrollment>, sq: Option<int>, k: string, n: string)
    requires Consistent(offs, enr, sq)
    requires k in enr && n in offs && n != enr[k].offering && offs[n].enrolled < offs[n].capacity
    ensures var o := enr[k].offering;
      Consistent(offs[o := offs[o].(enrolled := offs[o].enrolled - 1)][n := offs[n].(enrolled := offs[n].enrolled + 1)],
                 enr[k := enr[k].(offering := n)], sq)
  {
    RepointKeepsAgreement(offs, enr, k, n);
    HeldCountPositive(enr, k);
  }

  /** Delete offering `o` with its rows. */
  lemma CascadeStep(offs: map<string, Offering>, enr: map<string, Enrollment>, sq: Option<int>, o: string)
    requires Consistent(offs, enr, sq)
    ensures Consistent(offs - {o}, Cascade(enr, o), sq)
  {
    CascadeKeepsAgreement(offs, enr, o);
  }

  /** Add offering `off`, with count 0 and within its capacity, under the next ClassID. */
  lemma NewOfferingStep(offs: map<string, Offering>, enr: map<string, Enrollment>, sq: Option<int>, year: int, off: Offering)
    requires Consistent(offs, enr, sq) && FourDigitYear(year)
    requires off.enrolled == 0 <= off.capacity
    ensures var id := ClassId(year, NextSequence(sq));
      && id !in offs
      && Consistent(offs[id := off], enr, Some(NextSequence(sq)))
  {
    var id := ClassId(year, NextSequence(sq));
    NextIdFresh(offs, enr, sq, year);
    DrawKeepsIssued(offs, enr, sq, year, offs[id := off], enr);
    NewOfferingKeepsAgreement(offs, enr, id, off);
  }

  /**
   * As written, deleting from course_faculty_assignments does not cascade:
   * with SQLite's foreign-key enforcement off (no connection here runs
   * PRAGMA foreign_keys = ON), only the offering row goes. If the offering had
   * rows, they are all still there, they reference a missing offering, and the
   * re-count after the commit is the count before it.
   */
  lemma NoCascadeLeavesOrphans(offs: map<string, Offering>, enr: map<string, Enrollment>, o: string)
    requires o in offs && CountRefs(enr, o) > 0
    ensures !Referenced(offs - {o}, enr)
  {
    var k :| k in RefsTo(enr, o);
    assert enr[k].offering !in offs - {o};
  }

  /** A concrete database that shows it: one offering with one student; after the delete the row is orphaned. */
  lemma NoCascadeExample()
    ensures var offs := map["BL202425100001" := Offering("CS101", "F001", 30, 1)];
      var enr := map["BL202425100002" := Enrollment("S001", "BL202425100001")];
      && CountsAgree(offs, enr)
      && CountRefs(enr, "BL202425100001") == 1
      && !Referenced(offs - {"BL202425100001"}, enr)
  {
    var offs := map["BL202425100001" := Offering("CS101", "F001", 30, 1)];
    var enr := map["BL202425100002" := Enrollment("S001", "BL202425100001")];
    assert RefsTo(enr, "BL202425100001") == {"BL202425100002"};
    NoCascadeLeavesOrphans(offs, enr, "BL202425100001");
  }

  /** The first i + 1 names of a list are its first i names followed by the next one. */
  lemma PrefixExtends(fs: seq<string>, i: nat)
    requires i < |fs|
    ensures fs[..i + 1] == fs[..i] + [fs[i]]
  {
  }

  /** One new offering for faculty member `f` in the loop below keeps all three of its invariants. */
  lemma AddOfferingStep(offs0: map<string, Offering>, offs: map<string, Offering>, enr: map<string, Enrollment>,
                        seq0: Option<int>, sq: Option<int>, created: seq<string>,
                        c: string, fs: seq<string>, capacity: int, f: string, year: int)
    requires Consistent(offs, enr, sq) && FourDigitYear(year) && capacity >= 0
    requires CreatedFor(offs0, offs, created, c, fs, capacity) && !Assigned(offs, c, f)
    requires DrawnInOrder(seq0, sq, created, year)
    ensures var id := ClassId(year, NextSequence(sq));
      var offs' := offs[id := Offering(c, f, capacity, 0)];
      && Consistent(offs', enr, Some(NextSequence(sq)))
      && CreatedFor(offs0, offs', created + [id], c, fs + [f], capacity)
      && DrawnInOrder(seq0, Some(NextSequence(sq)), created + [id], year)
  {
    var id := ClassId(year, NextSequence(sq));
    NewOfferingStep(offs, enr, sq, year, Offering(c, f, capacity, 0));
    CreatedForAdd(offs0, offs, created, c, fs, capacity, f, id);
    DrawnStep(seq0, sq, created, year);
  }

  /**
   * The loop of create_course_assignment over the selected faculty list `fs`:
   * each one not yet teaching course `c` gets a new offering, with the given
   * capacity and count 0, under the ClassID of the next draw. Returns the new
   * offerings table, the stored sequence value and the ClassIDs created.
   */
  method AddOfferings(offs0: map<string, Offering>, enr: map<string, Enrollment>, seq0: Option<int>,
                      c: string, fs: seq<string>, capacity: int, year: int)
    returns (offs: map<string, Offering>, sq: Option<int>, created: seq<string>)
    requires Consistent(offs0, enr, seq0) && FourDigitYear(year)
    requires capacity >= 0
    ensures Consistent(offs, enr, sq)
    ensures CreatedFor(offs0, offs, created, c, fs, capacity)
    ensures DrawnInOrder(seq0, sq, created, year)
  {
    offs, sq, created := offs0, seq0, [];
    var i := 0;
    CreatedForStart(offs0, c, capacity);
    while i < |fs|
      invariant 0 <= i <= |fs|
      invariant Consistent(offs, enr, sq)
      invariant CreatedFor(offs0, offs, created, c, fs[..i], capacity)
      invariant DrawnInOrder(seq0, sq, created, year)
    {
      var f := fs[i];
      PrefixExtends(fs, i);
      if Assigned(offs, c, f) {
        CreatedForSkip(offs0, offs, created, c, fs[..i], capacity, f);
      } else {
        AddOfferingStep(offs0, offs, enr, seq0, sq, created, c, fs[..i], capacity, f, year);
        var n := NextSequence(sq);
        var id := ClassId(year, n);
        offs := offs[id := Offering(c, f, capacity, 0)];
        sq := Some(n);
        created := created + [id];
      }
      i := i + 1;
    }
    assert fs[..i] == fs;
  }

  class Registrar {
    var courses: map<string, Course>
    var offerings: map<string, Offering>
    var enrollments: map<string, Enrollment>
    var sequence: Option<int>

    ghost predicate Valid()
      reads this
    {
      Consistent(offerings, enrollments, sequence)
    }

    /** init_db on a new file: every table empty, no sequence row. */
    constructor ()
      ensures Valid()
      ensures courses == map[] && offerings == map[] && enrollments == map[] && sequence == None
    {
      courses, offerings, enrollments, sequence := map[], map[], map[], None;
    }

    /** get_next_sequence_number on its own connection: creates the row at 100000 if absent, stores and returns value + 1. */
    method NextSequenceNumber() returns (n: int)
      requires Valid()
      modifies this`sequence
      ensures Valid()
      ensures n == Stored(old(sequence)) + 1
      ensures sequence == Some(n)
    {
      n := NextSequence(sequence);
      sequence := Some(n);
    }

    /** generate_class_id with the clock's year passed in: the ClassID of the next sequence number. */
    method GenerateClassId(year: int) returns (id: string)
      requires Valid() && FourDigitYear(year)
      modifies this`sequence
      ensures Valid()
      ensures sequence == Some(NextSequence(old(sequence)))
      ensures id == ClassId(year, NextSequence(old(sequence)))
      ensures id !in offerings && id !in enrollments
    {
      NextIdFresh(offerings, enrollments, sequence, year);
      DrawKeepsIssued(offerings, enrollments, sequence, year, offerings, enrollments);
      var n := NextSequence(sequence);
      id := ClassId(year, n);
      sequence := Some(n);
    }

    /**
     * Admin.create_course_assignment: inserts the course row if its CourseID is
     * absent, then for each selected faculty member not already teaching the
     * course inserts an offering with a fresh ClassID, the given capacity and
     * count 0; all in one transaction.
     */
    method CreateCourseAssignment(courseId: string, courseName: string, credits: int, facultyIds: seq<string>,
                                  capacity: int, year: int, storageOk: bool)
      returns (status: Status, created: seq<string>)
      requires Valid() && FourDigitYear(year)
      requires capacity >= 1  // the form's number_input has min_value=1
      modifies this
      ensures Valid()
      ensures enrollments == old(enrollments)
      ensures courseId == "" || courseName == "" || facultyIds == [] ==> status == MissingField
      ensures status == Done <==> courseId != "" && courseName != "" && facultyIds != [] && storageOk
      ensures status != Done ==> created == [] && unchanged(this)
      ensures status == Done ==>
        && courses == (if courseId in old(courses) then old(courses) else old(courses)[courseId := Course(courseName, credits)])
        && CreatedFor(old(offerings), offerings, created, courseId, facultyIds, capacity)
        && DrawnInOrder(old(sequence), sequence, created, year)
    {
      created := [];
      if courseId == "" || courseName == "" || facultyIds == [] {
        return MissingField, [];
      }
      var courses' := if courseId in courses then courses else courses[courseId := Course(courseName, credits)];
      var offs, seqv;
      offs, seqv, created := AddOfferings(offerings, enrollments, sequence, courseId, facultyIds, capacity, year);
      if !storageOk {
        return StorageFailure, [];
      }
      courses, offerings, sequence := courses', offs, seqv;
      status := Done;
    }

    /**
     * Admin.modify_course_assignment: rewrites the parent course's name and
     * credits and the offering's FacultyID and Capacity, writing
     * EnrolledStudents back unchanged.
     */
    method ModifyCourseAssignment(o: string, newName: string, newCredits: int, newFaculty: string,
                                  newCapacity: int, storageOk: bool)
      returns (status: Status)
      requires Valid()
      requires o in offerings
      requires newCapacity >= offerings[o].enrolled  // the form's number_input has min_value = enrolled count
      modifies this
      ensures Valid()
      ensures status == Done <==> newName != "" && newFaculty != "" && storageOk
      ensures status != Done ==> unchanged(this)
      ensures status == Done ==>
        var c := old(offerings)[o].course;
        && courses == (if c in old(courses) then old(courses)[c := Course(newName, newCredits)] else old(courses))
        && offerings == old(offerings)[o := Offering(c, newFaculty, newCapacity, old(offerings)[o].enrolled)]
        && enrollments == old(enrollments) && sequence == old(sequence)
    {
      if newName == "" || newFaculty == "" {
        return MissingField;
      }
      if !storageOk {
        return StorageFailure;
      }
      var c := offerings[o].course;
      if c in courses {
        courses := courses[c := Course(newName, newCredits)];
      }
      offerings := offerings[o := Offering(c, newFaculty, newCapacity, offerings[o].enrolled)];
      status := Done;
    }

    /**
     * Admin.delete_course_assignment with the cascade the source relies on:
     * the offering and every enrollment row referencing it go; the number
     * of rows counted before the delete is returned, and the re-count after
     * it is zero.
     */
    method DeleteCourseAssignment(o: string, storageOk: bool) returns (status: Status, removed: nat)
      requires Valid()
      requires o in offerings
      modifies this
      ensures Valid()
      ensures status == Done <==> storageOk
      ensures status != Done ==> unchanged(this)
      ensures status == Done ==>
        && removed == CountRefs(old(enrollments), o) == old(offerings)[o].enrolled
        && offerings == old(offerings) - {o}
        && enrollments == Cascade(old(enrollments), o)
        && CountRefs(enrollments, o) == 0
        && courses == old(courses) && sequence == old(sequence)
    {
      removed := CountRefs(enrollments, o);
      if !storageOk {
        return StorageFailure, removed;
      }
      CascadeStep(offerings, enrollments, sequence, o);
      CountAfterCascade(enrollments, o, o);
      offerings := offerings - {o};
      enrollments := Cascade(enrollments, o);
      status := Done;
    }

    /**
     * Admin.delete_course_assignment as written: SQLite leaves foreign keys
     * unenforced, so only the offering row is deleted. The re-count after the
     * commit equals the count before it, which is the source's own error branch
     * whenever the offering had students.
     */
    method DeleteCourseAssignmentAsWritten(o: string, storageOk: bool) returns (status: Status, before: nat, after: nat)
      requires Valid()
      requires o in offerings
      modifies this
      ensures status == Done <==> storageOk
      ensures status != Done ==> unchanged(this)
      ensures status == Done ==>
        && offerings == old(offerings) - {o}
        && enrollments == old(enrollments)
        && courses == old(courses) && sequence == old(sequence)
        && before == after == CountRefs(enrollments, o)
        && (before > 0 ==> !Referenced(offerings, enrollments))
    {
      before := CountRefs(enrollments, o);
      if !storageOk {
        return StorageFailure, before, before;
      }
      if before > 0 {
        NoCascadeLeavesOrphans(offerings, enrollments, o);
      }
      offerings := offerings - {o};
      after := CountRefs(enrollments, o);
      status := Done;
    }

    // ----- the committed statements of each transaction -----

    /** INSERT of an enrollment row under the next ClassID, and EnrolledStudents written as count + 1. */
    method Enroll(s: string, o: string, year: int) returns (id: string)
      requires Valid() && FourDigitYear(year)
      requires o in offerings && offerings[o].enrolled < offerings[o].capacity
      modifies this`enrollments, this`offerings, this`sequence
      ensures Valid()
      ensures id == ClassId(year, NextSequence(old(sequence)))
      ensures id !in old(enrollments)
      ensures enrollments == old(enrollments)[id := Enrollment(s, o)]
      ensures offerings == old(offerings)[o := old(offerings)[o].(enrolled := old(offerings)[o].enrolled + 1)]
      ensures sequence == Some(NextSequence(old(sequence)))
    {
      EnrollStep(offerings, enrollments, sequence, year, s, o);
      var n := NextSequence(sequence);
      id := ClassId(year, n);
      enrollments := enrollments[id := Enrollment(s, o)];
      offerings := offerings[o := offerings[o].(enrolled := offerings[o].enrolled + 1)];
      sequence := Some(n);
    }

    /** UPDATE of row `e` to offering `n`, with the old counter written as count - 1 and the new one as count + 1. */
    method Repoint(e: string, n: string)
      requires Valid()
      requires e in enrollments && n in offerings && n != enrollments[e].offering
      requires offerings[n].enrolled < offerings[n].capacity
      modifies this`enrollments, this`offerings
      ensures Valid()
      ensures var o := old(enrollments)[e].offering;
        && enrollments == old(enrollments)[e := old(enrollments)[e].(offering := n)]
        && offerings == old(offerings)[o := old(offerings)[o].(enrolled := old(offerings)[o].enrolled - 1)]
                                      [n := old(offerings)[n].(enrolled := old(offerings)[n].enrolled + 1)]
    {
      var o := enrollments[e].offering;
      RepointStep(offerings, enrollments, sequence, e, n);
      enrollments := enrollments[e := enrollments[e].(offering := n)];
      offerings := offerings[o := offerings[o].(enrolled := offerings[o].enrolled - 1)]
                            [n := offerings[n].(enrolled := offerings[n].enrolled + 1)];
    }

    /** DELETE of row `e`, with the counter of its offering written as count - 1. */
    method DropRow(e: string)
      requires Valid()
      requires e in enrollments
      modifies this`enrollments, this`offerings
      ensures Valid()
      ensures var o := old(enrollments)[e].offering;
        && o in old(offerings) && old(offerings)[o].enrolled >= 1
        && enrollments == old(enrollments) - {e}
        && offerings == old(offerings)[o := old(offerings)[o].(enrolled := old(offerings)[o].enrolled - 1)]
    {
      var o := enrollments[e].offering;
      DropStep(offerings, enrollments, sequence, e);
      enrollments := enrollments - {e};
      offerings := offerings[o := offerings[o].(enrolled := offerings[o].enrolled - 1)];
    }

    /** DELETE of row `e` and INSERT of a row for `n` under the next ClassID, with the two counters moved by one. */
    method Swap(s: string, e: string, n: string, year: int) returns (id: string)
      requires Valid() && FourDigitYear(year)
      requires e in enrollments && n in offerings && n != enrollments[e].offering
      requires offerings[n].enrolled < offerings[n].capacity
      modifies this`enrollments, this`offerings, this`sequence
      ensures Valid()
      ensures var o := old(enrollments)[e].offering;
        && id == ClassId(year, NextSequence(old(sequence)))
        && id !in old(enrollments)
        && enrollments == (old(enrollments) - {e})[id := Enrollment(s, n)]
        && offerings == old(offerings)[o := old(offerings)[o].(enrolled := old(offerings)[o].enrolled - 1)]
                                      [n := old(offerings)[n].(enrolled := old(offerings)[n].enrolled + 1)]
        && sequence == Some(NextSequence(old(sequence)))
    {
      var o := enrollments[e].offering;
      SwapStep(offerings, enrollments, sequence, year, e, s, n);
      var next := NextSequence(sequence);
      id := ClassId(year, next);
      enrollments := (enrollments - {e})[id := Enrollment(s, n)];
      offerings := offerings[o := offerings[o].(enrolled := offerings[o].enrolled - 1)]
                            [n := offerings[n].(enrolled := offerings[n].enrolled + 1)];
      sequence := Some(next);
    }

    /**
     * The enroll branch of Admin.manage_enrollments: refused if the student
     * already holds this offering or EnrolledStudents >= Capacity; otherwise
     * one row under a fresh ClassID and the counter raised by one.
     */
    method AdminEnroll(s: string, o: string, year: int, storageOk: bool) returns (status: Status, id: string)
      requires Valid() && FourDigitYear(year)
      modifies this
      ensures Valid()
      ensures courses == old(courses)
      ensures o !in old(offerings) ==> status == NotFound
      ensures o in old(offerings) && Holds(old(enrollments), s, o) ==> status == AlreadyEnrolled
      ensures o in old(offerings) && !Holds(old(enrollments), s, o) && old(offerings)[o].enrolled >= old(offerings)[o].capacity
              ==> status == Full
      ensures status == Done <==>
        o in old(offerings) && !Holds(old(enrollments), s, o) && old(offerings)[o].enrolled < old(offerings)[o].capacity && storageOk
      ensures status != Done ==> unchanged(this)
      ensures status == Done ==>
        && id == ClassId(year, NextSequence(old(sequence)))
        && id !in old(enrollments)
        && enrollments == old(enrollments)[id := Enrollment(s, o)]
        && offerings == old(offerings)[o := old(offerings)[o].(enrolled := old(offerings)[o].enrolled + 1)]
        && sequence == Some(NextSequence(old(sequence)))
    {
      id := "";
      if o !in offerings {
        return NotFound, id;
      }
      if Holds(enrollments, s, o) {
        return AlreadyEnrolled, id;
      }
      if offerings[o].enrolled >= offerings[o].capacity {
        return Full, id;
      }
      if !storageOk {
        return StorageFailure, id;
      }
      id := Enroll(s, o, year);
      status := Done;
    }

    /**
     * The drop branch of Admin.manage_enrollments: refused unless the student
     * holds the offering; otherwise that enrollment row goes and the counter is
     * written as the count minus one.
     */
    method AdminDrop(s: string, o: string, storageOk: bool) returns (status: Status, dropped: string)
      requires Valid()
      modifies this
      ensures Valid()
      ensures courses == old(courses) && sequence == old(sequence)
      ensures o !in old(offerings) ==> status == NotFound
      ensures o in old(offerings) && !Holds(old(enrollments), s, o) ==> status == NotEnrolled
      ensures status == Done <==> o in old(offerings) && Holds(old(enrollments), s, o) && storageOk
      ensures status != Done ==> unchanged(this)
      ensures status == Done ==>
        && dropped in old(enrollments) && old(enrollments)[dropped] == Enrollment(s, o)
        && enrollments == old(enrollments) - {dropped}
        && offerings == old(offerings)[o := old(offerings)[o].(enrolled := old(offerings)[o].enrolled - 1)]
        && offerings[o].enrolled >= 0
    {
      dropped := "";
      if o !in offerings {
        return NotFound, dropped;
      }
      if !Holds(enrollments, s, o) {
        return NotEnrolled, dropped;
      }
      dropped :| dropped in enrollments && enrollments[dropped].student == s && enrollments[dropped].offering == o;
      if !storageOk {
        return StorageFailure, dropped;
      }
      DropRow(dropped);
      status := Done;
    }

    /**
     * Admin.swap_faculty_for_student: moves one of the student's enrollment
     * rows to another offering of the same course, refused when that offering
     * is full; the old counter is lowered and the new one raised by one.
     */
    method AdminSwapFaculty(e: string, n: string, storageOk: bool) returns (status: Status)
      requires Valid()
      requires e in enrollments
      requires n in offerings && n != enrollments[e].offering  // the selectbox lists the course's other offerings
      requires offerings[n].course == offerings[enrollments[e].offering].course
      modifies this
      ensures Valid()
      ensures courses == old(courses) && sequence == old(sequence)
      ensures old(offerings)[n].enrolled >= old(offerings)[n].capacity ==> status == Full
      ensures status == Done <==> old(offerings)[n].enrolled < old(offerings)[n].capacity && storageOk
      ensures status != Done ==> unchanged(this)
      ensures status == Done ==>
        var o := old(enrollments)[e].offering;
        && enrollments == old(enrollments)[e := old(enrollments)[e].(offering := n)]
        && offerings == old(offerings)[o := old(offerings)[o].(enrolled := old(offerings)[o].enrolled - 1)]
                                      [n := old(offerings)[n].(enrolled := old(offerings)[n].enrolled + 1)]
    {
      if offerings[n].enrolled >= offerings[n].capacity {
        return Full;
      }
      if !storageOk {
        return StorageFailure;
      }
      Repoint(e, n);
      status := Done;
    }

    /** Admin.clear_all_enrollments: no enrollment rows are left and every counter is 0. */
    method ClearAllEnrollments(storageOk: bool) returns (status: Status)
      requires Valid()
      modifies this
      ensures Valid()
      ensures status == Done <==> storageOk
      ensures status != Done ==> unchanged(this)
      ensures status == Done ==>
        && enrollments == map[]
        && offerings.Keys == old(offerings).Keys
        && (forall o :: o in offerings ==> offerings[o] == old(offerings)[o].(enrolled := 0))
        && courses == old(courses) && sequence == old(sequence)
    {
      if !storageOk {
        return StorageFailure;
      }
      var offs := map o | o in offerings :: offerings[o].(enrolled := 0);
      forall o | o in offs
        ensures offs[o].enrolled == CountRefs(map[], o)
      {
        assert RefsTo(map[], o) == {};
      }
      enrollments := map[];
      offerings := offs;
      status := Done;
    }

    /** The remove branch of Faculty.drop_and_assign_course: the faculty member's own offering is deleted, with its rows. */
    method RemoveMyAssignment(me: string, o: string, storageOk: bool) returns (status: Status)
      requires Valid()
      requires o in offerings && offerings[o].faculty == me  // the selectbox lists only the member's offerings
      modifies this
      ensures Valid()
      ensures status == Done <==> storageOk
      ensures status != Done ==> unchanged(this)
      ensures status == Done ==>
        && offerings == old(offerings) - {o}
        && enrollments == Cascade(old(enrollments), o)
        && courses == old(courses) && sequence == old(sequence)
    {
      if !storageOk {
        return StorageFailure;
      }
      CascadeStep(offerings, enrollments, sequence, o);
      offerings := offerings - {o};
      enrollments := Cascade(enrollments, o);
      status := Done;
    }

    /**
     * The reassign branch of Faculty.drop_and_assign_course: the current
     * offering is deleted (with its rows); if the new faculty member does not
     * already teach the course, an offering with a fresh ClassID, the same
     * capacity and count 0 is created for them.
     */
    method ReassignMyAssignment(me: string, o: string, newFaculty: string, year: int, storageOk: bool)
      returns (status: Status, created: Option<string>)
      requires Valid() && FourDigitYear(year)
      requires o in offerings && offerings[o].faculty == me
      requires newFaculty != me  // the member's own ID is removed from the options
      modifies this
      ensures Valid()
      ensures courses == old(courses)
      ensures status == Done <==> newFaculty != "" && storageOk
      ensures status != Done ==> unchanged(this) && created == None
      ensures status == Done ==>
        var c := old(offerings)[o].course;
        && enrollments == Cascade(old(enrollments), o)
        && (Assigned(old(offerings), c, newFaculty) ==>
              created == None && offerings == old(offerings) - {o} && sequence == old(sequence))
        && (!Assigned(old(offerings), c, newFaculty) ==>
              && created == Some(ClassId(year, NextSequence(old(sequence))))
              && created.value !in old(offerings)
              && offerings == (old(offerings) - {o})[created.value := Offering(c, newFaculty, old(offerings)[o].capacity, 0)]
              && sequence == Some(NextSequence(old(sequence))))
    {
      created := None;
      if newFaculty == "" {
        return MissingField, None;
      }
      if !storageOk {
        return StorageFailure, None;
      }
      var off := offerings[o];
      var already := Assigned(offerings, off.course, newFaculty);
      CascadeStep(offerings, enrollments, sequence, o);
      NextIdFresh(offerings, enrollments, sequence, year);
      var offs := offerings - {o};
      var enr := Cascade(enrollments, o);
      if !already {
        NewOfferingStep(offs, enr, sequence, year, Offering(off.course, newFaculty, off.capacity, 0));
        var n := NextSequence(sequence);
        var id := ClassId(year, n);
        offs := offs[id := Offering(off.course, newFaculty, off.capacity, 0)];
        sequence := Some(n);
        created := Some(id);
      }
      offerings, enrollments := offs, enr;
      status := Done;
    }

    /**
     * The reassign branch as written: when the new faculty member already
     * teaches the course, the DELETE is issued but never committed before the
     * connection is closed, so nothing changes although success is reported.
     */
    method ReassignMyAssignmentAsWritten(me: string, o: string, newFaculty: string, year: int, storageOk: bool)
      returns (status: Status, created: Option<string>)
      requires Valid() && FourDigitYear(year)
      requires o in offerings && offerings[o].faculty == me
      requires newFaculty != me
      modifies this
      ensures Valid()
      ensures status == Done <==> newFaculty != "" && storageOk
      ensures status != Done ==> unchanged(this)
      ensures status == Done && Assigned(old(offerings), old(offerings)[o].course, newFaculty) ==>
        unchanged(this) && created == None
      ensures status == Done && !Assigned(old(offerings), old(offerings)[o].course, newFaculty) ==>
        var c := old(offerings)[o].course;
        && courses == old(courses)
        && enrollments == Cascade(old(enrollments), o)
        && created == Some(ClassId(year, NextSequence(old(sequence))))
        && created.value !in old(offerings)
        && offerings == (old(offerings) - {o})[created.value := Offering(c, newFaculty, old(offerings)[o].capacity, 0)]
        && sequence == Some(NextSequence(old(sequence)))
    {
      created := None;
      if newFaculty == "" {
        return MissingField, None;
      }
      if !storageOk {
        return StorageFailure, None;
      }
      if Assigned(offerings, offerings[o].course, newFaculty) {
        // DELETE issued on the cursor, then st.rerun() and conn.close() without commit
        return Done, None;
      }
      status, created := ReassignMyAssignment(me, o, newFaculty, year, storageOk);
    }

    /**
     * Student.enroll_course: refused if the student already holds a section of
     * the offering's course or EnrolledStudents >= Capacity; otherwise one row
     * under a fresh ClassID and the counter raised by one.
     */
    method StudentEnroll(s: string, o: string, year: int, storageOk: bool) returns (status: Status, id: string)
      requires Valid() && FourDigitYear(year)
      modifies this
      ensures Valid()
      ensures courses == old(courses)
      ensures o !in old(offerings) ==> status == NotFound
      ensures o in old(offerings) && HoldsCourse(old(offerings), old(enrollments), s, old(offerings)[o].course)
              ==> status == DuplicateCourse
      ensures (&& o in old(offerings) && !HoldsCourse(old(offerings), old(enrollments), s, old(offerings)[o].course)
               && old(offerings)[o].enrolled >= old(offerings)[o].capacity) ==> status == Full
      ensures status == Done <==>
        && o in old(offerings)
        && !HoldsCourse(old(offerings), old(enrollments), s, old(offerings)[o].course)
        && old(offerings)[o].enrolled < old(offerings)[o].capacity
        && storageOk
      ensures status != Done ==> unchanged(this)
      ensures status == Done ==>
        && !Holds(old(enrollments), s, o)
        && id == ClassId(year, NextSequence(old(sequence)))
        && id !in old(enrollments)
        && enrollments == old(enrollments)[id := Enrollment(s, o)]
        && offerings == old(offerings)[o := old(offerings)[o].(enrolled := old(offerings)[o].enrolled + 1)]
        && sequence == Some(NextSequence(old(sequence)))
    {
      id := "";
      if o !in offerings {
        return NotFound, id;
      }
      if HoldsCourse(offerings, enrollments, s, offerings[o].course) {
        return DuplicateCourse, id;
      }
      if offerings[o].enrolled >= offerings[o].capacity {
        return Full, id;
      }
      if !storageOk {
        return StorageFailure, id;
      }
      id := Enroll(s, o, year);
      status := Done;
    }

    /** Student.drop_course: the selected enrollment row goes and its offering's counter is written as the count minus one. */
    method StudentDrop(s: string, e: string, storageOk: bool) returns (status: Status)
      requires Valid()
      requires e in enrollments && enrollments[e].student == s  // the selectbox lists the student's own rows
      modifies this
      ensures Valid()
      ensures status == Done <==> storageOk
      ensures status != Done ==> unchanged(this)
      ensures status == Done ==>
        var o := old(enrollments)[e].offering;
        && enrollments == old(enrollments) - {e}
        && offerings == old(offerings)[o := old(offerings)[o].(enrolled := old(offerings)[o].enrolled - 1)]
        && offerings[o].enrolled >= 0
        && courses == old(courses) && sequence == old(sequence)
    {
      if !storageOk {
        return StorageFailure;
      }
      DropRow(e);
      status := Done;
    }

    /**
     * Student.swap_course: every check is made before anything is written;
     * refused for the same offering, for a course the student holds through
     * another of their rows, and for a full new offering. Otherwise the old row goes,
     * a new row under a fresh ClassID is inserted, and the two counters move
     * by one, in one transaction.
     */
    method StudentSwap(s: string, e: string, n: string, year: int, storageOk: bool) returns (status: Status, id: string)
      requires Valid() && FourDigitYear(year)
      requires e in enrollments && enrollments[e].student == s
      modifies this
      ensures Valid()
      ensures courses == old(courses)
      ensures n !in old(offerings) ==> status == NotFound
      ensures n in old(offerings) && n == old(enrollments)[e].offering ==> status == SameOffering
      ensures status == Done <==>
        var o := old(enrollments)[e].offering;
        && n in old(offerings) && n != o
        && (old(offerings)[n].course == old(offerings)[o].course || !HoldsCourse(old(offerings), old(enrollments), s, old(offerings)[n].course))
        && old(offerings)[n].enrolled < old(offerings)[n].capacity
        && storageOk
      ensures status != Done ==> unchanged(this)
      ensures status == Done ==>
        var o := old(enrollments)[e].offering;
        && id == ClassId(year, NextSequence(old(sequence)))
        && id !in old(enrollments)
        && enrollments == (old(enrollments) - {e})[id := Enrollment(s, n)]
        && offerings == old(offerings)[o := old(offerings)[o].(enrolled := old(offerings)[o].enrolled - 1)]
                                      [n := old(offerings)[n].(enrolled := old(offerings)[n].enrolled + 1)]
        && sequence == Some(NextSequence(old(sequence)))
    {
      id := "";
      if n !in offerings {
        return NotFound, id;
      }
      var o := enrollments[e].offering;
      if o == n {
        return SameOffering, id;
      }
      if offerings[n].course != offerings[o].course && HoldsCourse(offerings, enrollments, s, offerings[n].course) {
        return DuplicateCourse, id;
      }
      if offerings[n].enrolled >= offerings[n].capacity {
        return Full, id;
      }
      if !storageOk {
        return StorageFailure, id;
      }
      id := Swap(s, e, n, year);
      status := Done;
    }
  }
}

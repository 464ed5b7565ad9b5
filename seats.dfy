/**
 * The capacity rules of the spreadsheet, CSV and service variants, where the
 * number of students in a class is counted live from the enrollment rows and a
 * Capacity of 0 means "no limit".
 */
module Seats {

  /** The guard every add and enroll uses: limited and no seat left. */
  predicate IsFull(capacity: int, count: int) {
    capacity > 0 && count >= capacity
  }

  /** The "Remaining Seats" column: capacity minus count for a positive capacity, otherwise "Unlimited". */
  datatype Remaining = Unlimited | Left(seats: int)

  function RemainingSeats(capacity: int, count: int): (r: Remaining)
    ensures r.Unlimited? <==> capacity <= 0
    ensures r.Left? ==> r.seats + count == capacity
  {
    if capacity > 0 then Left(capacity - count) else Unlimited
  }

  /** The seats column shows no seat left exactly when the guard calls the class full. */
  lemma RemainingAgreesWithFull(capacity: int, count: int)
    ensures IsFull(capacity, count) <==> RemainingSeats(capacity, count) != Unlimited && RemainingSeats(capacity, count).seats <= 0
  {
  }

  /** The classes a student is shown for a course: capacity 0, or seats remaining. */
  predicate Listed(capacity: int, count: int) {
    capacity == 0 || (RemainingSeats(capacity, count).Left? && RemainingSeats(capacity, count).seats > 0)
  }

  /**
   * A listed class is never full; for a capacity that is not negative the list
   * shows exactly the classes that are not full. (A negative capacity is not
   * full, yet it is not listed either.)
   */
  lemma ListedIffNotFull(capacity: int, count: int)
    ensures Listed(capacity, count) ==> !IsFull(capacity, count)
    ensures capacity >= 0 ==> (Listed(capacity, count) <==> !IsFull(capacity, count))
    ensures capacity < 0 ==> !Listed(capacity, count) && !IsFull(capacity, count)
  {
  }

  /** What the capacity prompt can receive. */
  datatype CapacityInput = Blank | Unparsable | Number(n: int)

  /** At creation a blank or unparsable capacity becomes 0, "no limit". */
  function CapacityOnCreate(input: CapacityInput): (c: int)
    ensures input.Number? ==> c == input.n
    ensures !input.Number? ==> c == 0 && !IsFull(c, 0)
  {
    if input.Number? then input.n else 0
  }

  // ----- the Capacity adjustments made as written -----

  /** The admin remove as written: Capacity is raised by one whenever it is not negative. */
  function CapacityAfterRemoveAsWritten(capacity: int): (c: int)
    ensures capacity >= 0 ==> c == capacity + 1
    ensures capacity < 0 ==> c == capacity
  {
    if capacity >= 0 then capacity + 1 else capacity
  }

  /** The student swap as written: the old class's positive Capacity is raised by one. */
  function CapacityReleasedAsWritten(capacity: int): (c: int)
    ensures capacity > 0 ==> c == capacity + 1
    ensures capacity <= 0 ==> c == capacity
  {
    if capacity > 0 then capacity + 1 else capacity
  }

  /** The student swap as written: the new class's positive Capacity is lowered by one. */
  function CapacityTakenAsWritten(capacity: int): (c: int)
    ensures capacity > 0 ==> c == capacity - 1
    ensures capacity <= 0 ==> c == capacity
  {
    if capacity > 0 then capacity - 1 else capacity
  }

  /**
   * Removing one of two students from an unlimited class (Capacity 0) as
   * written leaves a class of capacity 1 holding 1 student: it is full.
   */
  lemma RemoveAsWrittenLimitsUnlimited()
    ensures !IsFull(0, 2)
    ensures CapacityAfterRemoveAsWritten(0) == 1
    ensures IsFull(CapacityAfterRemoveAsWritten(0), 2 - 1)
  {
  }

  /**
   * As written, for a limited class full at `capacity` students, one remove
   * is followed by two adds that both pass the full check (at counts
   * capacity - 1 and capacity), ending with capacity + 1 students.
   */
  lemma RemoveAsWrittenOverfills(capacity: int)
    requires capacity > 0
    ensures var raised := CapacityAfterRemoveAsWritten(capacity);
      && IsFull(capacity, capacity)
      && !IsFull(raised, capacity - 1)
      && !IsFull(raised, capacity)
  {
  }

  /**
   * Swapping into the last seat of a class of capacity 1 as written lowers its
   * Capacity to 0, which every guard reads as unlimited, while the student
   * count is now 1.
   */
  lemma SwapAsWrittenUnlimitsLastSeat()
    ensures !IsFull(1, 0)
    ensures CapacityTakenAsWritten(1) == 0
    ensures RemainingSeats(CapacityTakenAsWritten(1), 1) == Unlimited
    ensures !IsFull(CapacityTakenAsWritten(1), 1) && IsFull(1, 1)
  {
  }

  /**
   * As written, a swap both moves a student (the live count of the new class
   * rises by one) and lowers its positive Capacity by one, so the seats shown
   * as remaining drop by two for one student.
   */
  lemma SwapAsWrittenCountsTwice(capacity: int, count: int)
    requires capacity > 1
    ensures RemainingSeats(CapacityTakenAsWritten(capacity), count + 1).seats
         == RemainingSeats(capacity, count).seats - 2
  {
  }

  /**
   * On the old class the swap as written both removes the student (the live
   * count falls by one) and raises its positive Capacity by one, so the seats
   * shown as remaining rise by two for one student.
   */
  lemma SwapAsWrittenReleasesTwice(capacity: int, count: int)
    requires capacity > 0
    ensures RemainingSeats(CapacityReleasedAsWritten(capacity), count - 1).seats
         == RemainingSeats(capacity, count).seats + 2
  {
  }
}

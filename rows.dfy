/**
 * Queries over the rows of a sheet, in sheet order: the pandas idioms the
 * spreadsheet and CSV variants use as guards.
 *   Count  df[mask].shape[0]
 *   Keep   df[mask]           (rows kept in order)
 *   First  df[mask].index[0]  (None where the filtered frame is empty)
 * A mask is a predicate on one row.
 */
module Rows {
  import opened Options

  function Count<T>(rows: seq<T>, p: T -> bool): (n: nat)
    ensures n <= |rows|
    ensures n == 0 <==> forall i :: 0 <= i < |rows| ==> !p(rows[i])
  {
    if rows == [] then 0
    else (if p(rows[0]) then 1 else 0) + Count(rows[1..], p)
  }

  function Keep<T(!new)>(rows: seq<T>, p: T -> bool): (r: seq<T>)
    ensures forall x :: x in r <==> x in rows && p(x)
    ensures |r| == Count(rows, p)
  {
    if rows == [] then []
    else if p(rows[0]) then [rows[0]] + Keep(rows[1..], p)
    else Keep(rows[1..], p)
  }

  function First<T>(rows: seq<T>, p: T -> bool): (r: Option<nat>)
    ensures r.None? <==> forall i :: 0 <= i < |rows| ==> !p(rows[i])
    ensures r.Some? ==> r.value < |rows| && p(rows[r.value]) && forall i :: 0 <= i < r.value ==> !p(rows[i])
  {
    if rows == [] then None
    else if p(rows[0]) then Some(0)
    else match First(rows[1..], p) {
      case None => None
      case Some(i) => Some(i + 1)
    }
  }

  /** Appending a row adds one to the count exactly when the row matches. */
  lemma {:induction false} CountAppend<T>(rows: seq<T>, x: T, p: T -> bool)
    ensures Count(rows + [x], p) == Count(rows, p) + (if p(x) then 1 else 0)
  {
    if rows != [] {
      assert (rows + [x])[1..] == rows[1..] + [x];
      CountAppend(rows[1..], x, p);
    }
  }

  /**
   * Filtering by `p` removes from the count of `q` exactly the rows that match
   * `q` but not `p` (`r` is that mask).
   */
  lemma {:induction false} CountKeep<T(!new)>(rows: seq<T>, p: T -> bool, q: T -> bool, r: T -> bool)
    requires forall x :: r(x) == (q(x) && !p(x))
    ensures Count(Keep(rows, p), q) == Count(rows, q) - Count(rows, r)
  {
    if rows != [] {
      CountKeep(rows[1..], p, q, r);
      if p(rows[0]) {
        assert ([rows[0]] + Keep(rows[1..], p))[1..] == Keep(rows[1..], p);
      }
    }
  }

  /** Filtering never raises a count. */
  lemma {:induction false} CountKeepLe<T(!new)>(rows: seq<T>, p: T -> bool, q: T -> bool)
    ensures Count(Keep(rows, p), q) <= Count(rows, q)
  {
    if rows != [] {
      CountKeepLe(rows[1..], p, q);
      if p(rows[0]) {
        assert ([rows[0]] + Keep(rows[1..], p))[1..] == Keep(rows[1..], p);
      }
    }
  }

  /** Replacing a row by one the mask classifies the same way leaves the count as it was. */
  lemma {:induction false} CountUpdate<T>(rows: seq<T>, i: nat, x: T, p: T -> bool)
    requires i < |rows| && p(x) == p(rows[i])
    ensures Count(rows[i := x], p) == Count(rows, p)
  {
    if i > 0 {
      assert rows[i := x][1..] == rows[1..][i - 1 := x];
      CountUpdate(rows[1..], i - 1, x, p);
    } else {
      assert rows[i := x][1..] == rows[1..];
    }
  }

  /** Replacing a row by one the mask classifies the same way leaves the first match where it was. */
  lemma {:induction false} FirstUpdate<T>(rows: seq<T>, i: nat, x: T, p: T -> bool)
    requires i < |rows| && p(x) == p(rows[i])
    ensures First(rows[i := x], p) == First(rows, p)
  {
    if i > 0 {
      assert rows[i := x][1..] == rows[1..][i - 1 := x];
      FirstUpdate(rows[1..], i - 1, x, p);
    }
  }

  /** Appending a row leaves an existing first match alone and becomes the first match otherwise. */
  lemma {:induction false} FirstAppend<T>(rows: seq<T>, x: T, p: T -> bool)
    ensures First(rows + [x], p) ==
      if First(rows, p).Some? then First(rows, p) else if p(x) then Some(|rows|) else None
  {
    if rows != [] {
      assert (rows + [x])[1..] == rows[1..] + [x];
      FirstAppend(rows[1..], x, p);
    }
  }

  /** Two different matching rows make the count at least two. */
  lemma {:induction false} CountTwo<T>(rows: seq<T>, i: nat, j: nat, p: T -> bool)
    requires i < j < |rows| && p(rows[i]) && p(rows[j])
    ensures Count(rows, p) >= 2
  {
    if i > 0 {
      CountTwo(rows[1..], i - 1, j - 1, p);
    } else {
      assert rows[1..][j - 1] == rows[j];
    }
  }

  /** A matching row makes the count positive. */
  lemma CountPositive<T>(rows: seq<T>, i: nat, p: T -> bool)
    requires i < |rows| && p(rows[i])
    ensures Count(rows, p) > 0
  {
  }

  /** A positive count has a matching row. */
  lemma CountWitness<T>(rows: seq<T>, p: T -> bool) returns (i: nat)
    requires Count(rows, p) > 0
    ensures i < |rows| && p(rows[i])
  {
    i := First(rows, p).value;
  }
}

/**
 * The global ClassID sequence and the ClassID format of the database
 * variant (courseregv2_1.py, courseregv2_2.py).
 *
 * The sequence is one row of the `sequences` table. When the row is absent it
 * is created with value 100000; every draw stores and returns the old value
 * plus one. A ClassID is "BL", the four-digit year, the last two digits of the
 * next year (zero-padded to two) and the sequence number zero-padded to six.
 */
module ClassIds {
  import opened Options

  const SequenceStart: int := 100000

  /** The value a draw stores and returns, given the stored value (if any). */
  function NextSequence(stored: Option<int>): (n: int)
    ensures n > (if stored.Some? then stored.value else SequenceStart)
    ensures stored.None? ==> n == SequenceStart + 1
  {
    (if stored.Some? then stored.value else SequenceStart) + 1
  }

  /** The values returned by `k` successive draws starting from `stored`; each lies above the stored value. */
  function Draws(stored: Option<int>, k: nat): (r: seq<int>)
    ensures |r| == k
    ensures forall i :: 0 <= i < k ==> r[i] > (if stored.Some? then stored.value else SequenceStart)
    decreases k
  {
    if k == 0 then []
    else
      var n := NextSequence(stored);
      [n] + Draws(Some(n), k - 1)
  }

  /** Successive draws strictly increase and so never repeat. */
  lemma {:induction false} DrawsIncrease(stored: Option<int>, k: nat)
    ensures forall i, j :: 0 <= i < j < k ==> Draws(stored, k)[i] < Draws(stored, k)[j]
    decreases k
  {
    if k > 0 {
      var n := NextSequence(stored);
      DrawsIncrease(Some(n), k - 1);
      var r := Draws(stored, k);
      assert r == [n] + Draws(Some(n), k - 1);
      forall i | 0 < i < k
        ensures r[i] > n
      {
        assert r[i] == Draws(Some(n), k - 1)[i - 1];
      }
    }
  }

  /** From a stored value `base` the i-th draw is base + 1 + i. */
  lemma {:induction false} DrawsFrom(k: nat, base: int)
    ensures forall i :: 0 <= i < k ==> Draws(Some(base), k)[i] == base + 1 + i
    decreases k
  {
    if k > 0 {
      DrawsFrom(k - 1, base + 1);
      var r := Draws(Some(base), k);
      assert r == [base + 1] + Draws(Some(base + 1), k - 1);
      forall i | 0 < i < k
        ensures r[i] == base + 1 + i
      {
        assert r[i] == Draws(Some(base + 1), k - 1)[i - 1];
      }
    }
  }

  /** From a fresh database, with no sequence row, the i-th draw is 100001 + i. */
  lemma DrawsFromFresh(k: nat)
    ensures forall i :: 0 <= i < k ==> Draws(None, k)[i] == SequenceStart + 1 + i
  {
    if k > 0 {
      DrawsFrom(k - 1, SequenceStart + 1);
      var r := Draws(None, k);
      assert r == [SequenceStart + 1] + Draws(Some(SequenceStart + 1), k - 1);
      forall i | 0 < i < k
        ensures r[i] == SequenceStart + 1 + i
      {
        assert r[i] == Draws(Some(SequenceStart + 1), k - 1)[i - 1];
      }
    }
  }

  /**
   * One more draw appends the value following the last one drawn (or the
   * stored value, when nothing was drawn yet).
   */
  lemma {:induction false} DrawsSnoc(stored: Option<int>, k: nat)
    ensures Draws(stored, k + 1) == Draws(stored, k) + [NextSequence(if k == 0 then stored else Some(Draws(stored, k)[k - 1]))]
    decreases k
  {
    if k > 0 {
      var n := NextSequence(stored);
      DrawsSnoc(Some(n), k - 1);
      assert Draws(stored, k) == [n] + Draws(Some(n), k - 1);
      assert Draws(stored, k + 1) == [n] + Draws(Some(n), k);
    }
  }

  // ----- decimal text -----

  function DigitChar(d: int): char
    requires 0 <= d < 10
  {
    (48 + d) as char
  }

  function DigitValue(c: char): int {
    c as int - 48
  }

  /** Python's str(n) for a non-negative integer. */
  function Decimal(n: nat): (s: string)
    ensures 1 <= |s|
    ensures n < 10 ==> |s| == 1
    ensures 10 <= n < 100 ==> |s| == 2
    ensures 1000 <= n < 10000 ==> |s| == 4
    decreases n
  {
    if n < 10 then [DigitChar(n)] else Decimal(n / 10) + [DigitChar(n % 10)]
  }

  /** The number a string of decimal digits denotes (leading zeros allowed). */
  function ValueOf(s: string): int
    decreases |s|
  {
    if s == [] then 0 else ValueOf(s[..|s| - 1]) * 10 + DigitValue(s[|s| - 1])
  }

  /** f"{n:0wd}": the decimal text of n, left-padded with zeros to at least w characters. */
  function ZeroPad(s: string, w: nat): (r: string)
    ensures |r| == if |s| >= w then |s| else w
    decreases w - |s|
  {
    if |s| >= w then s else ZeroPad(['0'] + s, w)
  }

  lemma {:induction false} DecimalValue(n: nat)
    ensures ValueOf(Decimal(n)) == n
    decreases n
  {
    if n >= 10 {
      DecimalValue(n / 10);
      var s := Decimal(n);
      assert s[..|s| - 1] == Decimal(n / 10);
    }
  }

  lemma {:induction false} LeadingZeroValue(s: string)
    ensures ValueOf(['0'] + s) == ValueOf(s)
    decreases |s|
  {
    if s != [] {
      var t := ['0'] + s;
      assert t[..|t| - 1] == ['0'] + s[..|s| - 1];
      LeadingZeroValue(s[..|s| - 1]);
    }
  }

  lemma {:induction false} ZeroPadValue(s: string, w: nat)
    ensures ValueOf(ZeroPad(s, w)) == ValueOf(s)
    decreases w - |s|
  {
    if |s| < w {
      ZeroPadValue(['0'] + s, w);
      LeadingZeroValue(s);
    }
  }

  // ----- ClassID -----

  predicate FourDigitYear(year: int) {
    1000 <= year <= 9999
  }

  /** generate_class_id: "BL" + year + two-digit (year + 1) % 100 + six-digit sequence number. */
  function ClassId(year: int, seqNo: nat): (id: string)
    requires FourDigitYear(year)
    ensures |id| >= 14 && id[..2] == "BL"
  {
    "BL" + Decimal(year) + ZeroPad(Decimal((year + 1) % 100), 2) + ZeroPad(Decimal(seqNo), 6)
  }

  /** The year written in a ClassID. */
  function YearOf(id: string): int
    requires |id| >= 8
  {
    ValueOf(id[2..6])
  }

  /** The sequence number written in a ClassID. */
  function SequenceOf(id: string): int
    requires |id| >= 8
  {
    ValueOf(id[8..])
  }

  /** A ClassID can be read back: its year and its sequence number are recovered from the text. */
  lemma ClassIdRoundTrip(year: int, seqNo: nat)
    requires FourDigitYear(year)
    ensures YearOf(ClassId(year, seqNo)) == year
    ensures SequenceOf(ClassId(year, seqNo)) == seqNo
  {
    var y := Decimal(year);
    var yy := ZeroPad(Decimal((year + 1) % 100), 2);
    var sq := ZeroPad(Decimal(seqNo), 6);
    var id := ClassId(year, seqNo);
    assert id == "BL" + y + yy + sq;
    assert id[2..6] == y;
    assert id[8..] == sq;
    DecimalValue(year);
    DecimalValue(seqNo);
    ZeroPadValue(Decimal(seqNo), 6);
  }

  /** Distinct sequence numbers (or years) give distinct ClassIDs. */
  lemma ClassIdInjective(y1: int, n1: nat, y2: int, n2: nat)
    requires FourDigitYear(y1) && FourDigitYear(y2)
    requires ClassId(y1, n1) == ClassId(y2, n2)
    ensures y1 == y2 && n1 == n2
  {
    ClassIdRoundTrip(y1, n1);
    ClassIdRoundTrip(y2, n2);
  }
}

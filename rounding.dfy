/**
 Python's `round(y, -1)` applied to a vertical centre `y = s / 2`, where `s` is the
 integer sum of two corner ordinates. The result is the multiple of ten nearest to
 `y`; a value exactly halfway between two multiples goes to the one whose tens
 digit is even (round-half-to-even, as Python rounds exact ties).
 */
module Rounding {

  /** True when `k` is a multiple of ten within five of `s / 2`, breaking exact ties towards the even multiple. */
  predicate NearestTens(s: int, k: int)
  {
    && k % 10 == 0
    && -10 <= 2 * k - s <= 10
    && ((2 * k - s == 10 || 2 * k - s == -10) ==> (k / 10) % 2 == 0)
  }

  /** The bucket key `round(s / 2, -1)`, computed on integers. */
  function RoundToTens(s: int): (k: int)
    ensures NearestTens(s, k)
  {
    var q := s / 20;
    var r := s % 20;
    if r < 10 then 10 * q
    else if r > 10 then 10 * (q + 1)
    else if q % 2 == 0 then 10 * q
    else 10 * (q + 1)
  }

  /** `NearestTens` leaves no choice: it is an independent definition of `RoundToTens`. */
  lemma RoundToTensUnique(s: int, m: int)
    requires NearestTens(s, m)
    ensures m == RoundToTens(s)
  {
    var k := RoundToTens(s);
    assert k == 10 * (k / 10) && m == 10 * (m / 10);
  }

  /** Rounding never reverses the order of two centres. */
  lemma RoundToTensMonotone(s: int, t: int)
    requires s <= t
    ensures RoundToTens(s) <= RoundToTens(t)
  {
  }

  /** Centres more than one quantum (ten) apart get different, correctly ordered keys. */
  lemma RoundToTensSeparates(s: int, t: int)
    requires s + 20 < t
    ensures RoundToTens(s) < RoundToTens(t)
  {
  }

  /** Exact ties at 5, 15, 25, 55, -5 and -15: Python's round sends each to the even multiple of ten. */
  lemma RoundToTensTies()
    ensures RoundToTens(10) == 0
    ensures RoundToTens(30) == 20
    ensures RoundToTens(50) == 20
    ensures RoundToTens(110) == 60
    ensures RoundToTens(-10) == 0
    ensures RoundToTens(-30) == -20
  {
  }
}

/** The late-return rule of rental closure: the whole number of days between
    the closing time and the rental's end date, rounded up, against a grace
    period of seven days. */
module Lateness {
  import opened Records

  /** Milliseconds in one day: 1000 * 60 * 60 * 24. */
  const MsPerDay: nat := 86_400_000

  /** Days of difference a closure may show before the member is flagged. */
  const GraceDays: nat := 7

  function Abs(x: int): (r: nat)
    ensures r == x || r == -x
  {
    if x < 0 then -x else x
  }

  /** Integer ceiling of `n / d`: the least `q` with `n <= q * d`. */
  function CeilDiv(n: nat, d: nat): (q: nat)
    requires d > 0
    ensures n <= q * d
    ensures q == 0 || (q - 1) * d < n
  {
    var q := (n + d - 1) / d;
    assert q * d <= n + d - 1 < q * d + d;
    q
  }

  /** Whole days between `now` and `endDate`, rounded up, in either
      direction: the fewest days that cover the absolute difference. */
  function DiffDays(now: Millis, endDate: Millis): (days: nat)
    ensures Abs(now - endDate) <= days * MsPerDay
    ensures days == 0 || (days - 1) * MsPerDay < Abs(now - endDate)
  {
    CeilDiv(Abs(now - endDate), MsPerDay)
  }

  /** The closure of a rental ending at `endDate`, happening at `now`, draws
      a penalty. The day-rounded rule is an exact threshold on milliseconds:
      more than seven days rounded up is the same as more than seven whole
      days of milliseconds. */
  predicate IsLate(now: Millis, endDate: Millis)
    ensures IsLate(now, endDate) <==> Abs(now - endDate) > GraceDays * MsPerDay
  {
    DiffDays(now, endDate) > GraceDays
  }

  /** Because the difference is taken in absolute value, closing more than
      seven days before the end date also counts as late. */
  lemma EarlyClosureIsLate(now: Millis, endDate: Millis)
    requires endDate - now > GraceDays * MsPerDay
    ensures IsLate(now, endDate)
  {
  }

  /** A closure within seven days of the end date, on either side, is never
      late; one exactly seven days away is not late either. */
  lemma WithinGraceIsNotLate(now: Millis, endDate: Millis)
    requires -(GraceDays * MsPerDay) <= now - endDate <= GraceDays * MsPerDay
    ensures !IsLate(now, endDate)
  {
  }
}

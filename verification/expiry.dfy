/** When a contract ends and when it counts as expired: the end date is the
    start plus the duration in days, and a contract is expired only from the
    day after its end date. */
module LicenseExpiry {
  import opened Results
  import opened Calendar
  import opened LicenseCodec

  /** A contract is not expired on its own end date, and is expired on
      every later day. */
  lemma ExpiryBoundary(l: License, today: CalendarDate)
    requires ContractEnd(l).Ok?
    ensures Expired(l, today) == Ok(Before(ContractEnd(l).value, today))
    ensures Expired(l, ContractEnd(l).value) == Ok(false)
  {
  }

  /** Once expired, a contract stays expired on every later day. */
  lemma ExpiredStaysExpired(l: License, d1: CalendarDate, d2: CalendarDate)
    requires Expired(l, d1) == Ok(true) && Before(d1, d2)
    ensures Expired(l, d2) == Ok(true)
  {
  }

  /** A zero-day contract ends on its start date. */
  lemma ZeroDurationEndsAtStart(l: License)
    requires l.duration == 0
    ensures ContractEnd(l) == Ok(l.contractStart)
  {
    AddZeroDays(l.contractStart);
  }

  /** A contract of `n >= 0` days never ends before it starts. */
  lemma EndNotBeforeStart(l: License)
    requires l.duration >= 0 && ContractEnd(l).Ok?
    ensures !Before(ContractEnd(l).value, l.contractStart)
  {
  }

  const LeapEve: CalendarDate := Date(2024, 2, 28)
  const LeapDay: CalendarDate := Date(2024, 2, 29)
  const MarchFirst: CalendarDate := Date(2024, 3, 1)

  /** The contract end moves across February 29 of a leap year: a one-day
      contract from 2024-02-28 ends on 2024-02-29, is not expired that day
      and is expired on 2024-03-01. */
  lemma LeapDayExample(l: License)
    requires l.contractStart == LeapEve && l.duration == 1
    ensures ContractEnd(l) == Ok(LeapDay)
    ensures Expired(l, LeapDay) == Ok(false)
    ensures Expired(l, MarchFirst) == Ok(true)
  {
    assert DaysBeforeYear(2024) == 738885;
    assert Ordinal(LeapEve) == 738944 && Ordinal(LeapDay) == 738945 && Ordinal(MarchFirst) == 738946;
    OrdinalInjective(ContractEnd(l).value, LeapDay);
  }

  /** The last representable day cannot be moved past: a one-day contract
      starting on 9999-12-31 has no end date, so `expired` raises too. */
  lemma LastDayOverflows(l: License, today: CalendarDate)
    requires l.contractStart == LastDate && l.duration == 1
    ensures ContractEnd(l) == Err(DateOverflow)
    ensures Expired(l, today) == Err(DateOverflow)
  {
    LastOrdinal();
  }
}

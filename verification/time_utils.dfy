/** Timestamps and the interval-overlap predicate.

    A timestamp is an integer number of milliseconds on the local wall clock
    (the instant plus a fixed zone offset), so that comparing two timestamps
    compares the instants and the local hour and minute are a fixed
    derivation from the integer. */
module TimeUtils {

  const MsPerMinute: int := 60_000
  const MsPerHour: int := 3_600_000
  const MsPerDay: int := 86_400_000

  /** The local hour of day, as `Date.prototype.getHours` returns it. */
  function Hour(t: int): (h: int)
    ensures 0 <= h < 24
  {
    (t / MsPerHour) % 24
  }

  /** The local minute of the hour, as `Date.prototype.getMinutes` returns it;
      the seconds and milliseconds are dropped. */
  function Minute(t: int): (m: int)
    ensures 0 <= m < 60
  {
    (t / MsPerMinute) % 60
  }

  /** `Hour` names the hour-long slot of the local day that holds `t`. */
  lemma HourIsSlotOfDay(t: int)
    ensures Hour(t) * MsPerHour <= t % MsPerDay < (Hour(t) + 1) * MsPerHour
  {
    var q, d := t / MsPerHour, t / MsPerDay;
    assert t == q * MsPerHour + t % MsPerHour;
    assert q == d * 24 + q % 24;
    assert t % MsPerDay == Hour(t) * MsPerHour + t % MsPerHour;
  }

  /** `Minute` names the minute-long slot of the local hour that holds `t`. */
  lemma MinuteIsSlotOfHour(t: int)
    ensures Minute(t) * MsPerMinute <= t % MsPerHour < (Minute(t) + 1) * MsPerMinute
  {
    var q, h := t / MsPerMinute, t / MsPerHour;
    assert t == q * MsPerMinute + t % MsPerMinute;
    assert q == h * 60 + q % 60;
    assert t % MsPerHour == Minute(t) * MsPerMinute + t % MsPerMinute;
  }

  /** The overlap test: each interval starts before the other one ends. For
      two non-empty intervals this says the later start comes before the
      earlier end, that is, the half-open intervals share an instant. */
  function IsOverlapping(startA: int, endA: int, startB: int, endB: int): (overlap: bool)
    ensures startA < endA && startB < endB ==>
      (overlap <==> Later(startA, startB) < Earlier(endA, endB))
  {
    startA < endB && endA > startB
  }

  function Later(a: int, b: int): (later: int)
  {
    if a < b then b else a
  }

  function Earlier(a: int, b: int): (earlier: int)
  {
    if a < b then a else b
  }

  /** The instant `t` lies in the half-open interval [start, end). */
  predicate Within(t: int, start: int, end: int)
  {
    start <= t < end
  }

  /** For non-empty intervals the predicate holds exactly when some instant
      lies in both. */
  lemma OverlapMeansCommonInstant(startA: int, endA: int, startB: int, endB: int)
    requires startA < endA && startB < endB
    ensures IsOverlapping(startA, endA, startB, endB)
            <==> exists t :: Within(t, startA, endA) && Within(t, startB, endB)
  {
    if IsOverlapping(startA, endA, startB, endB) {
      var t := if startA < startB then startB else startA;
      assert Within(t, startA, endA) && Within(t, startB, endB);
    }
  }

  /** Swapping the two intervals does not change the answer. */
  lemma OverlapSymmetric(startA: int, endA: int, startB: int, endB: int)
    ensures IsOverlapping(startA, endA, startB, endB) == IsOverlapping(startB, endB, startA, endA)
  {
  }

  /** Intervals that only touch at an endpoint do not overlap. */
  lemma TouchingIntervalsDisjoint(s: int, m: int, e: int)
    ensures !IsOverlapping(s, m, m, e)
    ensures !IsOverlapping(m, e, s, m)
  {
  }

  /** One interval ending no later than the other starts rules out overlap. */
  lemma SeparatedIntervalsDisjoint(startA: int, endA: int, startB: int, endB: int)
    requires endA <= startB || endB <= startA
    ensures !IsOverlapping(startA, endA, startB, endB)
  {
  }

  /** Crossing intervals overlap. */
  lemma CrossingIntervalsOverlap(startA: int, endA: int, startB: int, endB: int)
    requires startA < startB < endA < endB
    ensures IsOverlapping(startA, endA, startB, endB)
  {
  }

  /** A non-empty interval overlaps every non-empty interval nested in it. */
  lemma NestedIntervalsOverlap(startA: int, endA: int, startB: int, endB: int)
    requires startA <= startB < endB <= endA
    ensures IsOverlapping(startA, endA, startB, endB)
  {
  }

  /** An interval overlaps itself exactly when it is non-empty. */
  lemma SelfOverlap(s: int, e: int)
    ensures IsOverlapping(s, e, s, e) <==> s < e
  {
  }

  /** The predicate does not treat an empty or inverted interval as empty:
      one lying strictly inside another is reported as overlapping it, though
      no instant lies in both. */
  lemma EmptyIntervalCanOverlap()
    ensures IsOverlapping(5, 5, 0, 10) && !(exists t :: Within(t, 5, 5))
    ensures IsOverlapping(6, 4, 0, 10)
  {
  }
}

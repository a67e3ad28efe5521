/** The hour arithmetic both electricity jobs share: a day of 24 equal hours
    of 3600 seconds, and the instant at which each hour of a day starts. */
module Hours {
  /** Hours of a day. */
  const HoursPerDay: nat := 24

  /** Seconds of an hour. */
  const SecondsPerHour: nat := 3600

  /** Seconds of a day. */
  const SecondsPerDay: nat := HoursPerDay * SecondsPerHour

  /** The hours `time(h, 0, 0)` accepts. */
  predicate IsHourOfDay(h: int)
  {
    0 <= h < HoursPerDay
  }

  /** The instant of hour boundary `h` of the day that starts at `base`. */
  function Boundary(base: int, h: int): int
  {
    base + h * SecondsPerHour
  }

  /** Each boundary is one hour after the one before it. */
  lemma BoundaryStep(base: int, h: int)
    ensures Boundary(base, h + 1) == Boundary(base, h) + SecondsPerHour
  {
  }

  /** Distinct hours start at distinct instants. */
  lemma BoundaryInjective(base: int, g: int, h: int)
    requires g != h
    ensures Boundary(base, g) != Boundary(base, h)
  {
    if g < h {
      assert h * SecondsPerHour == g * SecondsPerHour + (h - g) * SecondsPerHour;
    } else {
      assert g * SecondsPerHour == h * SecondsPerHour + (g - h) * SecondsPerHour;
    }
  }
}

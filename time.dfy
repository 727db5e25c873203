/**
 * Python datetimes as the core uses them. A datetime is a wall-clock reading
 * in microseconds plus, when it is timezone-aware, its UTC offset in
 * microseconds. A naive datetime is read as UTC, as `SwapOffer._ensure_future`
 * reads it.
 */
module Time {
  import opened Wrappers

  const MicrosPerHour: int := 3_600_000_000
  const MicrosPerDay: int := 86_400_000_000

  datatype DateTime = DateTime(wall: int, offset: Option<int>)

  /** The instant on the UTC time line. */
  function Utc(d: DateTime): int
  {
    match d.offset
    case None => d.wall
    case Some(off) => d.wall - off
  }

  /**
   * Python's `==` on datetimes: two aware values are equal when they name the
   * same instant, two naive values when their wall clocks agree, and a naive
   * value never equals an aware one.
   */
  predicate SameMoment(a: DateTime, b: DateTime)
  {
    a.offset.None? == b.offset.None? && Utc(a) == Utc(b)
  }

  /** `d + timedelta(microseconds=delta)` for a fixed offset: wall-clock arithmetic. */
  function Shift(d: DateTime, delta: int): (r: DateTime)
    ensures Utc(r) == Utc(d) + delta
    ensures r.offset == d.offset
  {
    d.(wall := d.wall + delta)
  }

  /** `SameMoment` is an equivalence, so exact-interval matching is one too. */
  lemma SameMomentIsEquivalence(a: DateTime, b: DateTime, c: DateTime)
    ensures SameMoment(a, a)
    ensures SameMoment(a, b) ==> SameMoment(b, a)
    ensures SameMoment(a, b) && SameMoment(b, c) ==> SameMoment(a, c)
  {
  }

  /** A naive datetime and an aware one never compare equal, whatever their readings. */
  lemma NaiveNeverEqualsAware(a: DateTime, b: DateTime)
    requires a.offset.None? && b.offset.Some?
    ensures !SameMoment(a, b)
  {
  }
}

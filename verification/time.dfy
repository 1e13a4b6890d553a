/** Python datetimes as the bot uses them: naive or aware, compared as
    instants in whole UTC seconds, and the clock they are read from. */
module Time {
  import opened Wrappers

  /** A `datetime`: its wall-clock reading in seconds since the epoch and, when
      it is aware, its offset east of UTC in seconds (`None`: a naive value). */
  datatype DateTime = DateTime(wall: int, offset: Option<int>)

  /** `datetime.now(timezone.utc)` when the clock reads `t`. */
  function Utc(t: int): (r: DateTime)
    ensures r.offset.Some? && Instant(r) == t
  {
    DateTime(t, Some(0))
  }

  /** The instant an aware value denotes, in UTC seconds. */
  function Instant(d: DateTime): int
    requires d.offset.Some?
  {
    d.wall - d.offset.value
  }

  /** `d.replace(tzinfo=timezone.utc)` when `d` is naive, `d` itself when it is
      aware: a naive reading is taken to be UTC wall-clock time. */
  function AsUtc(d: DateTime): (r: DateTime)
    ensures r.offset.Some? && r.wall == d.wall
    ensures d.offset.Some? ==> r == d
    ensures d.offset.None? ==> Instant(r) == d.wall
  {
    if d.offset.None? then Utc(d.wall) else d
  }

  /** The notifier's due test: at least `interval` minutes have elapsed since
      `lastCheck`, a naive `lastCheck` being read as UTC first. */
  predicate IsDue(now: DateTime, lastCheck: DateTime, interval: int)
    requires now.offset.Some?
  {
    Instant(now) - Instant(AsUtc(lastCheck)) >= interval * 60
  }

  /** A naive checkpoint counts from its wall-clock reading taken as UTC; an
      aware one from the instant it denotes. */
  lemma DueFromCheckpoint(now: DateTime, lastCheck: DateTime, interval: int)
    requires now.offset.Some?
    ensures lastCheck.offset.None? ==>
              (IsDue(now, lastCheck, interval) <==> Instant(now) >= lastCheck.wall + 60 * interval)
    ensures lastCheck.offset.Some? ==>
              (IsDue(now, lastCheck, interval) <==> Instant(now) >= Instant(lastCheck) + 60 * interval)
  {
  }

  /** Once due, a user stays due as the clock moves on: the second due test in
      `check_and_notify` agrees with the first one in the polling loop. */
  lemma DueStaysDue(earlier: DateTime, later: DateTime, lastCheck: DateTime, interval: int)
    requires earlier.offset.Some? && later.offset.Some?
    requires Instant(earlier) <= Instant(later)
    requires IsDue(earlier, lastCheck, interval)
    ensures IsDue(later, lastCheck, interval)
  {
  }

  /** The process clock. Callers may rely only on it never going backwards. */
  class Clock {
    var time: int

    constructor (start: int)
      ensures time == start
    {
      time := start;
    }

    /** `datetime.now(timezone.utc)`, as whole UTC seconds. */
    method Now() returns (t: int)
      modifies this
      ensures old(time) <= t && time == t
    {
      t := time;
    }

    /** Time passing outside the bot. */
    method Advance(seconds: nat)
      modifies this
      ensures time == old(time) + seconds
    {
      time := time + seconds;
    }
  }
}

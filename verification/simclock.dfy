/** `SimulationClock`: the simulated time of day is the time of the first
    alert plus the whole seconds of real time since the simulation started.
    Real instants are nanoseconds since the epoch and are passed in by the
    caller instead of being read from the system clock. */
module SimClock {
  import opened Wrappers
  import opened LocalTime

  /** A real instant, in nanoseconds since the epoch. */
  type Instant = int

  /** The clock's two fields; `None` stands for Java's `null`. */
  datatype Clock = Clock(realStart: Option<Instant>, offset: Option<Time>)

  /** The state of a clock nobody has started. */
  const Unstarted: Clock := Clock(None, None)

  /** `IllegalStateException("Simulation clock not started properly.")`. */
  datatype ClockError = NotStarted

  const TwoTo31: int := 0x8000_0000
  const TwoTo32: int := 0x1_0000_0000

  /** Java's narrowing cast `(int)` of a `long`: keep the low 32 bits, read
      them as a two's-complement number. */
  function ToInt32(x: int): (r: int)
    ensures -TwoTo31 <= r < TwoTo31
    ensures (r - x) % TwoTo32 == 0
  {
    var r := (x + TwoTo31) % TwoTo32 - TwoTo31;
    assert x + TwoTo31 == (x + TwoTo31) / TwoTo32 * TwoTo32 + (x + TwoTo31) % TwoTo32;
    r
  }

  /** A value that already fits in an `int` survives the cast unchanged. */
  lemma ToInt32InRange(x: int)
    requires -TwoTo31 <= x < TwoTo31
    ensures ToInt32(x) == x
  {
  }

  /** `markStart(firstAlertTime)` at real instant `now`. */
  function MarkStart(c: Clock, now: Instant, firstAlertTime: Time): (r: Clock)
    ensures r.realStart.Some? && r.offset.Some?
  {
    Clock(Some(now), Some(firstAlertTime))
  }

  /** `Duration.between(start, now).getSeconds()`: whole seconds, rounded
      toward negative infinity (Dafny's `/` by a positive number floors). */
  function WholeSecondsBetween(start: Instant, now: Instant): (s: int)
    ensures s * NanosPerSecond <= now - start < (s + 1) * NanosPerSecond
  {
    (now - start) / NanosPerSecond
  }

  /** `getElapsedSeconds()` at real instant `now`. */
  function ElapsedSeconds(c: Clock, now: Instant): (r: Result<int, ClockError>)
    ensures r.Err? <==> c.realStart.None? || c.offset.None?
    ensures r.Ok? ==> -TwoTo31 <= r.value < TwoTo31
  {
    if c.realStart.None? || c.offset.None? then Err(NotStarted)
    else Ok(ToInt32(WholeSecondsBetween(c.realStart.value, now)))
  }

  /** `getCurrentSimulatedTime()` at real instant `now`. */
  function CurrentSimulatedTime(c: Clock, now: Instant): (r: Result<Time, ClockError>)
    ensures r.Err? <==> c.realStart.None? || c.offset.None?
    ensures r.Ok? ==> Nano(r.value) == Nano(c.offset.value)
  {
    match ElapsedSeconds(c, now)
    case Err(e) => Err(e)
    case Ok(seconds) => Ok(PlusSeconds(c.offset.value, seconds))
  }

  /** While fewer than 2^31 seconds have passed, the elapsed count is exactly
      the whole seconds since the start, the fraction truncated. */
  lemma ElapsedIsWholeSeconds(c: Clock, now: Instant)
    requires c.realStart.Some? && c.offset.Some?
    requires c.realStart.value <= now < c.realStart.value + TwoTo31 * NanosPerSecond
    ensures ElapsedSeconds(c, now).Ok?
    ensures 0 <= ElapsedSeconds(c, now).value
    ensures ElapsedSeconds(c, now).value * NanosPerSecond <= now - c.realStart.value
    ensures now - c.realStart.value < (ElapsedSeconds(c, now).value + 1) * NanosPerSecond
  {
    var s := WholeSecondsBetween(c.realStart.value, now);
    assert 0 <= s < TwoTo31;
    ToInt32InRange(s);
  }

  /** The simulated time is the offset advanced by the elapsed seconds
      modulo one day. */
  lemma SimulatedTimeModular(c: Clock, now: Instant)
    requires c.realStart.Some? && c.offset.Some?
    ensures CurrentSimulatedTime(c, now).Ok?
    ensures CurrentSimulatedTime(c, now).value
         == (c.offset.value + ElapsedSeconds(c, now).value * NanosPerSecond) % NanosPerDay
  {
    PlusSecondsModular(c.offset.value, ElapsedSeconds(c, now).value);
  }

  /** During the first second after `markStart(t)` the simulated time is `t`. */
  lemma StartShowsFirstAlert(c: Clock, start: Instant, t: Time, now: Instant)
    requires start <= now < start + NanosPerSecond
    ensures CurrentSimulatedTime(MarkStart(c, start, t), now) == Ok(t)
  {
    var c' := MarkStart(c, start, t);
    assert WholeSecondsBetween(start, now) == 0;
    ToInt32InRange(0);
  }

  /** `markStart` overwrites both fields: what the clock did before it is
      forgotten. */
  lemma MarkStartForgets(c1: Clock, c2: Clock, now: Instant, t: Time, later: Instant)
    ensures MarkStart(c1, now, t) == MarkStart(c2, now, t)
    ensures CurrentSimulatedTime(MarkStart(c1, now, t), later)
         == CurrentSimulatedTime(MarkStart(Unstarted, now, t), later)
  {
  }

  /** Restarting replaces the start instant and the offset with the new ones. */
  lemma RestartReplaces(c: Clock, now1: Instant, t1: Time, now2: Instant, t2: Time)
    ensures MarkStart(MarkStart(c, now1, t1), now2, t2) == MarkStart(Unstarted, now2, t2)
    ensures MarkStart(MarkStart(c, now1, t1), now2, t2).offset == Some(t2)
    ensures MarkStart(MarkStart(c, now1, t1), now2, t2).realStart == Some(now2)
  {
  }

  /** A clock nobody has started refuses to tell the time. */
  lemma UnstartedFails(now: Instant)
    ensures ElapsedSeconds(Unstarted, now) == Err(NotStarted)
    ensures CurrentSimulatedTime(Unstarted, now) == Err(NotStarted)
  {
  }
}

/**
 Go's time arithmetic as the controllers use it: instants of unbounded range, and durations
 that are int64 nanoseconds. `time.Until` saturates at the ends of int64; the subtraction of
 the renew buffer from its result wraps around.
 */
module GoTime {

  /** Nanoseconds since 1 January of year 1, UTC, so that Go's zero Time is 0. */
  type Instant = int

  const MAX_DURATION: int := 0x7FFF_FFFF_FFFF_FFFF
  const MIN_DURATION: int := -0x8000_0000_0000_0000

  type Duration = d: int | MIN_DURATION <= d <= MAX_DURATION

  const SECOND: Duration := 1_000_000_000
  const MINUTE: Duration := 60 * SECOND

  /** controllerconst.RequeueInterval */
  const REQUEUE_INTERVAL: Duration := 10 * MINUTE

  function Saturate(d: int): Duration {
    if d > MAX_DURATION then MAX_DURATION else if d < MIN_DURATION then MIN_DURATION else d
  }

  /** Two's complement wrap-around to 64 bits. */
  function WrapInt64(x: int): Duration {
    (x - MIN_DURATION) % 0x1_0000_0000_0000_0000 + MIN_DURATION
  }

  /** time.Until(e), read at `now` */
  function Until(e: Instant, now: Instant): Duration {
    Saturate(e - now)
  }

  /** What reconcilePropagate asks of one token: how long until it has to be rotated. */
  function RotationDeadline(e: Instant, now: Instant, buffer: Duration): Duration {
    var left := WrapInt64(Until(e, now) - buffer);
    if left > 0 then left else 0
  }

  /** What NeedsRotation asks of one token: does it have to be rotated now? */
  predicate RotationDue(e: Instant, now: Instant, buffer: Duration) {
    Until(e, now) <= buffer
  }

  /** An instant cut down to the second, which is all that RFC 3339 without a fraction keeps. */
  function FloorToSecond(t: Instant): Instant {
    t / SECOND * SECOND
  }

  lemma FloorIsClose(t: Instant)
    ensures FloorToSecond(t) % 1_000_000_000 == 0
    ensures FloorToSecond(t) <= t < FloorToSecond(t) + SECOND && SECOND == 1_000_000_000
    ensures FloorToSecond(FloorToSecond(t)) == FloorToSecond(t)
  {
  }

  /** Rotation is due once what is left is no more than the buffer, whatever time.Until cuts off. */
  lemma DueMeaning(e: Instant, now: Instant, buffer: Duration)
    ensures RotationDue(e, now, buffer) <==> e - now <= buffer || buffer == 0x7FFF_FFFF_FFFF_FFFF
  {
  }

  /** And the deadline is what is left beyond the buffer, for all that int64 can hold. */
  lemma DeadlineMeaning(e: Instant, now: Instant, buffer: Duration)
    requires -0x8000_0000_0000_0000 + buffer <= e - now <= 0x7FFF_FFFF_FFFF_FFFF && buffer >= 0
    ensures RotationDeadline(e, now, buffer) == if e - now > buffer then e - now - buffer else 0
  {
    assert WrapInt64(e - now - buffer) == e - now - buffer;
  }

  /** The int64 subtraction in the deadline stays in range, and `time.Until` did not cut off
      an expiry further away than int64 can hold (unless the buffer is that long as well). */
  predicate InRange(e: Instant, now: Instant, buffer: Duration) {
    && MIN_DURATION <= Until(e, now) - buffer <= MAX_DURATION
    && (e - now <= MAX_DURATION || buffer == MAX_DURATION)
  }

  /** The two readers of an expiry agree at every later instant exactly when the arithmetic
      stays in range: with deadline d computed at `now`, rotation is due at a later instant iff
      at least d has passed by then. */
  lemma ReadersAgree(e: Instant, now: Instant, buffer: Duration)
    ensures InRange(e, now, buffer)
       <==> forall later | later >= now ::
              RotationDue(e, later, buffer) <==> later - now >= RotationDeadline(e, now, buffer)
  {
    var d := RotationDeadline(e, now, buffer);
    if InRange(e, now, buffer) {
      assert WrapInt64(Until(e, now) - buffer) == Until(e, now) - buffer;
    } else if MIN_DURATION <= Until(e, now) - buffer <= MAX_DURATION {
      assert WrapInt64(Until(e, now) - buffer) == Until(e, now) - buffer;
      assert !RotationDue(e, now + d, buffer);
    } else {
      assert RotationDue(e, now, buffer) <==> !(0 >= d);
    }
  }

  /** A token GitHub reports without expiry carries Go's zero time. Read once int64 nanoseconds have
      passed since then, it is due for rotation, yet the wrapped deadline asks for the next pass some
      292 years on, less the buffer. */
  lemma ZeroTimeIsForgotten(now: Instant, buffer: Duration)
    requires now >= -MIN_DURATION && buffer > 0
    ensures RotationDue(0, now, buffer)
    ensures RotationDeadline(0, now, buffer) == MAX_DURATION - buffer + 1
  {
  }
}

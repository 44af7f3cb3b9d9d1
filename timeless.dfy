/**
 A deterministic stand-in for a monotonic clock. Time is a tick counter that
 advances by one on every call to `Now`, never with wall-clock progress, so two
 runs of the same program see the same timestamps. One tick stands for one
 microsecond. `Duration` and `Instant` are immutable values over a `u64`
 microsecond count; every checked operation reports overflow or underflow as
 `None` instead of wrapping.
 */
module Timeless {
  import opened Wrappers
  import opened UInt64

  /** A non-negative span of time, in microseconds. Order and equality are those of `micros`. */
  datatype Duration = Duration(micros: U64) {

    /** The additive identity. */
    static const ZERO: Duration := Duration(0)

    static function FromMicros(n: U64): Duration
    {
      Duration(n)
    }

    function AsMicros(): (n: U64)
      ensures FromMicros(n) == this
    {
      micros
    }

    static function Zero(): (d: Duration)
      ensures d == ZERO && d.AsMicros() == 0
    {
      Duration(0)
    }

    /** The difference `this - rhs`, or `None` when `rhs` is the longer span. */
    function CheckedSub(rhs: Duration): (r: Option<Duration>)
      ensures r.None? <==> rhs.micros > micros
      ensures r.Some? ==> r.value.micros == micros - rhs.micros
    {
      match UInt64.CheckedSub(micros, rhs.micros)
      case Some(m) => Some(Duration(m))
      case None => None
    }

    /** The sum `this + rhs`, or `None` when it exceeds `u64::MAX` microseconds. */
    function CheckedAdd(rhs: Duration): (r: Option<Duration>)
      ensures r.None? <==> micros + rhs.micros > MAX
      ensures r.Some? ==> r.value.micros == micros + rhs.micros
    {
      match UInt64.CheckedAdd(micros, rhs.micros)
      case Some(m) => Some(Duration(m))
      case None => None
    }

    /** The unchecked `+` operator, for callers that already know the sum fits. */
    function Add(rhs: Duration): (r: Duration)
      requires micros + rhs.micros <= MAX
      ensures CheckedAdd(rhs) == Some(r)
    {
      Duration(micros + rhs.micros)
    }

    /** The unchecked `-` operator, for callers that already know `rhs` is not longer. */
    function Sub(rhs: Duration): (r: Duration)
      requires rhs.micros <= micros
      ensures CheckedSub(rhs) == Some(r)
      ensures r.Add(rhs) == this
    {
      Duration(micros - rhs.micros)
    }
  }

  /**
   A place holding a `Duration` that `+=` updates in place (a `&mut Duration`).
   */
  class DurationCell {
    var micros: U64

    function Value(): (d: Duration)
      reads this
      ensures d.micros == micros
    {
      Duration(micros)
    }

    constructor (d: Duration)
      ensures Value() == d
    {
      micros := d.micros;
    }

    /** The unchecked `+=` operator, for callers that already know the sum fits. */
    method AddAssign(rhs: Duration)
      requires micros + rhs.micros <= MAX
      modifies this
      ensures Value() == old(Value()).Add(rhs)
      ensures old(Value()).CheckedAdd(rhs) == Some(Value())
    {
      micros := micros + rhs.micros;
    }
  }

  /** A point on the tick timeline. Order and equality are those of `micros`. */
  datatype Instant = Instant(micros: U64) {

    /** The span from `other` to `this`, or `None` when `other` is later. */
    function CheckedSubInstant(other: Instant): (r: Option<Duration>)
      ensures r.None? <==> other.micros > micros
      ensures r.Some? ==> r.value.micros == micros - other.micros
    {
      match UInt64.CheckedSub(micros, other.micros)
      case Some(m) => Some(Duration(m))
      case None => None
    }

    /** `this` shifted forward by `d`, or `None` past the last representable tick. */
    function CheckedAddDuration(d: Duration): (r: Option<Instant>)
      ensures r.None? <==> micros + d.micros > MAX
      ensures r.Some? ==> r.value.micros == micros + d.micros
    {
      match UInt64.CheckedAdd(micros, d.micros)
      case Some(m) => Some(Instant(m))
      case None => None
    }

    /** `this` shifted backward by `d`, or `None` before tick zero. */
    function CheckedSubDuration(d: Duration): (r: Option<Instant>)
      ensures r.None? <==> d.micros > micros
      ensures r.Some? ==> r.value.micros == micros - d.micros
    {
      match UInt64.CheckedSub(micros, d.micros)
      case Some(m) => Some(Instant(m))
      case None => None
    }
  }

  /**
   The instants that `n` successive calls of `Now` return when the counter
   starts at `start`: `start + 1`, `start + 2`, ..., `start + n`.
   */
  ghost function Trace(start: U64, n: nat): (r: seq<Instant>)
    requires start + n <= MAX
    ensures |r| == n
    decreases n
  {
    if n == 0 then [] else [Instant(start + 1)] + Trace(start + 1, n - 1)
  }

  /**
   The process-wide tick counter (`COUNTER`, initially 0) together with the
   history of the instants `Now` has handed out.
   */
  class Clock {
    var counter: U64
    ghost var issued: seq<Instant>

    /** Every instant handed out so far is exactly the trace of the counter from zero. */
    ghost predicate Valid()
      reads this
    {
      issued == Trace(0, counter)
    }

    constructor ()
      ensures Valid() && counter == 0 && issued == []
    {
      counter := 0;
      issued := [];
    }

    /** `Instant::now`: advance the counter by one and stamp the new value. */
    method Now() returns (t: Instant)
      requires Valid() && counter < MAX
      modifies this
      ensures Valid()
      ensures counter == old(counter) + 1
      ensures t.micros == counter
      ensures issued == old(issued) + [t]
      ensures forall k :: 0 <= k < |old(issued)| ==> old(issued)[k].micros < t.micros
    {
      TraceSnoc(0, counter);
      counter := counter + 1;
      t := Instant(counter);
      issued := issued + [t];
      forall k | 0 <= k < |old(issued)|
        ensures old(issued)[k].micros < t.micros
      {
        TraceAt(0, old(counter), k);
      }
    }

    /**
     `Instant::elapsed`: call `Now` and return how far it lies after `since`,
     saturating at zero when `since` is later than the fresh instant.
     */
    method Elapsed(since: Instant) returns (d: Duration)
      requires Valid() && counter < MAX
      modifies this
      ensures Valid()
      ensures counter == old(counter) + 1
      ensures |issued| == |old(issued)| + 1 && issued[..|old(issued)|] == old(issued)
      ensures d.micros == if since.micros <= counter then counter - since.micros else 0
      ensures since.micros <= counter ==> since.CheckedAddDuration(d) == Some(Instant(counter))
    {
      var now := Now();
      d := Duration(SaturatingSub(now.micros, since.micros));
    }
  }

  /** Identity: `ZERO`, and `zero()`, leave every duration unchanged under checked `+` and `-`. */
  lemma ZeroIsIdentity(d: Duration)
    ensures Duration.Zero().micros == 0
    ensures d.CheckedAdd(Duration.ZERO) == Some(d) && d.CheckedSub(Duration.ZERO) == Some(d)
    ensures d.CheckedAdd(Duration.Zero()) == Some(d) && d.CheckedSub(Duration.Zero()) == Some(d)
  {
  }

  /** `from_micros` and `as_micros` are inverse conversions between `u64` and `Duration`. */
  lemma MicrosRoundTrip(n: U64, d: Duration)
    ensures Duration.FromMicros(n).AsMicros() == n
    ensures Duration.FromMicros(d.AsMicros()) == d
  {
  }

  /** Checked `+` and checked `-` on durations undo each other. */
  lemma DurationAddSubRoundTrip(a: Duration, b: Duration, s: Duration)
    ensures a.CheckedAdd(b) == Some(s) <==> s.CheckedSub(b) == Some(a)
  {
  }

  /** `Duration::from_micros(u64::MAX).checked_add(Duration::from_micros(1))` is `None`. */
  lemma OverflowGuard()
    ensures Duration.FromMicros(MAX).CheckedAdd(Duration.FromMicros(1)) == None
  {
  }

  /** An earlier instant minus a later one has no result. */
  lemma UnderflowGuard(a: Instant, b: Instant)
    requires a.micros < b.micros
    ensures a.CheckedSubInstant(b) == None
    ensures b.CheckedSubInstant(a).Some?
  {
  }

  /** The difference of two instants is exactly the shift that takes the earlier to the later. */
  lemma InstantDifferenceRoundTrip(a: Instant, b: Instant, d: Duration)
    ensures b.CheckedSubInstant(a) == Some(d) <==> (a.micros <= b.micros && a.CheckedAddDuration(d) == Some(b))
  {
  }

  /** Shifting an instant forward and back by the same duration returns it, and so does back then forward. */
  lemma ShiftRoundTrip(i: Instant, d: Duration)
    ensures forall j :: i.CheckedAddDuration(d) == Some(j) ==> j.CheckedSubDuration(d) == Some(i)
    ensures forall j :: i.CheckedSubDuration(d) == Some(j) ==> j.CheckedAddDuration(d) == Some(i)
  {
  }

  /** The k-th call of `Now` after the counter stood at `start` returns `start + k + 1`. */
  lemma {:induction false} TraceAt(start: U64, n: nat, k: nat)
    requires start + n <= MAX && k < n
    ensures Trace(start, n)[k].micros == start + k + 1
    decreases n
  {
    if k > 0 {
      TraceAt(start + 1, n - 1, k - 1);
    }
  }

  /** One more call of `Now` appends exactly one instant, the new counter value. */
  lemma {:induction false} TraceSnoc(start: U64, n: nat)
    requires start + n < MAX
    ensures Trace(start, n + 1) == Trace(start, n) + [Instant(start + n + 1)]
    decreases n
  {
    if n > 0 {
      TraceSnoc(start + 1, n - 1);
    }
  }

  /** Monotonicity: successive calls of `Now` return strictly increasing, hence distinct, instants. */
  lemma TraceStrictlyIncreasing(start: U64, n: nat)
    requires start + n <= MAX
    ensures forall i, j :: 0 <= i < j < n ==> Trace(start, n)[i].micros < Trace(start, n)[j].micros
  {
    forall i, j | 0 <= i < j < n
      ensures Trace(start, n)[i].micros < Trace(start, n)[j].micros
    {
      TraceAt(start, n, i);
      TraceAt(start, n, j);
    }
  }

  /**
   Repeated `elapsed` on one stored instant never decreases, and strictly
   increases once the counter has reached that instant.
   */
  method ElapsedGrows(clock: Clock, since: Instant) returns (d1: Duration, d2: Duration)
    requires clock.Valid() && clock.counter + 1 < MAX
    modifies clock
    ensures clock.Valid() && clock.counter == old(clock.counter) + 2
    ensures d1.micros <= d2.micros
    ensures since.micros <= old(clock.counter) + 1 ==> d1.micros < d2.micros
  {
    d1 := clock.Elapsed(since);
    d2 := clock.Elapsed(since);
  }

  /**
   A fresh clock: three calls of `Now` return 1, 2 and 3, and `elapsed` on the
   first afterwards, which is a fourth call, measures 3 ticks.
   */
  method FreshClockScenario() returns (first: Instant, second: Instant, third: Instant, e: Duration)
    ensures [first, second, third] == Trace(0, 3)
    ensures first.micros == 1 && second.micros == 2 && third.micros == 3
    ensures e.micros == 3
  {
    var clock := new Clock();
    first := clock.Now();
    second := clock.Now();
    third := clock.Now();
    e := clock.Elapsed(first);
  }
}

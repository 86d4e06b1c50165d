/** Counter ticks in the xHCI driver: nanoseconds to ticks without overflow, ticks
    elapsed across a wrap, and the wait for a register bit. Values are UINT64 and
    their arithmetic wraps. */
module Ticks {
  import Arith
  import opened Efi
  import opened Wrappers

  const WORD64 := 0x1_0000_0000_0000_0000
  const WORD32 := 0x1_0000_0000
  const NANOSECONDS := 1_000_000_000
  const MICROSECOND := 1000

  // ---- Powers of two and the highest bit ----------------------------------------

  lemma {:induction false} Pow2Monotone(a: nat, b: nat)
    requires a <= b
    ensures Arith.Pow2(a) <= Arith.Pow2(b)
    decreases b
  {
    if a < b {
      Pow2Monotone(a, b - 1);
    }
  }

  lemma SomePowers()
    ensures Arith.Pow2(29) == 0x2000_0000 && Arith.Pow2(30) == 0x4000_0000 && Arith.Pow2(64) == WORD64
  {
    assert Arith.Pow2(4) == 16 && Arith.Pow2(5) == 32;
    Arith.Pow2Sum(4, 4);
    Arith.Pow2Sum(8, 8);
    Arith.Pow2Sum(16, 16);
    Arith.Pow2Sum(32, 32);
    Arith.Pow2Sum(16, 8);
    Arith.Pow2Sum(24, 5);
  }

  /** The index of the highest bit set, -1 for none. */
  function HighBitSet64(x: nat): (r: int)
    ensures r >= -1
  {
    if x == 0 then -1 else 1 + HighBitSet64(x / 2)
  }

  lemma {:induction false} HighBit(x: nat)
    ensures x < Arith.Pow2(HighBitSet64(x) + 1)
    ensures x > 0 ==> HighBitSet64(x) >= 0 && Arith.Pow2(HighBitSet64(x)) <= x
  {
    if x > 0 {
      HighBit(x / 2);
    }
  }

  /** A number reaches bit n exactly when it is at least 2^n. */
  lemma HighBitAtLeast(x: nat, n: nat)
    ensures HighBitSet64(x) >= n <==> x >= Arith.Pow2(n)
  {
  }

  // ---- Nanoseconds to ticks ---------------------------------------------------------

  function Shift(remainder: nat, time: nat): nat {
    var s := HighBitSet64(remainder) + HighBitSet64(time) - 62;
    if s > 0 then s else 0
  }

  /** The product that follows the shift fits 64 bits. */
  lemma ProductFits(remainder: nat, time: nat)
    requires time < WORD64
    ensures Arith.Div(remainder, Arith.Pow2(Shift(remainder, time))) * time < WORD64
  {
    SomePowers();
    HighBitAtLeast(time, 64);
    HighBit(remainder);
    HighBit(time);
    var t, s := HighBitSet64(time) + 1, Shift(remainder, time);
    var top := HighBitSet64(remainder) + 1 - s;
    Arith.Pow2Sum(top, s);
    Arith.DivBelow(remainder, Arith.Pow2(top), Arith.Pow2(s));
    Below(Arith.Div(remainder, Arith.Pow2(s)), Arith.Pow2(top), time, Arith.Pow2(t));
    Arith.Pow2Sum(top, t);
    Pow2Monotone(top + t, 64);
  }

  lemma ProductUnwrapped(remainder: nat, time: nat)
    requires time < WORD64
    ensures var product := Arith.Times(Arith.Div(remainder, Arith.Pow2(Shift(remainder, time))), time);
      Arith.Mod(product, WORD64) == product
  {
    ProductFits(remainder, time);
  }

  lemma Below(a: nat, b: nat, c: nat, d: nat)
    requires a < b && c < d
    ensures a * c < b * d
  {
  }

  /** The shifted divisor is zero exactly for a remainder of 2^29 or more and a time
      of 2^63 or more. */
  lemma DivisorZero(remainder: nat, time: nat)
    requires remainder < NANOSECONDS && time < WORD64
    ensures Arith.Div(NANOSECONDS, Arith.Pow2(Shift(remainder, time))) == 0 <==>
            remainder >= 0x2000_0000 && time >= 0x8000_0000_0000_0000
  {
    SomePowers();
    Arith.Pow2Sum(63, 1);
    assert Arith.Pow2(63) == 0x8000_0000_0000_0000;
    HighBitAtLeast(remainder, 29);
    HighBitAtLeast(remainder, 30);
    HighBitAtLeast(time, 63);
    HighBitAtLeast(time, 64);
    var s := Shift(remainder, time);
    if s >= 30 {
      Pow2Monotone(30, s);
      Arith.DivBelow(NANOSECONDS, 1, Arith.Pow2(s));
      Arith.DivMonotone(0, NANOSECONDS, Arith.Pow2(s));
    } else {
      Pow2Monotone(s, 29);
      Arith.DivMonotone(Arith.Pow2(s), NANOSECONDS, Arith.Pow2(s));
      Arith.Quotient(0, 1, Arith.Pow2(s));
    }
  }

  /** frequency / 10^9 * time + (remainder >> s) * time / (10^9 >> s). */
  function Unwrapped(frequency: nat, time: nat): nat
    requires frequency > 0 && Convertible(frequency, time)
  {
    var remainder := Arith.Mod(frequency, NANOSECONDS);
    var shift := Arith.Pow2(Shift(remainder, time));
    Arith.Times(Arith.Div(frequency, NANOSECONDS), time)
    + Arith.Div(Arith.Times(Arith.Div(remainder, shift), time), Arith.Div(NANOSECONDS, shift))
  }

  /** What the conversion returns for a counter of this frequency. */
  function Ticks(frequency: nat, time: nat): (r: nat)
    requires Convertible(frequency, time)
    ensures r < WORD64
  {
    if frequency == 0 then Arith.Mod(time, WORD64) else Arith.Mod(Unwrapped(frequency, time), WORD64)
  }

  /** The divisions are defined. */
  predicate Convertible(frequency: nat, time: nat) {
    frequency == 0
    || Arith.Div(NANOSECONDS, Arith.Pow2(Shift(Arith.Mod(frequency, NANOSECONDS), time))) > 0
  }

  /** The conversion divides by zero exactly for a frequency whose part below 1 GHz
      is 2^29 or more and a time of 2^63 nanoseconds or more. */
  lemma WhenConvertible(frequency: nat, time: nat)
    requires time < WORD64
    ensures Convertible(frequency, time) <==>
            !(frequency % NANOSECONDS >= 0x2000_0000 && time >= 0x8000_0000_0000_0000)
  {
    DivisorZero(Arith.Mod(frequency, NANOSECONDS), time);
  }

  /** Without a shift the result is the exact quotient, rounded down. */
  lemma ExactUnlessShifted(frequency: nat, time: nat)
    requires frequency > 0 && Shift(frequency % NANOSECONDS, time) == 0
    ensures Convertible(frequency, time)
    ensures Ticks(frequency, time) == frequency * time / NANOSECONDS % WORD64
  {
    var q, r := frequency / NANOSECONDS, frequency % NANOSECONDS;
    assert Arith.Div(r, Arith.Pow2(0)) == r && Arith.Div(NANOSECONDS, Arith.Pow2(0)) == NANOSECONDS;
    SplitQuotient(q, r, time);
  }

  /** With or without a shift: the conversion, before it wraps, is off by less than
      a tick plus the part of the time and of the divisor that the shift drops. */
  lemma ConversionError(frequency: nat, time: nat)
    requires frequency > 0 && Convertible(frequency, time)
    ensures var k, dropped := Unwrapped(frequency, time), Arith.Pow2(Shift(frequency % NANOSECONDS, time)) - 1;
      && Ticks(frequency, time) == k % WORD64
      && k * (NANOSECONDS - dropped) <= frequency * time < (k + 1) * NANOSECONDS + dropped * time
  {
    hide Arith.Pow2, Shift;
    var q, r, e := frequency / NANOSECONDS, frequency % NANOSECONDS, Arith.Pow2(Shift(frequency % NANOSECONDS, time));
    var c := Arith.Div(Arith.Div(r, e) * time, Arith.Div(NANOSECONDS, e));
    ShiftedQuotient(r, time, NANOSECONDS, e, c);
    Joined(q, r, time, NANOSECONDS, e - 1, c);
    assert Unwrapped(frequency, time) == q * time + c;
    hide Unwrapped, Arith.Div;
  }

  lemma Joined(q: nat, r: nat, t: nat, d: nat, dropped: nat, c: nat)
    requires c * (d - dropped) <= r * t < (c + 1) * d + dropped * t
    ensures (q * t + c) * (d - dropped) <= (d * q + r) * t < (q * t + c + 1) * d + dropped * t
  {
    Arith.Products(q, d, t, r);
    Arith.MulMonotone(0, dropped, q * t);
    Arith.Spread(q * t, c, d - dropped);
    Arith.Spread(q * t, c + 1, d);
    assert q * t * (d - dropped) == d * (q * t) - dropped * (q * t);
  }

  /** Dividing r * t by d after both r and d lost the digits below e. */
  lemma ShiftedQuotient(r: nat, t: nat, d: nat, e: nat, c: nat)
    requires e > 0 && d / e > 0 && c == r / e * t / (d / e)
    ensures c * (d - (e - 1)) <= r * t < (c + 1) * d + (e - 1) * t
  {
    var x, y := r / e, d / e;
    Arith.QuotientBounds(r, e);
    Arith.QuotientBounds(d, e);
    Arith.QuotientBounds(x * t, y);
    Arith.MulMonotone(0, r, t);
    Squeezed(r, t, d, e, c, x, y);
  }

  lemma Squeezed(r: nat, t: nat, d: nat, e: nat, c: nat, x: nat, y: nat)
    requires e > 0 && x * e <= r < x * e + e && y * e <= d < y * e + e && c * y <= x * t < c * y + y
    ensures c * (d - (e - 1)) <= r * t < (c + 1) * d + (e - 1) * t
  {
    NotAbove(r, t, d, e, c, x, y);
    NotBelow(r, t, d, e, c, x, y);
  }

  lemma NotAbove(r: nat, t: nat, d: nat, e: nat, c: nat, x: nat, y: nat)
    requires x * e <= r && d - (e - 1) <= y * e && c * y <= x * t
    ensures c * (d - (e - 1)) <= r * t
  {
    calc {
      c * (d - (e - 1));
    <= { Arith.MulMonotone(d - (e - 1), y * e, c); }
      c * (y * e);
    == { Arith.Regrouped(c, y, e); }
      c * y * e;
    <= { Arith.MulMonotone(c * y, x * t, e); }
      x * t * e;
    == { Arith.Swapped(x, e, t); }
      x * e * t;
    <= { Arith.MulMonotone(x * e, r, t); }
      r * t;
    }
  }

  lemma NotBelow(r: nat, t: nat, d: nat, e: nat, c: nat, x: nat, y: nat)
    requires e > 0 && r <= x * e + (e - 1) && y * e <= d && x * t < c * y + y
    ensures r * t < (c + 1) * d + (e - 1) * t
  {
    calc {
      r * t;
    <= { Arith.MulMonotone(r, x * e + (e - 1), t); }
      (x * e + (e - 1)) * t;
    == { Arith.Spread(x * e, e - 1, t); Arith.Swapped(x, e, t); }
      x * t * e + (e - 1) * t;
    }
    calc {
      x * t * e;
    <  { Arith.Spread(x * t, 1, e); }
      (x * t + 1) * e;
    <= { Arith.Spread(c, 1, y); Arith.MulMonotone(x * t + 1, (c + 1) * y, e); }
      (c + 1) * y * e;
    == { Arith.Regrouped(c + 1, y, e); }
      (c + 1) * (y * e);
    <= { Arith.MulMonotone(y * e, d, c + 1); }
      (c + 1) * d;
    }
  }

  lemma SplitQuotient(q: nat, r: nat, time: nat)
    ensures (NANOSECONDS * q + r) * time / NANOSECONDS == q * time + r * time / NANOSECONDS
  {
    assert (NANOSECONDS * q + r) * time == NANOSECONDS * (q * time) + r * time;
    Carried(q * time, r * time);
  }

  lemma Carried(a: nat, b: nat)
    ensures (NANOSECONDS * a + b) / NANOSECONDS == a + b / NANOSECONDS
  {
  }

  /** A microsecond is at least one tick exactly for a counter of at least 1 MHz, or
      for one whose frequency is unknown. */
  lemma MicrosecondTicks(frequency: nat)
    requires frequency < WORD64
    ensures Convertible(frequency, MICROSECOND)
    ensures Ticks(frequency, MICROSECOND) == if frequency == 0 then MICROSECOND else frequency / 1_000_000
    ensures Ticks(frequency, MICROSECOND) > 0 <==> frequency == 0 || frequency >= 1_000_000
  {
    SomePowers();
    HighBitAtLeast(MICROSECOND, 10);
    HighBitAtLeast(frequency % NANOSECONDS, 30);
    assert Arith.Pow2(10) == 1024 by {
      Arith.Pow2Sum(5, 5);
    }
    if frequency > 0 {
      ExactUnlessShifted(frequency, MICROSECOND);
      PerMicrosecond(frequency);
    }
  }

  lemma PerMicrosecond(frequency: nat)
    requires frequency < WORD64
    ensures frequency * MICROSECOND / NANOSECONDS % WORD64 == frequency / 1_000_000
  {
  }

  // ---- Ticks elapsed ---------------------------------------------------------------

  /** A counter runs from `start` to `end`, up or down, and then starts again. */
  datatype Counter = Counter(frequency: nat, start: nat, end: nat)
  {
    predicate Valid() {
      frequency < WORD64 && start < WORD64 && end < WORD64
    }

    predicate Up() {
      start < end
    }

    predicate Holds(x: nat) {
      if Up() then start <= x <= end else end <= x <= start
    }

    /** How many values the counter takes. */
    function Period(): nat {
      if Up() then end - start + 1 else start - end + 1
    }

    /** How many steps lead from `start` to x. */
    function Position(x: nat): int {
      if Up() then x - start else start - x
    }

    predicate Wrapped(previous: nat, current: nat) {
      Position(current) < Position(previous)
    }

    /** The fewest ticks that lead from `previous` to `current`. */
    function Distance(previous: nat, current: nat): int {
      Position(current) - Position(previous) + if Wrapped(previous, current) then Period() else 0
    }
  }

  /** Ticks since `previous`: the true distance when the counter has not started
      again in between, and one tick less when it has. */
  method XhcGetElapsedTicks(c: Counter, previous: nat, current: nat) returns (delta: nat, next: nat)
    requires c.Valid() && c.Holds(previous) && c.Holds(current)
    ensures delta == c.Distance(previous, current) - if c.Wrapped(previous, current) then 1 else 0
    ensures 0 <= c.Distance(previous, current) < c.Period() && delta < WORD64 && next == current
  {
    if c.start < c.end {
      delta := if previous > current then (current - c.start) + (c.end - previous) else current - previous;
    } else {
      delta := if previous < current then (c.start - current) + (previous - c.end) else previous - current;
    }
    next := current;
  }

  /** The counter's value n ticks after x. */
  function Stepped(c: Counter, x: nat, n: nat): (r: nat)
    requires c.Holds(x)
    ensures c.Holds(r)
    decreases n
  {
    if n == 0 then x
    else
      var y := Stepped(c, x, n - 1);
      if y == c.end then c.start else if c.Up() then y + 1 else y - 1
  }

  lemma {:induction false} SteppedPosition(c: Counter, x: nat, n: nat)
    requires c.Holds(x) && n < c.Period()
    ensures c.Position(Stepped(c, x, n))
            == c.Position(x) + n - if c.Position(x) + n >= c.Period() then c.Period() else 0
    decreases n
  {
    if n > 0 {
      SteppedPosition(c, x, n - 1);
    }
  }

  /** The distance is the fewest ticks from one reading to the other. */
  lemma DistanceIsFewest(c: Counter, previous: nat, current: nat)
    requires c.Valid() && c.Holds(previous) && c.Holds(current)
    ensures 0 <= c.Distance(previous, current) < c.Period()
    ensures Stepped(c, previous, c.Distance(previous, current)) == current
    ensures forall n :: 0 <= n < c.Distance(previous, current) ==> Stepped(c, previous, n) != current
  {
    forall n | 0 <= n < c.Distance(previous, current) ensures Stepped(c, previous, n) != current {
      SteppedPosition(c, previous, n);
    }
    SteppedPosition(c, previous, c.Distance(previous, current));
  }

  // ---- Waiting for a bit ---------------------------------------------------------

  /** The counter's frequency and range, asked for once. */
  class XhcTimer {
    const counter: Counter
    var cached: bool
    var frequency: nat
    var startValue: nat
    var endValue: nat
    /** How often the counter was asked for them. */
    ghost var queries: nat

    ghost predicate Valid()
      reads this
    {
      && counter.Valid()
      && queries == (if cached then 1 else 0)
      && (cached ==> frequency == counter.frequency && startValue == counter.start && endValue == counter.end)
    }

    constructor (counter: Counter)
      requires counter.Valid()
      ensures Valid() && this.counter == counter
    {
      this.counter := counter;
      cached, frequency, startValue, endValue, queries := false, 0, 0, 0, 0;
    }

    method XhcConvertTimeToTicks(time: nat) returns (ticks: nat)
      requires Valid() && time < WORD64 && Convertible(counter.frequency, time)
      modifies this
      ensures Valid() && cached && ticks == Ticks(counter.frequency, time)
    {
      if !cached {
        frequency, startValue, endValue := counter.frequency, counter.start, counter.end;
        queries := queries + 1;
        cached := true;
      }
      if frequency == 0 {
        assert Arith.Mod(time, WORD64) == time;
        return time;
      }
      hide Arith.Pow2, Arith.Div, Arith.Mod, Arith.Times, Shift;
      var remainder := Arith.Mod(frequency, NANOSECONDS);
      var divisor := NANOSECONDS;
      ticks := Arith.Mod(Arith.Times(Arith.Div(frequency, divisor), time), WORD64);
      var shift := Shift(remainder, time);
      ghost var part := Arith.Times(Arith.Div(frequency, NANOSECONDS), time);
      ProductUnwrapped(remainder, time);
      remainder := Arith.Div(remainder, Arith.Pow2(shift));
      divisor := Arith.Div(divisor, Arith.Pow2(shift));
      var quotient := Arith.Div(Arith.Mod(Arith.Times(remainder, time), WORD64), divisor);
      ModSum(part, quotient);
      ticks := Arith.Mod(ticks + quotient, WORD64);
    }

    /** The ticks of one pass: at least one from 1 MHz on or at an unknown frequency,
        where an elapsed time of nothing counts as a microsecond. */
    method CountPass(reading: nat -> nat, pass: nat, currentTick: nat) returns (delta: nat, next: nat)
      requires Valid() && cached && currentTick == reading(pass)
      requires counter.Holds(reading(pass)) && counter.Holds(reading(pass + 1))
      modifies this
      ensures Valid() && cached && next == reading(pass + 1) && delta == PassTicks(counter, reading, pass)
      ensures counter.frequency == 0 || counter.frequency >= 1_000_000 ==> delta > 0
    {
      MicrosecondTicks(counter.frequency);
      delta, next := XhcGetElapsedTicks(counter, currentTick, reading(pass + 1));
      if delta == 0 {
        delta := XhcConvertTimeToTicks(MICROSECOND);
      }
    }

    /** Poll a bit until it is as wanted or the time is up. `bit` and `reading` are the
        register and the counter at each pass. After `patience` passes without an
        end the answer is None: the wait is still going on. */
    method XhcWaitOpRegBit(waitToSet: bool, timeout: nat, bit: nat -> bool, reading: nat -> nat, patience: nat)
      returns (status: Option<Status>, ghost passes: nat)
      requires Valid() && timeout < WORD32
      requires forall k: nat :: counter.Holds(reading(k))
      modifies this
      ensures Valid() && status in {Some(Success), Some(Timeout), None} && passes <= patience
      ensures timeout == 0 ==> status == Some(Timeout) && passes == 0
      ensures Waited(counter, bit, reading, waitToSet, passes, TimeoutTicks(counter, timeout))
      ensures status == Some(Success) ==> bit(passes) == waitToSet
      ensures status != Some(Timeout) && passes > 0 ==>
                Elapsed(counter, reading, passes) < TimeoutTicks(counter, timeout)
      ensures status == Some(Timeout) && timeout > 0 ==>
                passes > 0 && Elapsed(counter, reading, passes) >= TimeoutTicks(counter, timeout)
      ensures status == None ==> passes == patience
      ensures status == Some(Timeout) && timeout > 0 && Steady(counter, reading, passes) ==>
                && counter.Position(reading(passes)) - counter.Position(reading(0)) >= TimeoutTicks(counter, timeout)
                && forall k: nat :: 0 < k < passes ==>
                     counter.Position(reading(k)) - counter.Position(reading(0)) < TimeoutTicks(counter, timeout)
      ensures Ticking(counter, reading, timeout) && patience > TimeoutTicks(counter, timeout) ==>
                status != None && passes <= TimeoutTicks(counter, timeout) + 1
    {
      hide Waited, Ticks, Convertible, TimeoutTime, TimeoutTicks, PassTicks, Elapsed, Ticking, Counter.Holds;
      passes := 0;
      TimeoutTicksAre(counter, timeout);
      WaitedMore(counter, bit, reading, waitToSet, 0, TimeoutTicks(counter, timeout));
      if timeout == 0 {
        return Some(Timeout), passes;
      }
      var timeoutTicks := XhcConvertTimeToTicks(TimeoutTime(timeout));
      ElapsedStep(counter, reading, 0);
      var elapsedTicks, currentTick, pass := 0, reading(0), 0;
      while pass < patience
        invariant Valid() && cached && pass == passes <= patience && currentTick == reading(pass)
        invariant elapsedTicks == Elapsed(counter, reading, pass)
        invariant pass > 0 ==> elapsedTicks < timeoutTicks
        invariant Waited(counter, bit, reading, waitToSet, pass, timeoutTicks)
      {
        EnoughPasses(counter, bit, reading, waitToSet, timeout, pass);
        if bit(pass) == waitToSet {
          return Some(Success), passes;
        }
        WaitedMore(counter, bit, reading, waitToSet, pass, timeoutTicks);
        ElapsedStep(counter, reading, pass);
        var ticksDelta;
        ticksDelta, currentTick := CountPass(reading, pass, currentTick);
        elapsedTicks := Arith.Mod(elapsedTicks + ticksDelta, WORD64);
        pass := pass + 1;
        passes := pass;
        EnoughPasses(counter, bit, reading, waitToSet, timeout, pass);
        if elapsedTicks >= timeoutTicks {
          if Steady(counter, reading, passes) {
            SteadyWait(counter, bit, reading, waitToSet, passes, TimeoutTicks(counter, timeout));
          }
          return Some(Timeout), passes;
        }
      }
      EnoughPasses(counter, bit, reading, waitToSet, timeout, pass);
      return None, passes;
    }
  }

  /** Every pass adds a tick and none wraps the sum of a wait not yet over. */
  ghost predicate Ticking(c: Counter, reading: nat -> nat, timeout: nat)
    requires timeout < WORD32
  {
    (c.frequency == 0 || c.frequency >= 1_000_000) && Paced(c, reading, timeout)
  }

  /** Then n passes have counted at least n ticks. */
  lemma {:induction false} TickEachPass(c: Counter, reading: nat -> nat, timeout: nat, n: nat)
    requires c.Valid() && timeout < WORD32 && Ticking(c, reading, timeout)
    requires forall k: nat :: 0 < k < n ==> Elapsed(c, reading, k) < TimeoutTicks(c, timeout)
    ensures Elapsed(c, reading, n) >= n
  {
    hide Elapsed, PassTicks, TimeoutTicks, Counter.Holds, Counter.Valid;
    ElapsedStep(c, reading, if n > 0 then n - 1 else 0);
    if n > 0 {
      TickEachPass(c, reading, timeout, n - 1);
      assert c.Holds(reading(n - 1)) && c.Holds(reading(n));
      PassAddsTicks(c, reading, n - 1);
      assert PassTicks(c, reading, n - 1) + TimeoutTicks(c, timeout) < WORD64;
      NoWrap(Elapsed(c, reading, n - 1) + PassTicks(c, reading, n - 1));
    }
  }

  lemma NoWrap(x: int)
    requires 0 <= x < WORD64
    ensures x % WORD64 == x
  {
  }

  lemma PassAddsTicks(c: Counter, reading: nat -> nat, k: nat)
    requires c.Valid() && c.Holds(reading(k)) && c.Holds(reading(k + 1))
    requires c.frequency == 0 || c.frequency >= 1_000_000
    ensures PassTicks(c, reading, k) > 0
  {
    MicrosecondTicks(c.frequency);
  }

  lemma EnoughPasses(c: Counter, bit: nat -> bool, reading: nat -> nat, wanted: bool, timeout: nat, n: nat)
    requires c.Valid() && timeout < WORD32 && Waited(c, bit, reading, wanted, n, TimeoutTicks(c, timeout))
    ensures Ticking(c, reading, timeout) ==> n <= TimeoutTicks(c, timeout) + 1
    ensures Ticking(c, reading, timeout) && (n > 0 ==> Elapsed(c, reading, n) < TimeoutTicks(c, timeout)) ==>
              n <= TimeoutTicks(c, timeout)
  {
    if Ticking(c, reading, timeout) {
      TickEachPass(c, reading, timeout, n);
      if n > 0 {
        TickEachPass(c, reading, timeout, n - 1);
      }
    }
  }

  lemma ElapsedStep(c: Counter, reading: nat -> nat, n: nat)
    ensures Elapsed(c, reading, 0) == 0
    ensures Elapsed(c, reading, n + 1) == (Elapsed(c, reading, n) + PassTicks(c, reading, n)) % WORD64
  {
  }

  /** Readings no two of which lie so far apart that one pass would wrap the sum of a
      wait not yet over. */
  ghost predicate Paced(c: Counter, reading: nat -> nat, timeout: nat)
    requires timeout < WORD32
  {
    && (forall k: nat :: c.Holds(reading(k)))
    && (forall k: nat :: PassTicks(c, reading, k) + TimeoutTicks(c, timeout) < WORD64)
  }

  /** Some pass finds the time up, if the bit has not come before. */
  ghost predicate Ends(c: Counter, reading: nat -> nat, timeout: nat)
    requires timeout < WORD32
  {
    exists n: nat :: 0 < n && Elapsed(c, reading, n) >= TimeoutTicks(c, timeout)
  }

  /** The wait ends for all readings of the counter exactly if its frequency is unknown
      or at least 1 MHz, or if the timeout is less than one of its ticks. */
  lemma WaitEnds(c: Counter, timeout: nat)
    requires c.Valid() && timeout < WORD32
    ensures (forall reading: nat -> nat :: Paced(c, reading, timeout) ==> Ends(c, reading, timeout))
            <==> c.frequency == 0 || c.frequency >= 1_000_000 || c.frequency * TimeoutTime(timeout) < NANOSECONDS
  {
    hide TimeoutTicks, TimeoutTime, Elapsed, PassTicks, Paced, Ends, Counter.Holds;
    if 0 < c.frequency < 1_000_000 {
      SlowTimeout(c, timeout);
      if TimeoutTicks(c, timeout) > 0 {
        StillReadings(c, timeout);
      } else {
        forall reading: nat -> nat | Paced(c, reading, timeout) ensures Ends(c, reading, timeout) {
          AtOnce(c, reading, timeout);
        }
      }
    } else {
      forall reading: nat -> nat | Paced(c, reading, timeout) ensures Ends(c, reading, timeout) {
        FastEnds(c, reading, timeout);
      }
    }
  }

  /** A counter that starts again early enough is read in no other way. */
  lemma ShortPeriod(c: Counter, reading: nat -> nat, timeout: nat)
    requires c.Valid() && timeout < WORD32 && forall k: nat :: c.Holds(reading(k))
    requires c.Period() + MICROSECOND + c.frequency + TimeoutTicks(c, timeout) < WORD64
    ensures Paced(c, reading, timeout)
  {
    hide TimeoutTicks;
    forall k: nat ensures PassTicks(c, reading, k) + TimeoutTicks(c, timeout) < WORD64 {
      assert c.Holds(reading(k)) && c.Holds(reading(k + 1));
      MicrosecondTicks(c.frequency);
    }
  }

  lemma AtOnce(c: Counter, reading: nat -> nat, timeout: nat)
    requires timeout < WORD32 && TimeoutTicks(c, timeout) == 0
    ensures Ends(c, reading, timeout)
  {
    hide TimeoutTicks, PassTicks, Elapsed;
    ElapsedStep(c, reading, 0);
    assert Elapsed(c, reading, 1) >= TimeoutTicks(c, timeout);
  }

  lemma FastEnds(c: Counter, reading: nat -> nat, timeout: nat)
    requires c.Valid() && timeout < WORD32 && Paced(c, reading, timeout)
    requires c.frequency == 0 || c.frequency >= 1_000_000
    ensures Ends(c, reading, timeout)
  {
    hide TimeoutTicks, PassTicks, Elapsed;
    if !Ends(c, reading, timeout) {
      assert Ticking(c, reading, timeout);
      TickEachPass(c, reading, timeout, TimeoutTicks(c, timeout) + 1);
      assert false;
    }
  }

  lemma StillReadings(c: Counter, timeout: nat)
    requires c.Valid() && timeout < WORD32 && 0 < c.frequency < 1_000_000 && TimeoutTicks(c, timeout) > 0
    ensures exists reading: nat -> nat :: Paced(c, reading, timeout) && !Ends(c, reading, timeout)
  {
    hide PassTicks, Elapsed, Still, Ticks;
    var still := Still(c.start);
    forall k: nat ensures c.Holds(still(k)) && PassTicks(c, still, k) == 0 && Elapsed(c, still, k) == 0 {
      StillAt(c.start, k);
      StandsStill(c, c.start, k);
      SlowCounterHangs(c, c.start, k);
    }
    assert Paced(c, still, timeout);
    assert !Ends(c, still, timeout);
  }

  /** A counter that reads x for ever. */
  function Still(x: nat): nat -> nat {
    _ => x
  }

  lemma StillAt(x: nat, k: nat)
    ensures Still(x)(k) == x
  {
  }

  /** Below 1 MHz no shift is taken, and the timeout is nothing exactly if it is less
      than a tick. */
  lemma SlowTimeout(c: Counter, timeout: nat)
    requires timeout < WORD32 && 0 < c.frequency < 1_000_000
    ensures TimeoutTicks(c, timeout) == 0 <==> c.frequency * TimeoutTime(timeout) < NANOSECONDS
  {
    hide TimeoutTicks, Ticks, Convertible, HighBitSet64, Arith.Pow2;
    var f, time := c.frequency, TimeoutTime(timeout);
    TimeoutTicksAre(c, timeout);
    SmallPowers();
    FortyTwo();
    assert time <= WORD32 * 1000 < Arith.Pow2(42);
    HighBitAtLeast(f, 20);
    HighBitAtLeast(time, 42);
    hide TimeoutTime;
    assert f % NANOSECONDS == f && Shift(f, time) == 0;
    ExactUnlessShifted(f, time);
    SmallQuotient(f, time);
  }

  lemma FortyTwo()
    ensures Arith.Pow2(42) == 0x400_0000_0000
  {
    SmallPowers();
    Arith.Pow2Sum(20, 20);
    Arith.Pow2Sum(40, 2);
    assert Arith.Pow2(2) == 4;
  }

  lemma SmallQuotient(f: nat, time: nat)
    requires f < 1_000_000 && time <= WORD32 * 1000
    ensures f * time / NANOSECONDS % WORD64 == 0 <==> f * time < NANOSECONDS
  {
    Arith.MulMonotone(f, 1_000_000, time);
    NoQuotient(f * time);
  }

  lemma NoQuotient(product: nat)
    requires product < WORD64
    ensures product / NANOSECONDS % WORD64 == 0 <==> product < NANOSECONDS
  {
  }

  /** Below 1 MHz a counter that stands still adds nothing, however many passes. */
  lemma {:induction false} SlowCounterHangs(c: Counter, x: nat, n: nat)
    requires c.Valid() && 0 < c.frequency < 1_000_000 && c.Holds(x)
    ensures Elapsed(c, Still(x), n) == 0
  {
    hide Elapsed;
    ElapsedStep(c, Still(x), if n > 0 then n - 1 else 0);
    if n > 0 {
      SlowCounterHangs(c, x, n - 1);
      StandsStill(c, x, n - 1);
    }
  }

  lemma StandsStill(c: Counter, x: nat, k: nat)
    requires c.Valid() && 0 < c.frequency < 1_000_000 && c.Holds(x)
    ensures PassTicks(c, Still(x), k) == 0
  {
    MicrosecondTicks(c.frequency);
  }

  /** In each of n passes the bit was not as wanted, and before each but the first
      there was time left. */
  ghost predicate Waited(c: Counter, bit: nat -> bool, reading: nat -> nat, wanted: bool, n: nat, ticks: nat) {
    && (forall k: nat :: k < n ==> bit(k) != wanted)
    && (forall k: nat :: 0 < k < n ==> Elapsed(c, reading, k) < ticks)
  }

  lemma SteadyWait(c: Counter, bit: nat -> bool, reading: nat -> nat, wanted: bool, n: nat, ticks: nat)
    requires c.Valid() && Steady(c, reading, n) && Waited(c, bit, reading, wanted, n, ticks)
    ensures Elapsed(c, reading, n) == c.Position(reading(n)) - c.Position(reading(0))
    ensures forall k: nat :: 0 < k < n ==> c.Position(reading(k)) - c.Position(reading(0)) < ticks
  {
    hide Elapsed;
    SteadyElapsed(c, reading, n);
    forall k: nat | 0 < k < n ensures c.Position(reading(k)) - c.Position(reading(0)) < ticks {
      SteadyElapsed(c, reading, k);
    }
  }

  lemma WaitedMore(c: Counter, bit: nat -> bool, reading: nat -> nat, wanted: bool, n: nat, ticks: nat)
    ensures Waited(c, bit, reading, wanted, 0, ticks)
    ensures Waited(c, bit, reading, wanted, n, ticks) && bit(n) != wanted && (n > 0 ==> Elapsed(c, reading, n) < ticks)
            ==> Waited(c, bit, reading, wanted, n + 1, ticks)
  {
  }

  /** Timeout * XHC_1_MILLISECOND wraps at 32 bits before it becomes nanoseconds. */
  function TimeoutTime(timeout: nat): nat {
    timeout * 1000 % WORD32 * 1000
  }

  /** The milliseconds asked for are the nanoseconds waited exactly up to 4294967;
      one more is waited as 0.704 ms. */
  lemma TimeoutKept(timeout: nat)
    requires timeout < WORD32
    ensures TimeoutTime(timeout) == timeout * 1_000_000 <==> timeout <= 4294967
    ensures TimeoutTime(4294968) == 704_000
  {
  }

  /** So a wait that ends below the bound has counted the ticks of the time asked for,
      and one millisecond above it may end after 16896 ticks of a 24 MHz counter. */
  lemma WaitKept(c: Counter, timeout: nat)
    requires timeout < WORD32
    ensures timeout <= 4294967 ==> Convertible(c.frequency, timeout * 1_000_000)
                                   && TimeoutTicks(c, timeout) == Ticks(c.frequency, timeout * 1_000_000)
    ensures c.frequency == 24_000_000 ==> TimeoutTicks(c, 4294968) == 16896
  {
    TimeoutKept(timeout);
    hide TimeoutTime, Ticks, Convertible, TimeoutTicks;
    TimeoutTicksAre(c, timeout);
    TimeoutTicksAre(c, 4294968);
    ShortWait(24_000_000, 704_000);
  }

  lemma ShortWait(frequency: nat, time: nat)
    requires frequency == 24_000_000 && time == 704_000
    ensures Convertible(frequency, time) && Ticks(frequency, time) == 16896
  {
    hide HighBitSet64, Arith.Pow2, Ticks, Convertible;
    SmallPowers();
    HighBitAtLeast(frequency, 25);
    HighBitAtLeast(time, 20);
    assert frequency % NANOSECONDS == frequency;
    assert Shift(frequency, time) == 0;
    ExactUnlessShifted(frequency, time);
    assert frequency * time == 16_896_000_000_000;
  }

  lemma SmallPowers()
    ensures Arith.Pow2(20) == 0x10_0000 && Arith.Pow2(25) == 0x200_0000
  {
    assert Arith.Pow2(5) == 32;
    Arith.Pow2Sum(5, 5);
    Arith.Pow2Sum(10, 10);
    Arith.Pow2Sum(20, 5);
  }

  ghost function TimeoutTicks(c: Counter, timeout: nat): nat
    requires timeout < WORD32
  {
    WhenConvertible(c.frequency, TimeoutTime(timeout));
    Ticks(c.frequency, TimeoutTime(timeout))
  }

  lemma TimeoutTicksAre(c: Counter, timeout: nat)
    requires timeout < WORD32
    ensures TimeoutTime(timeout) < WORD64 && Convertible(c.frequency, TimeoutTime(timeout))
    ensures TimeoutTicks(c, timeout) == Ticks(c.frequency, TimeoutTime(timeout))
  {
    WhenConvertible(c.frequency, TimeoutTime(timeout));
  }

  /** What one pass adds: the ticks counted, or a microsecond's when there are none. */
  ghost function PassTicks(c: Counter, reading: nat -> nat, k: nat): (r: int)
  {
    var p, q := reading(k), reading(k + 1);
    var delta := c.Distance(p, q) - if c.Wrapped(p, q) then 1 else 0;
    WhenConvertible(c.frequency, MICROSECOND);
    if delta == 0 then Ticks(c.frequency, MICROSECOND) else delta
  }

  /** The ticks summed in n passes; the sum is a UINT64. */
  ghost function Elapsed(c: Counter, reading: nat -> nat, n: nat): int {
    if n == 0 then 0 else (Elapsed(c, reading, n - 1) + PassTicks(c, reading, n - 1)) % WORD64
  }

  // ---- What the sum means ------------------------------------------------------------

  /** The steps the counter made over n passes, each the fewest there can be. */
  function Ran(c: Counter, reading: nat -> nat, n: nat): int {
    if n == 0 then 0 else Ran(c, reading, n - 1) + c.Distance(reading(n - 1), reading(n))
  }

  /** How often it started again. */
  function Restarts(c: Counter, reading: nat -> nat, n: nat): int {
    if n == 0 then 0
    else Restarts(c, reading, n - 1) + if c.Wrapped(reading(n - 1), reading(n)) then 1 else 0
  }

  /** In how many passes nothing was counted: the counter stood, or its one step was
      the restart. */
  function Idles(c: Counter, reading: nat -> nat, n: nat): int {
    if n == 0 then 0
    else
      var p, q := reading(n - 1), reading(n);
      Idles(c, reading, n - 1) + if q == p || (c.Wrapped(p, q) && c.Distance(p, q) == 1) then 1 else 0
  }

  /** The steps are the way from the first reading to the last, and once round for
      every restart. */
  lemma {:induction false} RanIsPosition(c: Counter, reading: nat -> nat, n: nat)
    ensures Ran(c, reading, n)
            == c.Position(reading(n)) - c.Position(reading(0)) + Restarts(c, reading, n) * c.Period()
  {
    if n > 0 {
      RanIsPosition(c, reading, n - 1);
      var r, once := Restarts(c, reading, n - 1), if c.Wrapped(reading(n - 1), reading(n)) then 1 else 0;
      assert (r + once) * c.Period() == r * c.Period() + once * c.Period();
    }
  }

  /** The wait counts those steps, less one for each restart, and a microsecond for
      each pass in which it counted nothing. */
  lemma {:induction false} ElapsedIs(c: Counter, reading: nat -> nat, n: nat)
    requires c.Valid() && forall k: nat :: k <= n ==> c.Holds(reading(k))
    ensures Convertible(c.frequency, MICROSECOND)
    ensures Elapsed(c, reading, n) == (Ran(c, reading, n) - Restarts(c, reading, n)
                                       + Idles(c, reading, n) * Ticks(c.frequency, MICROSECOND)) % WORD64
  {
    MicrosecondTicks(c.frequency);
    CountedIs(c, reading, n, Ticks(c.frequency, MICROSECOND));
  }

  /** The sum with what a microsecond counts as a number of its own. */
  lemma {:induction false} CountedIs(c: Counter, reading: nat -> nat, n: nat, micro: nat)
    requires c.Valid() && Convertible(c.frequency, MICROSECOND) && micro == Ticks(c.frequency, MICROSECOND)
    requires forall k: nat :: k <= n ==> c.Holds(reading(k))
    ensures Elapsed(c, reading, n)
            == (Ran(c, reading, n) - Restarts(c, reading, n) + Idles(c, reading, n) * micro) % WORD64
  {
    hide Ticks, Convertible, Elapsed, PassTicks, Ran, Restarts, Idles;
    if n == 0 {
      SumsStart(c, reading);
      ElapsedStep(c, reading, 0);
    } else {
      CountedIs(c, reading, n - 1, micro);
      assert c.Holds(reading(n - 1)) && c.Holds(reading(n));
      SumsStep(c, reading, n - 1);
      PassIs(c, reading, n - 1);
      ElapsedStep(c, reading, n - 1);
      CountOne(Elapsed(c, reading, n - 1), Elapsed(c, reading, n), PassTicks(c, reading, n - 1),
               Ran(c, reading, n - 1) - Restarts(c, reading, n - 1),
               Ran(c, reading, n) - Restarts(c, reading, n),
               Idles(c, reading, n - 1), Idles(c, reading, n), micro);
    }
  }

  lemma CountOne(e: int, f: int, pass: int, steps: int, steps': int, idles: int, idles': int, micro: int)
    requires e == (steps + idles * micro) % WORD64 && f == (e + pass) % WORD64
    requires idles' == idles || idles' == idles + 1
    requires pass == steps' - steps + if idles' > idles then micro else 0
    ensures f == (steps' + idles' * micro) % WORD64
  {
    MoreIdle(idles, idles' - idles, micro);
    SumWraps(steps + idles * micro, pass);
  }

  lemma SumsStart(c: Counter, reading: nat -> nat)
    ensures Ran(c, reading, 0) == Restarts(c, reading, 0) == Idles(c, reading, 0) == 0
  {
  }

  lemma MoreIdle(idles: int, once: int, u: int)
    requires once == 0 || once == 1
    ensures (idles + once) * u == idles * u + if once == 1 then u else 0
  {
  }

  lemma SumsStep(c: Counter, reading: nat -> nat, k: nat)
    ensures Ran(c, reading, k + 1) == Ran(c, reading, k) + c.Distance(reading(k), reading(k + 1))
    ensures Restarts(c, reading, k + 1)
            == Restarts(c, reading, k) + if c.Wrapped(reading(k), reading(k + 1)) then 1 else 0
    ensures 0 <= Idles(c, reading, k + 1) - Idles(c, reading, k) <= 1
  {
  }

  lemma PassIs(c: Counter, reading: nat -> nat, k: nat)
    requires c.Valid() && c.Holds(reading(k)) && c.Holds(reading(k + 1)) && Convertible(c.frequency, MICROSECOND)
    ensures PassTicks(c, reading, k)
            == c.Distance(reading(k), reading(k + 1)) - (if c.Wrapped(reading(k), reading(k + 1)) then 1 else 0)
               + if Idles(c, reading, k + 1) > Idles(c, reading, k) then Ticks(c.frequency, MICROSECOND) else 0
  {
    hide Ticks, Convertible;
  }

  lemma SumWraps(a: int, b: int)
    ensures (a % WORD64 + b) % WORD64 == (a + b) % WORD64
  {
  }

  predicate Advances(c: Counter, reading: nat -> nat, k: nat) {
    c.Position(reading(k)) < c.Position(reading(k + 1))
  }

  /** The counter moved in every pass and did not start again. */
  ghost predicate Steady(c: Counter, reading: nat -> nat, n: nat) {
    && (forall k: nat :: k <= n ==> c.Holds(reading(k)))
    && (forall k: nat :: k < n ==> Advances(c, reading, k))
  }

  /** Then the wait counts exactly how far it got. */
  lemma {:induction false} SteadyElapsed(c: Counter, reading: nat -> nat, n: nat)
    requires c.Valid() && Steady(c, reading, n)
    ensures Elapsed(c, reading, n) == c.Position(reading(n)) - c.Position(reading(0))
  {
    if n > 0 {
      SteadyAscends(c, reading, n);
      assert Advances(c, reading, n - 1);
      SteadyPass(c, reading, n - 1);
      hide PassTicks, Elapsed, Counter.Position, Counter.Holds, Counter.Valid, Advances;
      SteadyElapsed(c, reading, n - 1);
      ElapsedStep(c, reading, n - 1);
      NoWrap(c.Position(reading(n)) - c.Position(reading(0)));
    }
  }

  lemma SteadyPass(c: Counter, reading: nat -> nat, k: nat)
    requires c.Valid() && Advances(c, reading, k)
    ensures PassTicks(c, reading, k) == c.Position(reading(k + 1)) - c.Position(reading(k))
  {
  }

  lemma {:induction false} SteadyAscends(c: Counter, reading: nat -> nat, n: nat)
    requires c.Valid() && Steady(c, reading, n)
    ensures 0 <= c.Position(reading(n)) - c.Position(reading(0)) < WORD64
  {
    if n > 0 {
      SteadyAscends(c, reading, n - 1);
      assert Advances(c, reading, n - 1) && c.Holds(reading(n)) && c.Holds(reading(0));
    }
  }

  lemma ModSum(a: nat, b: nat)
    ensures Arith.Mod(Arith.Mod(a, WORD64) + b, WORD64) == Arith.Mod(a + b, WORD64)
  {
  }
}

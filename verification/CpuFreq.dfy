/** The CPU frequency driver (g12b-cpufreq): cluster mux, PLL, voltage rail, and
    the transition between operating points with its retries and its rollback. */
module CpuFreq {
  import Arith
  import opened Wrappers

  const PLL_M_MIN := 128
  const PLL_M_MAX := 250
  const XTAL_KHZ := 24000
  const VMIN_UV := 690000
  const VMAX_UV := 1050000
  const LOCK_POLLS := 5000
  const TRIES := 3

  datatype Error = Ok | Einval | Eio

  datatype Opp = Opp(khz: nat, uv: nat)

  /** What tells one cluster from the other. dynKhz 0: the dyn path is unusable. */
  datatype Tuning = Tuning(opps: seq<Opp>, dynKhz: nat, pwmTotal: nat)

  const A73 := Tuning([
    Opp(1000000, 731000), Opp(1200000, 751000), Opp(1398000, 771000), Opp(1608000, 781000),
    Opp(1704000, 791000), Opp(1800000, 831000), Opp(1908000, 861000), Opp(2016000, 911000),
    Opp(2208000, 1011000)], 1000000, 833)

  const A53 := Tuning([
    Opp(1008000, 761000), Opp(1200000, 781000), Opp(1398000, 811000), Opp(1608000, 901000),
    Opp(1704000, 951000), Opp(1800000, 1001000)], 0, 208)

  // ---- PLL parameters --------------------------------------------------------------

  datatype Params = Params(m: nat, od: nat)

  /** These fields make exactly this rate. */
  predicate Makes(p: Params, khz: nat) {
    1 <= p.od <= 2 && 128 <= p.m <= 250 && khz * Arith.Pow2(p.od) == 24000 * p.m
  }

  ghost predicate Synthesised(khz: nat) {
    exists p :: Makes(p, khz)
  }

  method PllParams(khz: nat) returns (p: Option<Params>)
    ensures p.Some? ==> Makes(p.value, khz)
    ensures p.None? ==> forall q :: !Makes(q, khz)
  {
    for od := 1 to 3
      invariant forall q: Params :: q.od < od ==> !Makes(q, khz)
    {
      var step := Step(od);
      var m := khz / step;
      OnlyCandidate(khz, od);
      if PLL_M_MIN <= m <= PLL_M_MAX && m * step == khz {
        return Some(Params(m, od));
      }
    }
    return None;
  }

  function Step(od: nat): (r: nat)
    requires 1 <= od <= 2
    ensures r > 0
  {
    assert Arith.Pow2(1) == 2 && Arith.Pow2(2) == 4;
    XTAL_KHZ / Arith.Pow2(od)
  }

  lemma OnlyCandidate(khz: nat, od: nat)
    requires 1 <= od <= 2
    ensures forall q: Params :: q.od == od && Makes(q, khz) ==> q.m == khz / Step(od) && q.m * Step(od) == khz
    ensures PLL_M_MIN <= khz / Step(od) <= PLL_M_MAX && khz / Step(od) * Step(od) == khz
            ==> Makes(Params(khz / Step(od), od), khz)
  {
    assert Arith.Pow2(1) == 2 && Arith.Pow2(2) == 4;
    assert Step(1) == 12000 && Step(2) == 6000;
    if od == 1 {
      assert forall q: Params :: q.od == od && Makes(q, khz) ==> khz == 12000 * q.m;
    } else {
      assert forall q: Params :: q.od == od && Makes(q, khz) ==> khz == 6000 * q.m;
    }
  }

  lemma ParamsUnique(p: Params, q: Params, khz: nat)
    requires Makes(p, khz) && Makes(q, khz)
    ensures p == q
  {
  }

  /** The PLL control register: its fields, and the lock bit the hardware drives. */
  datatype Pll = Pll(m: nat, n: nat, od: nat, en: bool, rst: bool, locked: bool)
  {
    /** The rate the fields ask for, in whole kHz. */
    function Rate(): nat {
      if n == 0 then 0 else Arith.Div(Arith.Div(XTAL_KHZ * m, n), Arith.Pow2(od))
    }
  }

  /** The control writes of an attempt: reset first, fields only while off, reset
      released last. */
  function ControlWrites(v: Pll, p: Params): seq<Pll> {
    var w := v.(rst := true, locked := false);
    [w, w.(en := false), Pll(p.m, 1, p.od, false, true, false), Pll(p.m, 1, p.od, true, true, false),
     Pll(p.m, 1, p.od, true, false, false)]
  }

  /** Between two writes the fields change only while the PLL is off and in reset, and
      no two of reset, enable and the fields change at once. */
  lemma OneThingAtATime(v: Pll, p: Params, k: nat)
    requires 0 < k < |ControlWrites(v, p)|
    ensures var a, b := ControlWrites(v, p)[k - 1], ControlWrites(v, p)[k];
      && ((b.m, b.n, b.od) != (a.m, a.n, a.od) ==> !a.en && a.rst && b.en == a.en && b.rst == a.rst)
      && (b.en == a.en || b.rst == a.rst) && (!b.rst ==> b.en && k == 4)
  {
  }

  function Programmed(p: Params): Pll {
    Pll(p.m, 1, p.od, true, false, true)
  }

  lemma ProgrammedRate(p: Params, khz: nat)
    requires Makes(p, khz)
    ensures Programmed(p).Rate() == khz
  {
  }

  // ---- The rail ----------------------------------------------------------------------

  function Clamped(uv: nat): nat {
    if uv < VMIN_UV then VMIN_UV else if uv > VMAX_UV then VMAX_UV else uv
  }

  /** High-time counts for a request: the rail falls from VMAX by
      (VMAX - VMIN) * hi / total, rounded to the closest count. */
  function HighCount(total: nat, uv: nat): (hi: int)
  {
    ((VMAX_UV - Clamped(uv)) * total + (VMAX_UV - VMIN_UV) / 2) / (VMAX_UV - VMIN_UV)
  }

  /** The realised voltage is within half a count of the clamped request, and the
      high time never exceeds the period. */
  lemma HighCountIsClosest(total: nat, uv: nat)
    ensures 0 <= HighCount(total, uv) <= total
    ensures -(VMAX_UV - VMIN_UV) <= 2 * (HighCount(total, uv) * (VMAX_UV - VMIN_UV) - (VMAX_UV - Clamped(uv)) * total)
            <= VMAX_UV - VMIN_UV
  {
    var drop := (VMAX_UV - Clamped(uv)) * total;
    Arith.MulMonotone(0, VMAX_UV - Clamped(uv), total);
    Arith.MulMonotone(VMAX_UV - Clamped(uv), VMAX_UV - VMIN_UV, total);
  }

  /** High and low counts of the period, and the request they are for. */
  datatype Rail = Rail(hi: int, lo: int, requested: nat)

  function RailFor(total: nat, uv: nat): (r: Rail)
    ensures r.requested == uv
  {
    Rail(HighCount(total, uv), total - HighCount(total, uv), uv)
  }

  /** The counts share the period, and put the rail within half a count of the request,
      or at the end of its range that the request lies beyond. */
  ghost predicate Realises(total: nat, rail: Rail) {
    && 0 <= rail.hi && 0 <= rail.lo && rail.hi + rail.lo == total
    && (690000 <= rail.requested <= 1050000 ==>
          -360000 <= 2 * (rail.hi * 360000 - (1050000 - rail.requested) * total) <= 360000)
    && (rail.requested < 690000 ==> rail.hi == total)
    && (rail.requested > 1050000 ==> rail.hi == 0)
  }

  lemma RailRealises(total: nat, uv: nat)
    ensures Realises(total, RailFor(total, uv))
  {
    HighCountIsClosest(total, uv);
    if uv < VMIN_UV {
      assert Clamped(uv) == 690000;
      ClosestOfAll(total);
    } else if uv > VMAX_UV {
      assert Clamped(uv) == 1050000;
    }
  }

  lemma ClosestOfAll(total: nat)
    ensures (360000 * total + 180000) / 360000 == total
  {
  }

  /** No request of either table is clamped. */
  lemma TablesInRange()
    ensures forall i :: 0 <= i < |A73.opps| ==> VMIN_UV <= A73.opps[i].uv <= VMAX_UV
    ensures forall i :: 0 <= i < |A53.opps| ==> VMIN_UV <= A53.opps[i].uv <= VMAX_UV
  {
  }

  lemma HighCountMonotone(total: nat, uv: nat, higher: nat)
    requires uv <= higher
    ensures HighCount(total, higher) <= HighCount(total, uv)
  {
    Arith.MulMonotone(VMAX_UV - Clamped(higher), VMAX_UV - Clamped(uv), total);
  }

  // ---- Operating points -----------------------------------------------------------

  ghost predicate InTable(t: Tuning, khz: nat) {
    exists i :: 0 <= i < |t.opps| && t.opps[i].khz == khz
  }

  /** Some operating point at least as fast as `khz` is granted no more than `uv`. */
  ghost predicate Covers(t: Tuning, uv: nat, khz: nat) {
    exists i :: 0 <= i < |t.opps| && khz <= t.opps[i].khz && t.opps[i].uv <= uv
  }

  /** Faster points need more volts. */
  ghost predicate Ascending(opps: seq<Opp>) {
    forall i, j :: 0 <= i < j < |opps| ==> opps[i].khz < opps[j].khz && opps[i].uv < opps[j].uv
  }

  /** Every point is made exactly by the PLL, except the dyn path's. */
  ghost predicate Exact(t: Tuning) {
    forall i :: 0 <= i < |t.opps| ==>
      t.opps[i].khz > XTAL_KHZ && (Synthesised(t.opps[i].khz) <==> t.opps[i].khz != t.dynKhz)
  }

  /** The dyn path, where there is one, is the slowest point. */
  ghost predicate Sound(t: Tuning) {
    |t.opps| > 0 && Ascending(t.opps) && Exact(t) && (t.dynKhz == 0 || t.dynKhz == t.opps[0].khz)
  }

  lemma TablesSound()
    ensures Sound(A73)
    ensures Sound(A53)
  {
    hide Ascending, Synthesised;
    BigAscending();
    LittleAscending();
    forall i | 0 <= i < |A73.opps| ensures Synthesised(A73.opps[i].khz) <==> i > 0 {
      BigSynthesised(i);
    }
    forall i | 0 <= i < |A53.opps| ensures Synthesised(A53.opps[i].khz) {
      LittleSynthesised(i);
    }
  }

  lemma BigAscending()
    ensures Ascending(A73.opps)
  {
  }

  lemma LittleAscending()
    ensures Ascending(A53.opps)
  {
  }

  lemma BigSynthesised(i: nat)
    requires i < |A73.opps|
    ensures Synthesised(A73.opps[i].khz) <==> i > 0
  {
    assert Arith.Pow2(1) == 2 && Arith.Pow2(2) == 4;
    if i > 0 {
      assert Makes([Params(200, 2), Params(233, 2), Params(134, 1), Params(142, 1), Params(150, 1), Params(159, 1),
                    Params(168, 1), Params(184, 1)][i - 1], A73.opps[i].khz);
    }
  }

  lemma LittleSynthesised(i: nat)
    requires i < |A53.opps|
    ensures Synthesised(A53.opps[i].khz)
  {
    assert Arith.Pow2(1) == 2 && Arith.Pow2(2) == 4;
    assert Makes([Params(168, 2), Params(200, 2), Params(233, 2), Params(134, 1), Params(142, 1), Params(150, 1)][i],
                 A53.opps[i].khz);
  }

  // ---- The cluster --------------------------------------------------------------------

  /** What the hardware and the driver's record say at one moment. */
  datatype View = View(mux: bool, pll: Pll, pllKhz: nat, rail: Rail)
  {
    /** The PLL is locked at the recorded rate. */
    predicate Locked() {
      pll.locked && pll.Rate() == pllKhz
    }

    function Running(t: Tuning): nat {
      if mux then pll.Rate() else if t.dynKhz != 0 then t.dynKhz else XTAL_KHZ
    }

    /** The cluster has a steady clock, and the rail realises a request that carries
        its rate. */
    ghost predicate Safe(t: Tuning) {
      (mux ==> pll.locked) && Realises(t.pwmTotal, rail) && Covers(t, rail.requested, Running(t))
    }
  }

  datatype Event = PllWrite | MuxWrite | RailWrite
  datatype Moment = Moment(event: Event, now: View)

  /** The PLL is written only while the cluster does not run from it, and the
      cluster runs from it only when it is locked at the recorded rate. */
  predicate Disciplined(x: Moment) {
    (x.event == PllWrite ==> !x.now.mux) && (x.now.mux ==> x.now.Locked())
  }

  /** `after` continues `before` with moments off the PLL at the same request. */
  ghost predicate Parked(before: seq<Moment>, after: seq<Moment>, rail: Rail) {
    && before <= after
    && forall i :: |before| <= i < |after| ==> !after[i].now.mux && after[i].now.rail == rail
  }

  /** `after` continues `before` at one request and off the PLL, until a last moment
      that is `now` if the cluster ends on the PLL. */
  ghost predicate Ends(before: seq<Moment>, after: seq<Moment>, now: View) {
    && before <= after
    && (now.mux ==> before < after && after[|after| - 1].now == now)
    && (forall i :: |before| <= i < |after| ==> after[i].now.rail == now.rail)
    && (forall i :: |before| <= i < |after| && after[i].now.mux ==> now.mux && i == |after| - 1)
  }

  ghost predicate SafeFrom(t: Tuning, n: nat, trace: seq<Moment>) {
    forall i :: n <= i < |trace| ==> trace[i].now.Safe(t)
  }

  /** The volts of any point carry the cluster off the PLL. */
  lemma AnyPointCarriesDyn(t: Tuning, i: nat, v: View)
    requires Sound(t) && i < |t.opps| && t.opps[i].uv <= v.rail.requested && !v.mux && Realises(t.pwmTotal, v.rail)
    ensures v.Safe(t)
  {
    hide Realises;
  }

  lemma EndsSafe(t: Tuning, i: nat, before: seq<Moment>, after: seq<Moment>, now: View)
    requires Sound(t) && i < |t.opps| && t.opps[i].uv <= now.rail.requested && Realises(t.pwmTotal, now.rail)
    requires Ends(before, after, now) && (now.mux ==> now.pll.locked && now.pll.Rate() <= t.opps[i].khz)
    ensures SafeFrom(t, |before|, after)
  {
    hide Realises;
  }

  /** A transition to `khz` that, if the PLL will not lock, puts the cluster on the
      PLL's last rate although it was not running at it: the cluster is on the dyn
      path and the PLL holds the rate of some other point. */
  predicate Hazard(t: Tuning, mux: bool, pllKhz: nat, khz: nat) {
    !mux && pllKhz !in {0, khz, t.dynKhz} && khz > t.dynKhz
  }

  /** The PLL refuses the new rate three times and then takes the old one. */
  predicate OnlyOldRateLocks(settle: seq<nat>)
    requires |settle| == TRIES + 1
  {
    !SomeTryLocks(settle) && Locks(settle, TRIES)
  }

  /** Whether try k locks within the polls spent on it. */
  predicate Locks(settle: seq<nat>, k: nat)
    requires k < |settle|
  {
    settle[k] < 5000
  }

  predicate SomeTryLocks(settle: seq<nat>)
    requires |settle| == TRIES + 1
  {
    Locks(settle, 0) || Locks(settle, 1) || Locks(settle, 2)
  }

  /** Where a request for `khz` in state `v` leaves the clock: on the dyn path, on
      the PLL at `khz`, or - when the PLL will not lock - on the PLL at the rate it
      was last programmed to, or off it with nothing recorded. */
  ghost predicate FreqSet(t: Tuning, v: View, khz: nat, settle: seq<nat>, r: Error, w: View)
    requires |settle| == TRIES + 1
  {
    && w.rail == v.rail
    && (r == Ok <==> khz <= t.dynKhz || v.pllKhz == khz || SomeTryLocks(settle))
    && (r == Ok && khz <= t.dynKhz ==> w == v.(mux := false))
    && (r == Ok && khz > t.dynKhz ==> w.mux && w.pllKhz == khz && w.Locked())
    && (r != Ok ==> (w.mux <==> v.pllKhz != 0 && Locks(settle, TRIES) && Synthesised(v.pllKhz)))
    && (r != Ok ==> w.pllKhz == (if w.mux then v.pllKhz else 0) && (w.mux ==> w.Locked()))
  }

  /** Driver, PLL and rail agree with the rate `cur` the policy holds. */
  ghost predicate InStep(t: Tuning, v: View, cur: nat) {
    && Realises(t.pwmTotal, v.rail)
    && (exists i :: 0 <= i < |t.opps| && t.opps[i].khz == cur && t.opps[i].uv <= v.rail.requested)
    && (v.pllKhz != 0 || v.mux ==> v.Locked())
    && (v.pllKhz != 0 ==> InTable(t, v.pllKhz))
    && (v.mux ==> v.pllKhz == cur)
    && (!v.mux && v.pllKhz != 0 ==> cur == t.dynKhz)
  }

  lemma RaiseDone(t: Tuning, cur: nat, index: nat, v: View, settle: seq<nat>, w: View,
                  before: seq<Moment>, raised: seq<Moment>, after: seq<Moment>)
    requires Sound(t) && InStep(t, v, cur) && index < |t.opps| && t.opps[index].khz > cur && |settle| == TRIES + 1
    requires raised == before + [Moment(RailWrite, v.(rail := RailFor(t.pwmTotal, t.opps[index].uv)))]
    requires FreqSet(t, v.(rail := RailFor(t.pwmTotal, t.opps[index].uv)), t.opps[index].khz, settle, Ok, w) && Ends(raised, after, w)
    ensures SafeFrom(t, |before|, after) && !(Hazard(t, v.mux, v.pllKhz, t.opps[index].khz) && OnlyOldRateLocks(settle))
    ensures InStep(t, w, t.opps[index].khz)
  {
    hide Realises, RailFor, HighCount;
    RailRealises(t.pwmTotal, t.opps[index].uv);
  }

  lemma RaiseFailed(t: Tuning, cur: nat, c: nat, index: nat, v: View, settle: seq<nat>, w: View, before: seq<Moment>,
                    raised: seq<Moment>, after: seq<Moment>, last: seq<Moment>)
    requires Sound(t) && InStep(t, v, cur) && index < |t.opps| && t.opps[index].khz > cur && |settle| == TRIES + 1
    requires c < |t.opps| && forall i :: 0 <= i < |t.opps| && t.opps[i].khz == cur ==> i == c
    requires raised == before + [Moment(RailWrite, v.(rail := RailFor(t.pwmTotal, t.opps[index].uv)))]
    requires FreqSet(t, v.(rail := RailFor(t.pwmTotal, t.opps[index].uv)), t.opps[index].khz, settle, Eio, w) && Ends(raised, after, w)
    requires last == after + [Moment(RailWrite, w.(rail := RailFor(t.pwmTotal, t.opps[c].uv)))]
    ensures SafeFrom(t, |before|, last) <==> !(Hazard(t, v.mux, v.pllKhz, t.opps[index].khz) && OnlyOldRateLocks(settle))
    ensures SafeFrom(t, |before|, last) ==> InStep(t, w.(rail := RailFor(t.pwmTotal, t.opps[c].uv)), cur)
  {
    hide Realises, RailFor, HighCount;
    RailRealises(t.pwmTotal, t.opps[index].uv);
    RailRealises(t.pwmTotal, t.opps[c].uv);
    var x := w.(rail := RailFor(t.pwmTotal, t.opps[c].uv));
    assert t.opps[c].khz == cur;
    assert last[|last| - 1].now == x;
    if Hazard(t, v.mux, v.pllKhz, t.opps[index].khz) && OnlyOldRateLocks(settle) {
      assert !x.Safe(t);
    } else {
      assert w.mux ==> w.pllKhz == cur;
      EndsSafe(t, index, raised, after, w);
      if !v.mux {
        AnyPointCarriesDyn(t, index, v.(rail := RailFor(t.pwmTotal, t.opps[index].uv)));
      }
      if !x.mux {
        AnyPointCarriesDyn(t, c, x);
      }
      assert after[|before|] == raised[|before|];
    }
  }

  lemma Lowered(t: Tuning, cur: nat, index: nat, v: View, settle: seq<nat>, r: Error, w: View,
                before: seq<Moment>, after: seq<Moment>, x: View, last: seq<Moment>)
    requires Sound(t) && InStep(t, v, cur) && index < |t.opps| && t.opps[index].khz <= cur && |settle| == TRIES + 1
    requires FreqSet(t, v, t.opps[index].khz, settle, r, w) && Ends(before, after, w)
    requires if r == Ok then x == w.(rail := RailFor(t.pwmTotal, t.opps[index].uv)) && last == after + [Moment(RailWrite, x)]
             else x == w && last == after
    ensures SafeFrom(t, |before|, last) && !Hazard(t, v.mux, v.pllKhz, t.opps[index].khz)
    ensures InStep(t, x, if r == Ok then t.opps[index].khz else cur)
  {
    hide Realises, RailFor, HighCount;
    RailRealises(t.pwmTotal, t.opps[index].uv);
  }

  // ---- Runs ------------------------------------------------------------------------

  datatype Request = Request(index: nat, settle: seq<nat>)

  predicate Fits(t: Tuning, q: Request) {
    q.index < |t.opps| && |q.settle| == TRIES + 1
  }

  /** All that decides a run: where the mux is, the recorded PLL rate, and the rate
      the policy holds. */
  datatype Clock = Clock(mux: bool, pllKhz: nat, cur: nat)

  function Next(t: Tuning, c: Clock, q: Request): Clock
    requires Fits(t, q)
  {
    var khz := t.opps[q.index].khz;
    if khz <= t.dynKhz then Clock(false, c.pllKhz, khz)
    else if c.pllKhz == khz || SomeTryLocks(q.settle) then Clock(true, khz, khz)
    else if c.pllKhz !in {0, t.dynKhz} && Locks(q.settle, TRIES) then c.(mux := true)
    else Clock(false, 0, c.cur)
  }

  /** The request for which the rollback would run the cluster above its volts. */
  predicate Strikes(t: Tuning, c: Clock, q: Request)
    requires Fits(t, q)
  {
    Hazard(t, c.mux, c.pllKhz, t.opps[q.index].khz) && OnlyOldRateLocks(q.settle)
  }

  predicate SomeStrike(t: Tuning, c: Clock, qs: seq<Request>)
    requires forall q :: q in qs ==> Fits(t, q)
    decreases |qs|
  {
    |qs| > 0 && (Strikes(t, c, qs[0]) || SomeStrike(t, Next(t, c, qs[0]), qs[1..]))
  }

  ghost predicate Recorded(t: Tuning, c: Clock) {
    t.dynKhz == 0 && !c.mux ==> c.pllKhz == 0
  }

  /** A cluster without a dyn path is never struck. */
  lemma {:induction false} NoDynNoStrike(t: Tuning, c: Clock, qs: seq<Request>)
    requires forall q :: q in qs ==> Fits(t, q)
    requires Sound(t) && t.dynKhz == 0 && Recorded(t, c)
    ensures !SomeStrike(t, c, qs)
    decreases |qs|
  {
    if |qs| > 0 {
      NoDynNoStrike(t, Next(t, c, qs[0]), qs[1..]);
    }
  }

  /** Nor is any cluster whose PLL never refuses a new rate three times and then
      takes the old one. */
  lemma {:induction false} RefusingBothIsHarmless(t: Tuning, c: Clock, qs: seq<Request>)
    requires forall q :: q in qs ==> Fits(t, q)
    requires forall q :: q in qs ==> Fits(t, q) && !OnlyOldRateLocks(q.settle)
    ensures !SomeStrike(t, c, qs)
    decreases |qs|
  {
    if |qs| > 0 {
      RefusingBothIsHarmless(t, Next(t, c, qs[0]), qs[1..]);
    }
  }

  /** The A73 at 2208 MHz goes to 1000 MHz by the dyn path and is then asked for
      1200 MHz, which will not lock: it is put back to 2208 MHz at 1000 MHz volts. */
  lemma StruckA73()
    ensures var settle := [LOCK_POLLS, LOCK_POLLS, LOCK_POLLS, 0];
      SomeStrike(A73, Clock(true, 2208000, 2208000), [Request(0, settle), Request(1, settle)])
  {
  }

  class Cluster {
    const tuning: Tuning
    var mux: bool
    var pll: Pll
    var hi: nat
    var lo: nat
    var pllKhz: nat
    ghost var requested: nat
    ghost var trace: seq<Moment>

    ghost function Now(): View
      reads this
    {
      View(mux, pll, pllKhz, Rail(hi, lo, requested))
    }

    ghost predicate Valid()
      reads this
    {
      && Sound(tuning)
      && (pllKhz != 0 || mux ==> Now().Locked())
      && (forall x :: x in trace ==> Disciplined(x))
    }

    /** Valid, but for the record of what the PLL holds. */
    ghost predicate Orderly()
      reads this
    {
      Sound(tuning) && forall x :: x in trace ==> Disciplined(x)
    }

    ghost method Note(event: Event)
      modifies this`trace
      ensures trace == old(trace) + [Moment(event, Now())]
    {
      trace := trace + [Moment(event, Now())];
    }

    method SetVoltage(uv: nat)
      modifies this`hi, this`lo, this`requested, this`trace
      ensures Realises(tuning.pwmTotal, Now().rail) && requested == uv
      ensures Now().rail == RailFor(tuning.pwmTotal, uv)
      ensures trace == old(trace) + [Moment(RailWrite, Now())]
    {
      var count := HighCount(tuning.pwmTotal, uv);
      if count > tuning.pwmTotal {
        count := tuning.pwmTotal;
      }
      HighCountIsClosest(tuning.pwmTotal, uv);
      RailRealises(tuning.pwmTotal, uv);
      hi := count;
      lo := tuning.pwmTotal - hi;
      requested := uv;
      Note(RailWrite);
    }

    /** The rate the registers say the cluster runs at. */
    method GetFreq() returns (khz: nat)
      requires |tuning.opps| > 0
      ensures mux ==> khz == pll.Rate()
      ensures !mux ==> khz == if tuning.dynKhz != 0 then tuning.dynKhz else tuning.opps[0].khz
    {
      if !mux {
        return if tuning.dynKhz != 0 then tuning.dynKhz else tuning.opps[0].khz;
      }
      return pll.Rate();
    }

    method MuxSelect(usePll: bool)
      requires usePll ==> Now().Locked()
      modifies this`mux, this`trace
      ensures mux == usePll && trace == old(trace) + [Moment(MuxWrite, Now())]
    {
      mux := usePll;
      Note(MuxWrite);
    }

    /** A write of the control register; it costs the PLL its lock. */
    method WritePll(v: Pll)
      requires !mux
      modifies this`pll, this`trace
      ensures pll == v.(locked := false)
      ensures trace == old(trace) + [Moment(PllWrite, Now())]
    {
      pll := v.(locked := false);
      Note(PllWrite);
    }

    /** One program-and-lock attempt; the PLL needs `settle` polls to lock. */
    method PllProgramOnce(p: Params, settle: nat) returns (ok: bool)
      requires !mux
      modifies this`pll, this`trace
      ensures ok <==> settle < 5000
      ensures ok ==> pll == Programmed(p)
      ensures Parked(old(trace), trace, Now().rail)
      ensures forall i :: |old(trace)| <= i < |trace| ==> trace[i].event == PllWrite
      ensures |trace| == |old(trace)| + 5
      ensures forall k :: 0 <= k < 5 ==> trace[|old(trace)| + k].now.pll == ControlWrites(old(pll), p)[k]
    {
      WritePll(pll.(rst := true));
      WritePll(pll.(en := false));
      WritePll(pll.(m := p.m, n := 1, od := p.od));
      WritePll(pll.(en := true));
      WritePll(pll.(rst := false));
      for i := 0 to LOCK_POLLS
        modifies this`pll
        invariant i <= settle
        invariant pll == Programmed(p).(locked := false)
      {
        if i == settle {
          pll := pll.(locked := true);
        }
        if pll.locked {
          return true;
        }
      }
      return false;
    }

    /** Program `p` up to three times. */
    method Reprogram(p: Params, settle: seq<nat>) returns (ok: bool)
      requires !mux && |settle| == TRIES + 1
      modifies this`pll, this`trace
      ensures ok <==> SomeTryLocks(settle)
      ensures ok ==> pll == Programmed(p)
      ensures Parked(old(trace), trace, Now().rail)
      ensures forall i :: |old(trace)| <= i < |trace| ==> trace[i].event == PllWrite
    {
      ok := false;
      for try := 0 to TRIES
        invariant !ok && forall k :: 0 <= k < try ==> !Locks(settle, k)
        invariant Parked(old(trace), trace, Now().rail)
        invariant forall i :: |old(trace)| <= i < |trace| ==> trace[i].event == PllWrite
      {
        ok := PllProgramOnce(p, settle[try]);
        if ok {
          assert Locks(settle, try);
          return;
        }
      }
    }

    /** Put the PLL back to the last rate it made, or leave the cluster on the dyn
        path and forget what the PLL holds. */
    method RollBack(prev: nat, settle: nat)
      requires !mux && Orderly() && pllKhz == prev
      modifies this`mux, this`pll, this`pllKhz, this`trace
      ensures Orderly()
      ensures mux <==> prev != 0 && settle < 5000 && Synthesised(prev)
      ensures pllKhz == if mux then prev else 0
      ensures mux ==> Now().Locked()
      ensures Ends(old(trace), trace, Now())
    {
      var p := None;
      if prev != 0 {
        p := PllParams(prev);
      }
      var ok := false;
      if p.Some? {
        ok := PllProgramOnce(p.value, settle);
      }
      if ok {
        ProgrammedRate(p.value, prev);
        pllKhz := prev;
        MuxSelect(true);
      } else {
        pllKhz := 0;
      }
    }

    method PllSet(khz: nat, settle: seq<nat>) returns (r: Error)
      requires Valid() && |settle| == TRIES + 1
      modifies this`mux, this`pll, this`pllKhz, this`trace
      ensures Valid()
      ensures r == Einval <==> !Synthesised(khz)
      ensures r == Einval ==> Now() == old(Now()) && trace == old(trace)
      ensures r == Ok <==> Synthesised(khz) && (old(pllKhz) == khz || SomeTryLocks(settle))
      ensures r == Ok ==> mux && pllKhz == khz && pll.Rate() == khz
      ensures r == Eio ==> (mux <==> old(pllKhz) != 0 && Locks(settle, TRIES) && Synthesised(old(pllKhz)))
      ensures r == Eio ==> pllKhz == if mux then old(pllKhz) else 0
      ensures r != Einval ==> Ends(old(trace), trace, Now())
    {
      var p := PllParams(khz);
      if p.None? {
        return Einval;
      }
      if pllKhz == khz {
        MuxSelect(true);
        return Ok;
      }
      MuxSelect(false);
      var prev := pllKhz;
      var ok := Reprogram(p.value, settle);
      if !ok {
        RollBack(prev, settle[TRIES]);
        return Eio;
      }
      ProgrammedRate(p.value, khz);
      pllKhz := khz;
      MuxSelect(true);
      return Ok;
    }

    method SetFreq(khz: nat, settle: seq<nat>) returns (r: Error)
      requires Valid() && |settle| == TRIES + 1 && InTable(tuning, khz)
      modifies this`mux, this`pll, this`pllKhz, this`trace
      ensures Valid()
      ensures FreqSet(tuning, old(Now()), khz, settle, r, Now())
      ensures r == Ok ==> Now().Running(tuning) == khz
      ensures !mux && tuning.dynKhz == 0 ==> Now().Running(tuning) == 24000
      ensures Ends(old(trace), trace, Now())
    {
      if tuning.dynKhz != 0 && khz <= tuning.dynKhz {
        MuxSelect(false);
        return Ok;
      }
      r := PllSet(khz, settle);
    }

    /** The highest point at or below `khz`. */
    method FindIndex(khz: nat) returns (k: nat)
      requires Sound(tuning)
      ensures k < |tuning.opps|
      ensures forall i :: 0 <= i < |tuning.opps| && tuning.opps[i].khz == khz ==> k == i
    {
      k := 0;
      for i := 1 to |tuning.opps|
        invariant k == if tuning.opps[0].khz >= khz then 0 else k
        invariant k < i && forall j :: 0 <= j < i && tuning.opps[j].khz == khz ==> k == j
      {
        if tuning.opps[i].khz <= khz {
          k := i;
        }
      }
    }

    /** From an agreeing state the rail carries the running rate at every recorded step
        exactly when the request is not the hazardous rollback. */
    method TargetIndex(index: nat, cur: nat, settle: seq<nat>) returns (r: Error)
      requires Valid() && index < |tuning.opps| && |settle| == TRIES + 1
      modifies this
      ensures Valid() && old(trace) <= trace
      ensures FreqSet(tuning, old(Now()), tuning.opps[index].khz, settle, r, Now().(rail := old(Now()).rail))
      ensures r == Ok ==> requested == tuning.opps[index].uv && Realises(tuning.pwmTotal, Now().rail)
      ensures r == Ok ==> Now().Running(tuning) == tuning.opps[index].khz
      ensures r != Ok && tuning.opps[index].khz <= cur ==> Now().rail == old(Now()).rail
      ensures r != Ok && tuning.opps[index].khz > cur ==>
        && Realises(tuning.pwmTotal, Now().rail)
        && forall c :: 0 <= c < |tuning.opps| && tuning.opps[c].khz == cur ==> requested == tuning.opps[c].uv
      ensures old(InStep(tuning, Now(), cur)) ==>
        (SafeFrom(tuning, |old(trace)|, trace)
         <==> !(old(Hazard(tuning, mux, pllKhz, tuning.opps[index].khz)) && OnlyOldRateLocks(settle)))
      ensures old(InStep(tuning, Now(), cur)) && SafeFrom(tuning, |old(trace)|, trace) ==>
        InStep(tuning, Now(), if r == Ok then tuning.opps[index].khz else cur)
    {
      hide InStep, Hazard, SafeFrom, Ends, Realises, RailFor, HighCount;
      var khz, uv := tuning.opps[index].khz, tuning.opps[index].uv;
      ghost var v, before := Now(), trace;
      if khz > cur {
        SetVoltage(uv);
        ghost var raised := trace;
        r := SetFreq(khz, settle);
        ghost var w, after := Now(), trace;
        if r != Ok {
          var i := FindIndex(cur);
          SetVoltage(tuning.opps[i].uv);
          if InStep(tuning, v, cur) {
            RaiseFailed(tuning, cur, i, index, v, settle, w, before, raised, after, trace);
          }
        } else if InStep(tuning, v, cur) {
          RaiseDone(tuning, cur, index, v, settle, w, before, raised, after);
        }
      } else {
        r := SetFreq(khz, settle);
        ghost var w, after := Now(), trace;
        if r == Ok {
          SetVoltage(uv);
        }
        if InStep(tuning, v, cur) {
          Lowered(tuning, cur, index, v, settle, r, w, before, after, Now(), trace);
        }
      }
    }

    /** Registration: the period, the highest voltage, and what the PLL runs at. */
    method Setup() returns (cur: nat)
      requires Sound(tuning) && trace == []
      requires mux ==> pll.locked
      modifies this
      ensures Valid() && requested == tuning.opps[|tuning.opps| - 1].uv && Realises(tuning.pwmTotal, Now().rail)
      ensures mux == old(mux) && pll == old(pll)
      ensures mux ==> cur == pll.Rate()
      ensures InTable(tuning, cur) ==> InStep(tuning, Now(), cur) && SafeFrom(tuning, 0, trace)
    {
      pllKhz := 0;
      if mux {
        pllKhz := GetFreq();
      }
      SetVoltage(tuning.opps[|tuning.opps| - 1].uv);
      cur := GetFreq();
    }

    /** Any sequence of requests, each with what the PLL does: the rail carries the
        running rate at every step exactly when no request strikes. */
    method Run(requests: seq<Request>, start: nat) returns (cur: nat)
      requires Valid() && InStep(tuning, Now(), start)
      requires forall q :: q in requests ==> Fits(tuning, q)
      modifies this
      ensures Valid()
      ensures SafeFrom(tuning, |old(trace)|, trace) <==>
        !SomeStrike(tuning, Clock(old(mux), old(pllKhz), start), requests)
      ensures SafeFrom(tuning, |old(trace)|, trace) ==> InStep(tuning, Now(), cur)
    {
      hide InStep, SafeFrom, FreqSet, OnlyOldRateLocks;
      cur := start;
      ghost var first := trace;
      SafeParts(tuning, |first|, first, trace);
      assert requests[0..] == requests;
      for k := 0 to |requests|
        invariant Valid() && first <= trace
        invariant SafeFrom(tuning, |first|, trace) ==> InStep(tuning, Now(), cur)
        invariant SomeStrike(tuning, Clock(old(mux), old(pllKhz), start), requests)
          <==> !SafeFrom(tuning, |first|, trace) || SomeStrike(tuning, Clock(mux, pllKhz, cur), requests[k..])
      {
        var q := requests[k];
        assert q in requests && Fits(tuning, q);
        ghost var v, before := Now(), trace;
        var r := TargetIndex(q.index, cur, q.settle);
        SafeParts(tuning, |first|, before, trace);
        if InStep(tuning, v, cur) {
          Follows(tuning, v, cur, q, r, Now().(rail := v.rail));
        }
        assert requests[k..][0] == q && requests[k..][1..] == requests[k + 1..];
        if r == Ok {
          cur := tuning.opps[q.index].khz;
        }
      }
    }
  }

  lemma SafeParts(t: Tuning, n: nat, before: seq<Moment>, after: seq<Moment>)
    requires n <= |before| && before <= after
    ensures SafeFrom(t, n, after) <==> SafeFrom(t, n, before) && SafeFrom(t, |before|, after)
    ensures SafeFrom(t, |after|, after)
  {
  }

  lemma Follows(t: Tuning, v: View, cur: nat, q: Request, r: Error, w: View)
    requires Sound(t) && InStep(t, v, cur) && Fits(t, q) && FreqSet(t, v, t.opps[q.index].khz, q.settle, r, w)
    ensures Clock(w.mux, w.pllKhz, if r == Ok then t.opps[q.index].khz else cur)
            == Next(t, Clock(v.mux, v.pllKhz, cur), q)
  {
    hide Realises;
  }
}

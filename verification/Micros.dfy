/** cores/arduino/delay.c: `micros()` against the cycle counter, under every interleaving with
    the SysTick interrupt. Time is counted in CPU cycles from the start of SysTick. */
module Micros {
  import opened Bytes

  /** Cycles per tick: `SysTick_Config(SystemCoreClock / 1000)` at 64 MHz; LOAD is one less. */
  const PERIOD := 64000
  const LOAD := 63999

  // ---- The hardware -----------------------------------------------------------------------

  function Rollovers(t: nat): nat { t / PERIOD }

  /** `SysTick->VAL` counts down from LOAD to 0 and starts over. */
  function Val(t: nat): nat { LOAD - t % PERIOD }

  /** How many ticks `SysTick_Handler` has counted by each cycle: any function that never goes
      back, has at most one tick outstanding, and serves each tick within `latency`. */
  ghost predicate Timeline(handled: nat -> nat, latency: nat) {
    && (forall t: nat, u: nat :: t <= u ==> handled(t) <= handled(u))
    && (forall t: nat :: handled(t) <= Rollovers(t) <= handled(t) + 1)
    && (forall t: nat :: Rollovers(t) <= handled(t + latency))
  }

  /** One pass of the loop: the cycles at which it reads VAL, the pending bit and the count. */
  datatype Pass = Pass(ticksAt: nat, pendAt: nat, countAt: nat)

  /** What one pass read. */
  datatype Reading = Reading(ticks: nat, pend: nat, count: nat)

  ghost predicate Observed(handled: nat -> nat, p: Pass, r: Reading) {
    && p.ticksAt <= p.pendAt <= p.countAt
    && r.ticks == Val(p.ticksAt)
    && r.pend == Rollovers(p.pendAt) - handled(p.pendAt)
    && r.count == handled(p.countAt) % TWO32
  }

  ghost predicate ObservedAll(handled: nat -> nat, latency: nat, span: nat, passes: seq<Pass>, samples: seq<Reading>) {
    && |passes| == |samples| && latency + span < PERIOD
    && (forall k :: 0 <= k < |samples| ==> Observed(handled, passes[k], samples[k]))
    && (forall k :: 0 <= k < |samples| - 1 ==> passes[k].countAt <= passes[k + 1].ticksAt)
    && (forall k :: 0 <= k < |samples| - 1 ==> passes[k + 1].countAt - passes[k].ticksAt <= span)
  }

  // ---- The code ---------------------------------------------------------------------------

  /** The loop leaves when nothing moved between two passes. */
  predicate Stable(a: Reading, b: Reading) {
    a.pend == b.pend && a.count == b.count && a.ticks >= b.ticks
  }

  /** The returned expression, in 32-bit unsigned arithmetic. */
  function Formula(r: Reading): nat {
    var scaled := (LOAD - r.ticks) * (1048576 / 64) % TWO32;
    ((r.count + r.pend) % TWO32 * 1000 % TWO32 + scaled / 1048576) % TWO32
  }

  /** `micros()`. The readings are the environment's; `None` means it gave out before two passes
      agreed. */
  method Micros(samples: seq<Reading>, ghost handled: nat -> nat, ghost latency: nat, ghost span: nat,
                ghost passes: seq<Pass>)
    returns (result: Option<nat>, accepted: nat)
    requires Timeline(handled, latency) && ObservedAll(handled, latency, span, passes, samples)
    ensures result.Some? ==> accepted + 1 < |samples| && result.value == passes[accepted].ticksAt / 64 % TWO32
    ensures result.None? ==> forall k :: 0 <= k < |samples| - 1 ==> Disturbed(handled, passes[k], passes[k + 1])
    ensures |samples| >= 8 && 7 * span < PERIOD ==> result.Some? && accepted < 7
  {
    hide Formula, Timeline, Disturbed, Rollovers;
    if |samples| >= 8 && 7 * span < PERIOD {
      EightPassesSuffice(handled, latency, span, passes, samples);
    }
    accepted := 0;
    var i := 0;
    while i + 1 < |samples|
      invariant 0 <= i
      invariant forall k :: 0 <= k < i && k < |samples| - 1 ==> Disturbed(handled, passes[k], passes[k + 1])
    {
      var before, now := samples[i], samples[i + 1];
      if !((before.pend != now.pend) || (before.count != now.count) || (before.ticks < now.ticks)) {
        StableIsExact(handled, latency, span, passes[i], passes[i + 1], before, now);
        FormulaIsMicroseconds(passes[i].ticksAt, before, handled(passes[i].countAt));
        return Some(Formula(before)), i;
      }
      OnlyTicksDisturb(handled, latency, passes[i], passes[i + 1], before, now);
      i := i + 1;
    }
    result := None;
  }

  // ---- Why it is right ----------------------------------------------------------------------

  /** A rollover or a run of the handler fell between the first and the last read of two passes. */
  ghost predicate Disturbed(handled: nat -> nat, a: Pass, b: Pass) {
    Rollovers(a.ticksAt) != Rollovers(b.countAt) || handled(a.ticksAt) != handled(b.countAt)
  }

  lemma Forward(handled: nat -> nat, latency: nat, t: nat, u: nat)
    requires Timeline(handled, latency) && t <= u
    ensures handled(t) <= handled(u)
  {}

  lemma OneOutstanding(handled: nat -> nat, latency: nat, t: nat)
    requires Timeline(handled, latency)
    ensures handled(t) <= Rollovers(t) <= handled(t) + 1 && Rollovers(t) <= handled(t + latency)
  {}

  lemma RolloversAscend(t: nat, u: nat)
    requires t <= u
    ensures Rollovers(t) <= Rollovers(u)
    ensures u - t < PERIOD && u % PERIOD >= t % PERIOD ==> Rollovers(t) == Rollovers(u)
    ensures Rollovers(t) == Rollovers(u) ==> t % PERIOD <= u % PERIOD
  {
    assert t == PERIOD * Rollovers(t) + t % PERIOD && u == PERIOD * Rollovers(u) + u % PERIOD;
  }

  /** Between quiet instants two passes always agree: only tick activity makes the loop retry. */
  lemma OnlyTicksDisturb(handled: nat -> nat, latency: nat, a: Pass, b: Pass, ra: Reading, rb: Reading)
    requires Timeline(handled, latency)
    requires Observed(handled, a, ra) && Observed(handled, b, rb) && a.countAt <= b.ticksAt
    requires !Stable(ra, rb)
    ensures Disturbed(handled, a, b)
  {
    hide Rollovers, Timeline;
    Forward(handled, latency, a.ticksAt, a.pendAt);
    Forward(handled, latency, a.pendAt, a.countAt);
    Forward(handled, latency, a.countAt, b.pendAt);
    Forward(handled, latency, b.pendAt, b.countAt);
    RolloversAscend(a.ticksAt, a.pendAt);
    RolloversAscend(a.pendAt, b.ticksAt);
    RolloversAscend(a.ticksAt, b.ticksAt);
    RolloversAscend(b.ticksAt, b.pendAt);
    RolloversAscend(b.pendAt, b.countAt);
  }

  /** Rollovers and handler runs so far: what can make the loop retry. */
  ghost function Activity(handled: nat -> nat, t: nat): nat { Rollovers(t) + handled(t) }

  lemma ActivityAscends(handled: nat -> nat, latency: nat, t: nat, u: nat)
    requires Timeline(handled, latency) && t <= u
    ensures Activity(handled, t) <= Activity(handled, u)
    ensures u < t + PERIOD ==> Activity(handled, u) <= Activity(handled, t) + 3
  {
    hide Rollovers, Timeline;
    Forward(handled, latency, t, u);
    RolloversAscend(t, u);
    OneOutstanding(handled, latency, t);
    OneOutstanding(handled, latency, u);
    if u < t + PERIOD {
      AtMostOneMore(t, u);
    }
  }

  lemma DisturbanceIsActivity(handled: nat -> nat, latency: nat, a: Pass, b: Pass)
    requires Timeline(handled, latency) && a.ticksAt <= b.countAt && Disturbed(handled, a, b)
    ensures Activity(handled, a.ticksAt) < Activity(handled, b.countAt)
  {
    hide Rollovers, Timeline;
    Forward(handled, latency, a.ticksAt, b.countAt);
    RolloversAscend(a.ticksAt, b.countAt);
  }

  /** Of `2 n` passes that all disagree, every other pair saw activity of its own. */
  lemma {:induction false} RetriesNeedActivity(handled: nat -> nat, latency: nat, span: nat, passes: seq<Pass>,
                                               samples: seq<Reading>, n: nat)
    requires Timeline(handled, latency) && ObservedAll(handled, latency, span, passes, samples)
    requires 1 <= n && 2 * n <= |samples|
    requires forall k :: 0 <= k < 2 * n - 1 ==> Disturbed(handled, passes[k], passes[k + 1])
    ensures Activity(handled, passes[0].ticksAt) + n <= Activity(handled, passes[2 * n - 1].countAt)
  {
    hide Timeline, Disturbed, Rollovers, Activity, Val;
    var k := 2 * n - 2;
    assert Observed(handled, passes[k], samples[k]) && Observed(handled, passes[k + 1], samples[k + 1]);
    DisturbanceIsActivity(handled, latency, passes[k], passes[k + 1]);
    if n > 1 {
      RetriesNeedActivity(handled, latency, span, passes, samples, n - 1);
      assert passes[k - 1].countAt <= passes[k - 1 + 1].ticksAt;
      ActivityAscends(handled, latency, passes[k - 1].countAt, passes[k].ticksAt);
    }
  }

  lemma {:induction false} Elapsed(handled: nat -> nat, latency: nat, span: nat, passes: seq<Pass>,
                                   samples: seq<Reading>, n: nat)
    requires ObservedAll(handled, latency, span, passes, samples) && 1 <= n < |samples|
    ensures passes[0].ticksAt <= passes[n].ticksAt <= passes[n].countAt <= passes[0].ticksAt + n * span
  {
    hide Rollovers, Val;
    var k := n - 1;
    assert Observed(handled, passes[k], samples[k]) && Observed(handled, passes[k + 1], samples[k + 1]);
    assert passes[k + 1].countAt - passes[k].ticksAt <= span;
    if n > 1 {
      Elapsed(handled, latency, span, passes, samples, n - 1);
      assert n * span == (n - 1) * span + span;
    }
  }

  /** The loop ends: when seven passes take less than a tick period, one of them is undisturbed. */
  lemma EightPassesSuffice(handled: nat -> nat, latency: nat, span: nat, passes: seq<Pass>, samples: seq<Reading>)
    requires Timeline(handled, latency) && ObservedAll(handled, latency, span, passes, samples)
    requires |samples| >= 8 && 7 * span < PERIOD
    ensures exists k :: 0 <= k < 7 && !Disturbed(handled, passes[k], passes[k + 1])
  {
    hide Timeline, Observed, Disturbed, Rollovers, Activity;
    Elapsed(handled, latency, span, passes, samples, 7);
    ActivityAscends(handled, latency, passes[0].ticksAt, passes[7].countAt);
    if forall k :: 0 <= k < 7 ==> Disturbed(handled, passes[k], passes[k + 1]) {
      RetriesNeedActivity(handled, latency, span, passes, samples, 4);
    }
  }

  lemma SmallDifference(x: nat, y: nat)
    requires x % TWO32 == y % TWO32 && x <= y < x + TWO32
    ensures x == y
  {}

  /** If a tick is served between two reads of one pass, the next tick cannot roll over before
      the following pass has looked at the pending bit. */
  lemma ServedTickIsRecent(handled: nat -> nat, latency: nat, span: nat, from: nat, to: nat, r: nat)
    requires Timeline(handled, latency) && latency + span < PERIOD && from <= to <= from + span
    requires handled(from) < r && r == Rollovers(from)
    ensures Rollovers(to) == r
  {
    hide Timeline;
    var start := r * PERIOD;
    assert start <= from < start + PERIOD && Rollovers(start) == r;
    OneOutstanding(handled, latency, start);
    if start + latency <= from {
      Forward(handled, latency, start + latency, from);
    }
    hide Rollovers;
    assert to < start + PERIOD;
    RolloversAscend(start, to);
    StaysInPeriod(start, to);
  }

  lemma StaysInPeriod(t: nat, u: nat)
    requires t % PERIOD == 0 && t <= u < t + PERIOD
    ensures Rollovers(t) == Rollovers(u)
  {}

  /** The sum that an accepted pass computes is the number of rollovers at its read of VAL. */
  lemma StableIsExact(handled: nat -> nat, latency: nat, span: nat, a: Pass, b: Pass, ra: Reading, rb: Reading)
    requires Timeline(handled, latency) && latency + span < PERIOD
    requires Observed(handled, a, ra) && Observed(handled, b, rb)
    requires a.countAt <= b.ticksAt && b.countAt - a.ticksAt <= span && Stable(ra, rb)
    ensures handled(a.countAt) + ra.pend == Rollovers(a.ticksAt)
  {
    hide Rollovers, Timeline;
    var r := Rollovers(a.ticksAt);
    NoRolloverBetween(a.ticksAt, a.pendAt, b.ticksAt);
    NoRolloverBetween(a.ticksAt, a.countAt, b.ticksAt);
    HandledTogether(handled, latency, a, b, ra, rb);
    OneOutstanding(handled, latency, a.pendAt);
    if handled(a.pendAt) < r {
      ServedTickIsRecent(handled, latency, span, a.pendAt, b.pendAt, r);
    }
    OneOutstanding(handled, latency, b.pendAt);
    OneOutstanding(handled, latency, a.countAt);
  }

  /** Within one period VAL only falls, so a VAL that did not rise means no rollover. */
  lemma NoRolloverBetween(t: nat, m: nat, u: nat)
    requires t <= m <= u < t + PERIOD && Val(t) >= Val(u)
    ensures Rollovers(m) == Rollovers(t)
  {
    RolloversAscend(t, u);
    RolloversAscend(t, m);
    RolloversAscend(m, u);
  }

  /** Equal counts mean that the handler did not run from one count read to the other. */
  lemma HandledTogether(handled: nat -> nat, latency: nat, a: Pass, b: Pass, ra: Reading, rb: Reading)
    requires Timeline(handled, latency)
    requires Observed(handled, a, ra) && Observed(handled, b, rb)
    requires a.countAt <= b.ticksAt && b.countAt - a.ticksAt < PERIOD && ra.count == rb.count
    ensures handled(a.pendAt) <= handled(a.countAt) == handled(b.pendAt)
  {
    hide Rollovers, Timeline;
    Forward(handled, latency, a.pendAt, a.countAt);
    Forward(handled, latency, a.countAt, b.pendAt);
    Forward(handled, latency, b.pendAt, b.countAt);
    OneOutstanding(handled, latency, a.countAt);
    OneOutstanding(handled, latency, b.countAt);
    AtMostOneMore(a.countAt, b.countAt);
    SmallDifference(handled(a.countAt), handled(b.countAt));
  }

  lemma AtMostOneMore(t: nat, u: nat)
    requires t <= u < t + PERIOD
    ensures Rollovers(u) <= Rollovers(t) + 1
  {}

  /** The multiply-and-shift is the division by 64, no 32-bit product overflows, and the sum is
      the microsecond count modulo 2^32. */
  lemma FormulaIsMicroseconds(t: nat, r: Reading, h: nat)
    requires r.ticks == Val(t) && r.count == h % TWO32 && h + r.pend == Rollovers(t)
    ensures (LOAD - r.ticks) * (1048576 / 64) < TWO32
    ensures Formula(r) == t / 64 % TWO32
  {
    var x := t % PERIOD;
    assert LOAD - r.ticks == x;
    ShiftIsDivision(x);
    SumModulo(h, r.pend, x / 64);
    MicrosecondsOf(t);
  }

  lemma ShiftIsDivision(x: nat)
    requires x < PERIOD
    ensures x * (1048576 / 64) < TWO32 && x * (1048576 / 64) % TWO32 / 1048576 == x / 64
  {
    assert 1048576 / 64 == 16384;
    var y := x * 16384;
    assert y % TWO32 == y;
    assert y / 1048576 == x / 64;
  }

  lemma SumModulo(h: nat, p: nat, x: nat)
    ensures ((h % TWO32 + p) % TWO32 * 1000 % TWO32 + x) % TWO32 == ((h + p) * 1000 + x) % TWO32
  {
    var a := (h % TWO32 + p) % TWO32;
    assert a == (h + p) % TWO32;
    var q := (h + p) / TWO32;
    assert h + p == q * TWO32 + a;
    assert (h + p) * 1000 + x == q * 1000 * TWO32 + (a * 1000 + x);
    ModShift(a * 1000 + x, q * 1000);
    var b := a * 1000 / TWO32;
    assert a * 1000 + x == b * TWO32 + (a * 1000 % TWO32 + x);
    ModShift(a * 1000 % TWO32 + x, b);
  }

  lemma ModShift(x: nat, k: nat)
    ensures (k * TWO32 + x) % TWO32 == x % TWO32
  {}

  lemma MicrosecondsOf(t: nat)
    ensures t / 64 == Rollovers(t) * 1000 + t % PERIOD / 64
  {}
}

/** cores/arduino/WInterrupts.c: which GPIOTE channel serves which pin. Each channel records its
    pin in `callbacksInt` and its state in `freeChannels`; a released channel keeps its record. */
module Interrupts {
  import opened Bytes

  const CHANNELS := 8

  /** `int_msk`: the interrupt bit of a channel. */
  function Mask(channel: nat): nat { Power2(channel) }

  /** Both tables as values. */
  datatype Table = Table(free: seq<bool>, pin: seq<nat>)

  ghost predicate IsTable(t: Table) { |t.free| == CHANNELS && |t.pin| == CHANNELS }

  function FirstFree(free: seq<bool>, j: nat): (r: nat)
    requires j <= |free|
    ensures j <= r <= |free| && (r < |free| ==> free[r])
    ensures forall k :: j <= k < r ==> !free[k]
    decreases |free| - j
  {
    if j == |free| || free[j] then j else FirstFree(free, j + 1)
  }

  function FirstWithPin(pin: seq<nat>, p: nat, j: nat): (r: nat)
    requires j <= |pin|
    ensures j <= r <= |pin| && (r < |pin| ==> pin[r] == p)
    ensures forall k :: j <= k < r ==> pin[k] != p
    decreases |pin| - j
  {
    if j == |pin| || pin[j] == p then j else FirstWithPin(pin, p, j + 1)
  }

  /** `attachInterrupt`: take the first free channel. */
  function Attach(t: Table, p: nat): Table
    requires |t.free| == CHANNELS && |t.pin| == CHANNELS
  {
    var j := FirstFree(t.free, 0);
    if j == CHANNELS then t else Table(t.free[j := false], t.pin[j := p])
  }

  /** `detachInterrupt`: free the first channel whose record names the pin. */
  function Detach(t: Table, p: nat): Table
    requires |t.free| == CHANNELS && |t.pin| == CHANNELS
  {
    var j := FirstWithPin(t.pin, p, 0);
    if j == CHANNELS then t else t.(free := t.free[j := true])
  }

  /** The pins that are attached, each with its channel: what the tables mean. */
  function Attached(t: Table): map<nat, nat>
    requires |t.free| == CHANNELS && |t.pin| == CHANNELS
  {
    AttachedBelow(t, CHANNELS)
  }

  function AttachedBelow(t: Table, n: nat): map<nat, nat>
    requires |t.free| == CHANNELS && |t.pin| == CHANNELS && n <= CHANNELS
  {
    if n == 0 then map[]
    else if t.free[n - 1] then AttachedBelow(t, n - 1)
    else AttachedBelow(t, n - 1)[t.pin[n - 1] := n - 1]
  }

  /** No live channel is preceded by a channel, live or stale, that records the same pin. */
  ghost predicate Unshadowed(t: Table) {
    IsTable(t) && forall i, j :: 0 <= i < j < CHANNELS && !t.free[j] ==> t.pin[i] != t.pin[j]
  }

  ghost predicate Live(t: Table, p: nat) {
    exists j :: 0 <= j < CHANNELS <= |t.free| && |t.pin| >= CHANNELS && !t.free[j] && t.pin[j] == p
  }

  // ---- The object -------------------------------------------------------------------------

  class Gpiote {
    var freeChannels: array<bool>
    var pins: array<nat>

    ghost predicate Valid()
      reads this, freeChannels, pins
    {
      freeChannels.Length == CHANNELS && pins.Length == CHANNELS
    }

    ghost function View(): Table
      reads this, freeChannels, pins
    {
      Table(freeChannels[..], pins[..])
    }

    /** Static storage: all channels free, all records zero. */
    constructor ()
      ensures Valid() && Unshadowed(View()) && Attached(View()) == map[]
      ensures freeChannels.Length == pins.Length == 8
      ensures forall j :: 0 <= j < 8 ==> freeChannels[j] && pins[j] == 0
    {
      freeChannels := new bool[CHANNELS](_ => true);
      pins := new nat[CHANNELS](_ => 0);
      new;
      AttachedIs(View(), map[]);
    }

    /** The interrupt mask of the channel taken, or -1 exactly when all are live. A pin that is
        attached already is given a second channel: the call does not replace anything. */
    method AttachInterrupt(p: nat) returns (mask: int)
      requires Valid()
      modifies freeChannels, pins
      ensures Valid() && View() == Attach(old(View()), p)
      ensures mask == -1 <==> forall j :: 0 <= j < CHANNELS ==> !old(freeChannels[j])
      ensures mask == -1 ==> View() == old(View())
      ensures mask != -1 ==>
                var j := FirstFree(old(freeChannels[..]), 0);
                && old(freeChannels[j]) && mask == Mask(j)
                && (old(Unshadowed(View()) && !Live(View(), p)) ==>
                      Unshadowed(View()) && Attached(View()) == old(Attached(View()))[p := j])
    {
      ghost var t := View();
      var j := 0;
      while j < CHANNELS && !freeChannels[j]
        invariant 0 <= j <= CHANNELS && forall k :: 0 <= k < j ==> !freeChannels[k]
      {
        j := j + 1;
      }
      if j == CHANNELS {
        return -1;
      }
      assert FirstFree(t.free, 0) == j;
      if Unshadowed(t) && !Live(t, p) {
        AttachMeans(t, p);
      }
      pins[j] := p;
      freeChannels[j] := false;
      mask := Mask(j);
    }

    /** Frees the channel of that pin; a pin that is not attached changes nothing. */
    method DetachInterrupt(p: nat)
      requires Valid()
      modifies freeChannels
      ensures Valid() && View() == Detach(old(View()), p)
      ensures old(Unshadowed(View())) ==> Unshadowed(View()) && Attached(View()) == old(Attached(View())) - {p}
      ensures old(Unshadowed(View())) ==> forall j :: 0 <= j < CHANNELS ==>
                freeChannels[j] == (old(freeChannels[j]) ||
                                    (p in old(Attached(View())) && old(Attached(View()))[p] == j))
    {
      ghost var t := View();
      if Unshadowed(t) {
        DetachMeans(t, p);
      }
      var j := 0;
      while j < CHANNELS && pins[j] != p
        invariant 0 <= j <= CHANNELS && forall k :: 0 <= k < j ==> pins[k] != p
      {
        j := j + 1;
      }
      if j == CHANNELS {
        return;
      }
      assert FirstWithPin(t.pin, p, 0) == j;
      freeChannels[j] := true;
    }
  }

  // ---- What the tables mean -----------------------------------------------------------------

  lemma {:induction false} AttachedBelowMeans(t: Table, n: nat)
    requires Unshadowed(t) && n <= CHANNELS
    ensures forall p :: p in AttachedBelow(t, n) <==> exists j :: 0 <= j < n && !t.free[j] && t.pin[j] == p
    ensures forall j :: 0 <= j < n && !t.free[j] ==>
              t.pin[j] in AttachedBelow(t, n) && AttachedBelow(t, n)[t.pin[j]] == j
  {
    if n > 0 {
      AttachedBelowMeans(t, n - 1);
    }
  }

  /** In an unshadowed table the meaning is exact: live channels and attached pins correspond. */
  lemma AttachedMeans(t: Table)
    requires Unshadowed(t)
    ensures forall p :: p in Attached(t) <==> Live(t, p)
    ensures forall j :: 0 <= j < CHANNELS && !t.free[j] ==> t.pin[j] in Attached(t) && Attached(t)[t.pin[j]] == j
    ensures forall p :: p in Attached(t) ==>
              0 <= Attached(t)[p] < CHANNELS && !t.free[Attached(t)[p]] && t.pin[Attached(t)[p]] == p
  {
    AttachedBelowMeans(t, CHANNELS);
    hide AttachedBelow;
  }

  lemma AttachedIs(t: Table, m: map<nat, nat>)
    requires Unshadowed(t)
    requires forall j :: 0 <= j < CHANNELS && !t.free[j] ==> t.pin[j] in m && m[t.pin[j]] == j
    requires forall p :: p in m ==> 0 <= m[p] < CHANNELS && !t.free[m[p]] && t.pin[m[p]] == p
    ensures Attached(t) == m
  {
    AttachedMeans(t);
    hide Attached;
  }

  /** Attaching keeps the table unshadowed exactly when there is no channel left to take or the
      pin is not attached already. */
  lemma AttachKeepsUnshadowed(t: Table, p: nat)
    requires Unshadowed(t)
    ensures Unshadowed(Attach(t, p)) <==> FirstFree(t.free, 0) == CHANNELS || !Live(t, p)
  {
    var j, t' := FirstFree(t.free, 0), Attach(t, p);
    if j < CHANNELS && Live(t, p) {
      var k :| 0 <= k < CHANNELS && !t.free[k] && t.pin[k] == p;
      assert t'.pin[k] == t'.pin[j] == p && !t'.free[k] && !t'.free[j];
    }
  }

  lemma AttachMeans(t: Table, p: nat)
    requires Unshadowed(t) && FirstFree(t.free, 0) < CHANNELS && !Live(t, p)
    ensures Unshadowed(Attach(t, p)) && Attached(Attach(t, p)) == Attached(t)[p := FirstFree(t.free, 0)]
  {
    AttachKeepsUnshadowed(t, p);
    AttachedMeans(t);
    AttachedIs(Attach(t, p), Attached(t)[p := FirstFree(t.free, 0)]);
  }

  lemma DetachMeans(t: Table, p: nat)
    requires Unshadowed(t)
    ensures Unshadowed(Detach(t, p)) && Attached(Detach(t, p)) == Attached(t) - {p}
    ensures forall j :: 0 <= j < CHANNELS ==>
              Detach(t, p).free[j] == (t.free[j] || (p in Attached(t) && Attached(t)[p] == j))
  {
    AttachedMeans(t);
    var j := FirstWithPin(t.pin, p, 0);
    assert p in Attached(t) ==> j == Attached(t)[p];
    AttachedIs(Detach(t, p), Attached(t) - {p});
  }

  /** The masks are the eight low bits, one per channel. */
  lemma MasksAreBits(j: nat)
    requires j < CHANNELS
    ensures Mask(j) == [1, 2, 4, 8, 16, 32, 64, 128][j]
  {
    assert Power2(0) == 1 && Power2(1) == 2 && Power2(2) == 4;
    assert Power2(3) == 8 && Power2(4) == 16 && Power2(5) == 32;
    assert Power2(6) == 64 && Power2(7) == 128;
  }

  // ---- Whole runs -------------------------------------------------------------------------

  datatype Call = AttachCall(p: nat) | DetachCall(p: nat)

  function Do(t: Table, c: Call): Table
    requires |t.free| == CHANNELS && |t.pin| == CHANNELS
  {
    match c
    case AttachCall(p) => Attach(t, p)
    case DetachCall(p) => Detach(t, p)
  }

  /** What the calls mean, on a map alone: a pin gets a channel no other pin has. */
  ghost predicate MeansCall(m: map<nat, nat>, c: Call, m': map<nat, nat>) {
    match c
    case AttachCall(p) =>
      if |m| == CHANNELS then m' == m
      else exists j :: 0 <= j < CHANNELS && j !in m.Values && m' == m[p := j]
    case DetachCall(p) => m' == m - {p}
  }

  /** No pin is attached twice without a detach in between. */
  ghost predicate Alternating(t: Table, calls: seq<Call>)
    requires IsTable(t)
    decreases |calls|
  {
    calls == [] ||
    ((calls[0].AttachCall? ==> !Live(t, calls[0].p)) && Alternating(Do(t, calls[0]), calls[1..]))
  }

  lemma {:induction false} DistinctChannels(t: Table, n: nat)
    requires Unshadowed(t) && n <= CHANNELS
    ensures |AttachedBelow(t, n)| <= n
    ensures |AttachedBelow(t, n)| == n <==> forall j :: 0 <= j < n ==> !t.free[j]
  {
    if n > 0 {
      DistinctChannels(t, n - 1);
      AttachedBelowMeans(t, n - 1);
    }
  }

  lemma CallMeans(t: Table, c: Call)
    requires Unshadowed(t) && (c.AttachCall? ==> !Live(t, c.p))
    ensures Unshadowed(Do(t, c)) && MeansCall(Attached(t), c, Attached(Do(t, c)))
  {
    DistinctChannels(t, CHANNELS);
    match c
    case AttachCall(p) =>
      var j := FirstFree(t.free, 0);
      if j < CHANNELS {
        AttachMeans(t, p);
        AttachedMeans(t);
        hide Attached, AttachedBelow;
        assert j !in Attached(t).Values;
      }
    case DetachCall(p) =>
      DetachMeans(t, p);
  }

  function After(t: Table, calls: seq<Call>): (u: Table)
    requires |t.free| == CHANNELS && |t.pin| == CHANNELS
    ensures IsTable(u)
    decreases |calls|
  {
    if calls == [] then t else After(Do(t, calls[0]), calls[1..])
  }

  /** The map `m'` can be reached from `m` by these calls. */
  ghost predicate Reaches(m: map<nat, nat>, calls: seq<Call>, m': map<nat, nat>)
    decreases |calls|
  {
    if calls == [] then m' == m else exists m1 :: MeansCall(m, calls[0], m1) && Reaches(m1, calls[1..], m')
  }

  /** Every alternating run of the tables is a run of the map from pins to channels. */
  lemma {:induction false} RunKeepsMeaning(t: Table, calls: seq<Call>)
    requires Unshadowed(t) && Alternating(t, calls)
    ensures Unshadowed(After(t, calls)) && Reaches(Attached(t), calls, Attached(After(t, calls)))
    decreases |calls|
  {
    hide Attached, MeansCall;
    if calls != [] {
      CallMeans(t, calls[0]);
      RunKeepsMeaning(Do(t, calls[0]), calls[1..]);
    }
  }

  /** Calls for other pins leave a pin on its channel, over any alternating run. */
  lemma {:induction false} OtherPinsLeaveItAlone(t: Table, mid: seq<Call>, p: nat)
    requires Unshadowed(t) && Alternating(t, mid) && p in Attached(t)
    requires forall i :: 0 <= i < |mid| ==> mid[i].p != p
    ensures Unshadowed(After(t, mid)) && p in Attached(After(t, mid))
    ensures Attached(After(t, mid))[p] == Attached(t)[p]
    decreases |mid|
  {
    hide Attached;
    if mid != [] {
      CallMeans(t, mid[0]);
      OtherPinsLeaveItAlone(Do(t, mid[0]), mid[1..], p);
    }
  }

  /** Whatever is attached and detached in between, `detachInterrupt(p)` frees exactly the channel
      that `attachInterrupt(p)` took, and no other. */
  lemma DetachFreesWhatAttachTook(t: Table, p: nat, mid: seq<Call>)
    requires Unshadowed(t) && !Live(t, p) && FirstFree(t.free, 0) < CHANNELS
    requires Alternating(Attach(t, p), mid) && forall i :: 0 <= i < |mid| ==> mid[i].p != p
    ensures var u := After(Attach(t, p), mid);
            !u.free[FirstFree(t.free, 0)] && Detach(u, p).free == u.free[FirstFree(t.free, 0) := true]
  {
    hide Attached;
    AttachMeans(t, p);
    OtherPinsLeaveItAlone(Attach(t, p), mid, p);
    var u := After(Attach(t, p), mid);
    AttachedMeans(u);
    DetachMeans(u, p);
  }

  /** Without that rule a detach leaves the pin attached: pin 5 twice, then detached once. */
  lemma AttachTwiceCounterexample()
    ensures var t := Table(seq(CHANNELS, _ => true), seq(CHANNELS, _ => 0));
            Live(Detach(Attach(Attach(t, 5), 5), 5), 5)
  {
    var t := Table(seq(CHANNELS, _ => true), seq(CHANNELS, _ => 0));
    var a := Attach(t, 5);
    assert FirstFree(t.free, 0) == 0;
    assert FirstFree(a.free, 0) == 1;
    var b := Attach(a, 5);
    var d := Detach(b, 5);
    assert FirstWithPin(b.pin, 5, 0) == 0;
    assert !d.free[1] && d.pin[1] == 5;
  }
}

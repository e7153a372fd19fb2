/** Safety over every run of the driver: transmit credits are conserved, subscription flags agree,
    and nothing is sent without a link, a subscription made on that link, and a credit. */
module GattNotification {
  import opened Bytes
  import opened Gatt

  /** The driver with the history of the current connection: the credit read when it opened,
      packets charged and completed since, and the characteristics whose CCCD was written. */
  datatype Tracked = Tracked(device: Device, credit: nat, charged: nat, completed: nat, configured: set<nat>)

  predicate IsPacket(a: Action) { a.Notify? || a.Indicate? || a.RemoteWrite? }

  function Packets(actions: seq<Action>): nat {
    if actions == [] then 0 else (if IsPacket(actions[0]) then 1 else 0) + Packets(actions[1..])
  }

  /** What the SoftDevice may report: one link at a time, peer activity only on a live link, and
      completions only for packets that were handed over. The calls may come at any time. */
  predicate Allowed(t: Tracked, e: Event) {
    && Meaningful(t.device, e)
    && match e
       case Connected(_, _) => t.device.connection == None
       case TxComplete(count) => t.device.connection.Some? && t.completed + count <= t.charged
       case UpdateValue(_) => true
       case WriteRemote(_) => true
       case _ => t.device.connection.Some?
  }

  function CccdAt(local: seq<LocalCharacteristic>, handle: Handle): set<nat> {
    set i: nat | i < |local| && local[i].cccdHandle == handle
  }

  function Next(t: Tracked, e: Event): Tracked
    requires Allowed(t, e)
  {
    var o := Step(t.device, e);
    match e
    case Connected(_, credit) => Tracked(o.device, credit, 0, 0, {})
    case Disconnected => Tracked(o.device, 0, 0, 0, {})
    case TxComplete(count) => t.(device := o.device, completed := t.completed + count)
    case Write(handle, _) =>
      t.(device := o.device, charged := t.charged + Packets(o.actions),
         configured := t.configured + CccdAt(t.device.local, handle))
    case _ => t.(device := o.device, charged := t.charged + Packets(o.actions))
  }

  ghost predicate FlagsAgree(t: Tracked, i: nat)
    requires i < |t.device.local|
  {
    var c := t.device.local[i];
    && c.subscribed == (c.notify || c.indicate)
    && (c.subscribed ==> t.device.connection.Some? && i in t.configured)
  }

  ghost predicate Inv(t: Tracked) {
    && (if t.device.connection.Some?
        then t.completed <= t.charged && t.device.tx == t.credit + t.completed - t.charged && t.credit < 256
        else t.device.tx == 0)
    && forall i :: 0 <= i < |t.device.local| ==> FlagsAgree(t, i)
  }

  /** A value update goes to a characteristic that was configured for it on this link. */
  ghost predicate Subscribed(t: Tracked, a: Action) {
    var local := t.device.local;
    && (a.Notify? ==> a.notified in t.configured && a.notified < |local| && local[a.notified].notify)
    && (a.Indicate? ==> a.indicated in t.configured && a.indicated < |local| && local[a.indicated].indicate)
  }

  /** Every packet of this step has a link and a credit; every value update goes to a
      characteristic whose CCCD was written on this link. */
  ghost predicate SafeStep(t: Tracked, e: Event)
    requires Allowed(t, e)
  {
    var actions := Step(t.device, e).actions;
    && Packets(actions) <= t.device.tx
    && (Packets(actions) > 0 ==> t.device.connection.Some?)
    && forall a :: a in actions ==> Subscribed(t, a)
  }

  lemma PacketsJoin(a: seq<Action>, b: seq<Action>)
    requires |a| <= 1 && |b| <= 1
    ensures Packets(a + b) == Packets(a) + Packets(b)
  {
    if |a| == 1 {
      assert (a + b)[1..] == b && a[1..] == [];
    } else {
      assert a + b == b;
    }
  }

  lemma UpdateIsSafe(t: Tracked, i: nat)
    requires Inv(t)
    ensures var o := OnUpdate(t.device, i);
            && o.device.tx + Packets(o.actions) == t.device.tx
            && o.device == t.device.(tx := o.device.tx)
            && (o.actions != [] ==> i < |t.device.local| && t.device.connection.Some? && i in t.configured)
            && forall a :: a in o.actions ==>
                 (a == Notify(i) && t.device.local[i].notify) || (a == Indicate(i) && t.device.local[i].indicate)
  {
    if i < |t.device.local| {
      assert FlagsAgree(t, i);
      var o := OnUpdate(t.device, i);
      PacketsJoin(if t.device.local[i].notify && t.device.tx > 0 then [Notify(i)] else [],
                  if o.actions != [] && o.actions[|o.actions| - 1] == Indicate(i) then [Indicate(i)] else []);
    }
  }

  /** The write loop from any index keeps the flags, and sends only what an update would. */
  lemma {:induction false} WriteIsSafe(t: Tracked, d: Device, handle: Handle, data: nat, i: nat)
    requires i <= |d.local| == |t.device.local| && d == t.device.(local := d.local)
    requires Inv(t) && t.device.connection.Some?
    requires forall k :: 0 <= k < |d.local| ==>
               d.local[k].cccdHandle == t.device.local[k].cccdHandle &&
               FlagsAgree(t.(device := d, configured := t.configured + CccdAt(t.device.local, handle)), k)
    requires forall k :: i <= k < |d.local| ==> d.local[k] == t.device.local[k]
    ensures var o := OnWriteFrom(d, handle, data, i);
            && o.device.connection == d.connection && |o.device.local| == |d.local|
            && o.device.tx + Packets(o.actions) == t.device.tx
            && (forall k :: 0 <= k < |d.local| ==>
                  FlagsAgree(t.(device := o.device, configured := t.configured + CccdAt(t.device.local, handle)), k))
            && forall a :: a in o.actions ==> Subscribed(t, a)
    decreases |d.local| - i
  {
    var tw := t.(device := d, configured := t.configured + CccdAt(t.device.local, handle));
    if i < |d.local| {
      var c := d.local[i];
      if c.valueHandle == handle {
        UpdateIsSafe(t, i);
        assert OnUpdate(d, i).actions == OnUpdate(t.device, i).actions;
        var o := OnUpdate(d, i);
        forall k | 0 <= k < |d.local| ensures FlagsAgree(tw.(device := o.device), k) {
          assert FlagsAgree(tw, k);
        }
      } else if c.cccdHandle == handle {
        var c' := Configured(c, data);
        var d' := d.(local := d.local[i := c']);
        assert i in CccdAt(t.device.local, handle);
        forall k | 0 <= k < |d.local| ensures FlagsAgree(tw.(device := d'), k) {
          assert FlagsAgree(tw, k);
        }
        if c'.subscribed == c.subscribed {
          WriteIsSafe(t, d', handle, data, i + 1);
        }
      } else {
        WriteIsSafe(t, d, handle, data, i + 1);
      }
    }
  }

  lemma {:induction false} UnsubscribingSendsNothing(local: seq<LocalCharacteristic>)
    ensures forall a :: a in Unsubscriptions(local) ==> a.SubscribedChanged?
  {
    if local != [] {
      UnsubscribingSendsNothing(local[..|local| - 1]);
    }
  }

  lemma {:induction false} NoPackets(actions: seq<Action>)
    requires forall a :: a in actions ==> !IsPacket(a)
    ensures Packets(actions) == 0
  {
    if actions != [] {
      NoPackets(actions[1..]);
    }
  }

  /** Every allowed event is a safe step and keeps the invariant. */
  lemma StepKeepsInv(t: Tracked, e: Event)
    requires Inv(t) && Allowed(t, e)
    ensures SafeStep(t, e) && Inv(Next(t, e))
  {
    var o := Step(t.device, e);
    match e
    case Write(handle, data) =>
      forall k | 0 <= k < |t.device.local|
        ensures FlagsAgree(t.(configured := t.configured + CccdAt(t.device.local, handle)), k)
      {
        assert FlagsAgree(t, k);
      }
      WriteIsSafe(t, t.device, handle, data, 0);
      forall k | 0 <= k < |t.device.local| ensures FlagsAgree(Next(t, e), k) {
        assert FlagsAgree(t.(device := o.device, configured := t.configured + CccdAt(t.device.local, handle)), k);
      }
    case UpdateValue(i) =>
      UpdateIsSafe(t, i);
      SameFlags(t, Next(t, e));
    case Disconnected =>
      UnsubscribingSendsNothing(t.device.local);
      NoPackets(o.actions);
    case Connected(_, _) =>
      NoPackets(o.actions);
      forall k | 0 <= k < |t.device.local| ensures FlagsAgree(Next(t, e), k) {
        assert FlagsAgree(t, k);
      }
    case WriteRemote(i) =>
      assert o.actions != [] ==> o.actions[1..] == [];
      SameFlags(t, Next(t, e));
    case ServicesResponse(_, _) =>
      NoPackets(o.actions);
      SameFlags(t, Next(t, e));
    case CharacteristicsResponse(_, _) =>
      NoPackets(o.actions);
      SameFlags(t, Next(t, e));
    case TxComplete(_) =>
      SameFlags(t, Next(t, e));
    case RemoteAnswered =>
      SameFlags(t, Next(t, e));
  }

  lemma SameFlags(t: Tracked, t': Tracked)
    requires Inv(t) && t'.device.local == t.device.local && t'.configured == t.configured
    requires t'.device.connection == t.device.connection
    ensures forall i :: 0 <= i < |t'.device.local| ==> FlagsAgree(t', i)
  {
    forall i | 0 <= i < |t'.device.local| ensures FlagsAgree(t', i) {
      assert FlagsAgree(t, i);
    }
  }

  // ---- Whole runs ---------------------------------------------------------------------------

  /** The driver as `begin` leaves it. */
  ghost predicate Initial(t: Tracked) {
    && t.device.connection == None && t.device.tx == 0
    && forall i :: 0 <= i < |t.device.local| ==>
         !t.device.local[i].notify && !t.device.local[i].indicate && !t.device.local[i].subscribed
  }

  predicate AllowedRun(t: Tracked, run: seq<Event>)
    decreases |run|
  {
    run == [] || (Allowed(t, run[0]) && AllowedRun(Next(t, run[0]), run[1..]))
  }

  function After(t: Tracked, run: seq<Event>): Tracked
    requires AllowedRun(t, run)
    decreases |run|
  {
    if run == [] then t else After(Next(t, run[0]), run[1..])
  }

  ghost predicate SafeRun(t: Tracked, run: seq<Event>)
    requires AllowedRun(t, run)
    decreases |run|
  {
    run == [] || (SafeStep(t, run[0]) && SafeRun(Next(t, run[0]), run[1..]))
  }

  lemma {:induction false} RunKeepsInv(t: Tracked, run: seq<Event>)
    requires Inv(t) && AllowedRun(t, run)
    ensures Inv(After(t, run)) && SafeRun(t, run)
    decreases |run|
  {
    if run != [] {
      StepKeepsInv(t, run[0]);
      RunKeepsInv(Next(t, run[0]), run[1..]);
    }
  }

  /** In every run from `begin`: credits balance, flags agree, and every packet was safe. */
  lemma CreditsAndSubscriptions(t: Tracked, run: seq<Event>)
    requires Initial(t) && AllowedRun(t, run)
    ensures SafeRun(t, run)
    ensures var u := After(t, run);
            && (u.device.connection.Some? ==> u.device.tx == u.credit + u.completed - u.charged)
            && (u.device.connection == None ==> u.device.tx == 0)
            && forall i :: 0 <= i < |u.device.local| ==>
                 u.device.local[i].subscribed == (u.device.local[i].notify || u.device.local[i].indicate)
  {
    RunKeepsInv(t, run);
    var u := After(t, run);
    forall i | 0 <= i < |u.device.local|
      ensures u.device.local[i].subscribed == (u.device.local[i].notify || u.device.local[i].indicate)
    {
      assert FlagsAgree(u, i);
    }
  }

  // ---- Nothing is held back either ----------------------------------------------------------------

  /** An update sends what the peer subscribed to for as long as credits last, and reports
      success exactly when it sent all of it. */
  lemma UpdateDelivers(d: Device, i: nat)
    requires i < |d.local|
    ensures var o := OnUpdate(d, i);
            && (Notify(i) in o.actions ==> d.local[i].notify) && (Indicate(i) in o.actions ==> d.local[i].indicate)
            && (d.local[i].notify && Notify(i) !in o.actions ==> o.device.tx == 0)
            && (d.local[i].indicate && Indicate(i) !in o.actions ==> o.device.tx == 0)
            && (UpdateSucceeds(d, i) <==>
                (d.local[i].notify ==> Notify(i) in o.actions) && (d.local[i].indicate ==> Indicate(i) in o.actions))
  {}

  /** The CCCD value of section 3.3.3.3 of the Bluetooth Core Specification, Vol 3, Part G: bit 0
      turns notifications on, bit 1 indications; a write to one CCCD leaves every other
      characteristic alone. */
  lemma {:induction false} WriteConfigures(d: Device, handle: Handle, data: nat, i: nat, from: nat)
    requires i < |d.local| && from <= i && d.local[i].cccdHandle == handle
    requires forall k :: 0 <= k < |d.local| ==>
               d.local[k].valueHandle != handle && (k != i ==> d.local[k].cccdHandle != handle)
    ensures var d' := OnWriteFrom(d, handle, data, from).device;
            && d' == d.(local := d'.local) && |d'.local| == |d.local|
            && (forall k :: 0 <= k < |d.local| && k != i ==> d'.local[k] == d.local[k])
            && d'.local[i].notify == (data % 2 == 1) && d'.local[i].indicate == (data / 2 % 2 == 1)
    decreases |d.local| - from
  {
    if from < i {
      WriteConfigures(d, handle, data, i, from + 1);
    } else {
      var c := Configured(d.local[i], data);
      NothingElseMatches(d.(local := d.local[i := c]), handle, data, i + 1);
    }
  }

  lemma {:induction false} NothingElseMatches(d: Device, handle: Handle, data: nat, from: nat)
    requires from <= |d.local|
    requires forall k :: from <= k < |d.local| ==> d.local[k].valueHandle != handle && d.local[k].cccdHandle != handle
    ensures OnWriteFrom(d, handle, data, from) == Outcome(d, [])
    decreases |d.local| - from
  {
    if from < |d.local| {
      NothingElseMatches(d, handle, data, from + 1);
    }
  }

  /** A write to a characteristic value goes out again to its own subscribers. */
  lemma {:induction false} ValueWriteEchoes(d: Device, handle: Handle, data: nat, i: nat, from: nat)
    requires i < |d.local| && from <= i && d.local[i].valueHandle == handle
    requires forall k :: from <= k < i ==> d.local[k].valueHandle != handle && d.local[k].cccdHandle != handle
    ensures OnWriteFrom(d, handle, data, from) == OnUpdate(d, i)
    decreases i - from
  {
    if from < i {
      ValueWriteEchoes(d, handle, data, i, from + 1);
    }
  }

  /** Disconnecting tells exactly the characteristics that were subscribed to. */
  lemma {:induction false} UnsubscriptionsExact(local: seq<LocalCharacteristic>, i: nat, on: bool)
    ensures SubscribedChanged(i, on) in Unsubscriptions(local) <==> !on && i < |local| && local[i].subscribed
  {
    if local != [] {
      UnsubscriptionsExact(local[..|local| - 1], i, on);
    }
  }
}

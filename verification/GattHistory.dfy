/** What the driver of libraries/BLE/nRF51822.cpp remembers against what it has been told and has
    told others: over every run its state is a function of the events and of its own actions. */
module GattHistory {
  import opened Bytes
  import opened Gatt

  /** The driver, the link that is open, the characteristics whose listener last heard "subscribed",
      and whether a remote write is still unanswered. */
  datatype History = History(device: Device, link: Option<nat>, subscribers: set<nat>, awaiting: bool)

  function Hear(subscribers: set<nat>, a: Action): set<nat> {
    if !a.SubscribedChanged? then subscribers
    else if a.on then subscribers + {a.which}
    else subscribers - {a.which}
  }

  /** The listener's view after hearing the actions in order. */
  function Told(subscribers: set<nat>, actions: seq<Action>): set<nat>
    decreases |actions|
  {
    if actions == [] then subscribers else Told(Hear(subscribers, actions[0]), actions[1..])
  }

  predicate WritesRemotely(actions: seq<Action>) { exists a :: a in actions && a.RemoteWrite? }

  function Next(h: History, e: Event): History
    requires Meaningful(h.device, e)
  {
    var o := Step(h.device, e);
    History(o.device,
            match e { case Connected(conn, _) => Some(conn) case Disconnected => None case _ => h.link },
            Told(h.subscribers, o.actions),
            if e.RemoteAnswered? || e.Disconnected? then false else h.awaiting || WritesRemotely(o.actions))
  }

  ghost predicate SameHandles(d: Device, u: Device) {
    && |u.local| == |d.local|
    && forall i :: 0 <= i < |d.local| ==>
         u.local[i].valueHandle == d.local[i].valueHandle && u.local[i].cccdHandle == d.local[i].cccdHandle
  }

  /** The listener's view is the `subscribed` flags. */
  ghost predicate InStep(d: Device, subscribers: set<nat>) {
    forall i: nat :: i < |d.local| ==> (d.local[i].subscribed <==> i in subscribers)
  }

  /** `d` is the device as `begin` leaves it. */
  ghost predicate Inv(d: Device, h: History) {
    && SameHandles(d, h.device)
    && h.device.connection == h.link
    && h.device.requestInProgress == h.awaiting
    && InStep(h.device, h.subscribers)
  }

  // ---- Writes by the peer -----------------------------------------------------------------------

  /** The listener hears of a change only when there is one. */
  ghost predicate Changes(d: Device, a: Action) {
    a.SubscribedChanged? ==> a.which < |d.local| && a.on != d.local[a.which].subscribed
  }

  lemma UpdateTellsNobody(d: Device, i: nat, subscribers: set<nat>)
    ensures var o := OnUpdate(d, i);
            && o.device == d.(tx := o.device.tx) && Told(subscribers, o.actions) == subscribers
            && !WritesRemotely(o.actions) && forall a :: a in o.actions ==> !a.SubscribedChanged?
  {
    var o := OnUpdate(d, i);
    assert |o.actions| <= 2 && forall a :: a in o.actions ==> a.Notify? || a.Indicate?;
    NobodyTold(subscribers, o.actions);
  }

  lemma {:induction false} NobodyTold(subscribers: set<nat>, actions: seq<Action>)
    requires forall a :: a in actions ==> !a.SubscribedChanged?
    ensures Told(subscribers, actions) == subscribers
    decreases |actions|
  {
    if actions != [] {
      NobodyTold(subscribers, actions[1..]);
    }
  }

  lemma {:induction false} ToldLast(subscribers: set<nat>, actions: seq<Action>, a: Action)
    ensures Told(subscribers, actions + [a]) == Hear(Told(subscribers, actions), a)
    decreases |actions|
  {
    if actions == [] {
      assert actions + [a] == [a] && [a][1..] == [];
    } else {
      assert (actions + [a])[1..] == actions[1..] + [a];
      ToldLast(Hear(subscribers, actions[0]), actions[1..], a);
    }
  }

  lemma {:induction false} WriteKeepsStep(d: Device, handle: Handle, data: nat, i: nat, subscribers: set<nat>)
    requires i <= |d.local| && InStep(d, subscribers)
    ensures var o := OnWriteFrom(d, handle, data, i);
            && o.device == d.(tx := o.device.tx, local := o.device.local) && SameHandles(d, o.device)
            && InStep(o.device, Told(subscribers, o.actions)) && !WritesRemotely(o.actions)
            && forall a :: a in o.actions ==> Changes(d, a)
    decreases |d.local| - i
  {
    if i < |d.local| {
      var c := d.local[i];
      if c.valueHandle == handle {
        UpdateTellsNobody(d, i, subscribers);
      } else if c.cccdHandle == handle {
        var c' := Configured(c, data);
        var d' := d.(local := d.local[i := c']);
        if c'.subscribed != c.subscribed {
          ToldLast(subscribers, [], SubscribedChanged(i, c'.subscribed));
        } else {
          WriteKeepsStep(d', handle, data, i + 1, subscribers);
        }
      } else {
        WriteKeepsStep(d, handle, data, i + 1, subscribers);
      }
    }
  }

  // ---- Disconnection ----------------------------------------------------------------------------

  /** Each characteristic that was subscribed is told once, in order. */
  lemma {:induction false} UnsubscribedInOrder(local: seq<LocalCharacteristic>, us: seq<Action>)
    requires us == Unsubscriptions(local)
    ensures forall x :: 0 <= x < |us| ==> Unsubscribes(local, us[x])
    ensures forall x, y :: 0 <= x < y < |us| ==>
              us[x].SubscribedChanged? && us[y].SubscribedChanged? && us[x].which < us[y].which
  {
    if local != [] {
      var n := |local| - 1;
      var before := Unsubscriptions(local[..n]);
      UnsubscribedInOrder(local[..n], before);
      forall x | 0 <= x < |us| ensures Unsubscribes(local, us[x]) && (x < |before| ==> us[x] == before[x]) {
        assert x < |before| ==> Unsubscribes(local[..n], before[x]);
      }
    }
  }

  ghost predicate Unsubscribes(local: seq<LocalCharacteristic>, a: Action) {
    a.SubscribedChanged? && a.which < |local| && !a.on && local[a.which].subscribed
  }

  lemma {:induction false} UnsubscribingTells(local: seq<LocalCharacteristic>, subscribers: set<nat>)
    ensures Told(subscribers, Unsubscriptions(local)) ==
              set i | i in subscribers && (i < |local| ==> !local[i].subscribed)
  {
    if local != [] {
      var n := |local| - 1;
      var us := Unsubscriptions(local[..n]);
      UnsubscribingTells(local[..n], subscribers);
      assert forall i :: 0 <= i < n ==> local[..n][i] == local[i];
      if local[n].subscribed {
        ToldLast(subscribers, us, SubscribedChanged(n, false));
      } else {
        assert Unsubscriptions(local) == us;
      }
    }
  }

  // ---- Whole runs -------------------------------------------------------------------------------

  lemma StepKeepsInv(d: Device, h: History, e: Event)
    requires Inv(d, h) && Meaningful(h.device, e)
    ensures Inv(d, Next(h, e))
    ensures forall a :: a in Step(h.device, e).actions ==> Changes(h.device, a)
  {
    var o := Step(h.device, e);
    match e
    case Write(handle, data) => WriteKeepsStep(h.device, handle, data, 0, h.subscribers);
    case UpdateValue(i) => UpdateTellsNobody(h.device, i, h.subscribers);
    case Disconnected =>
      UnsubscribingTells(h.device.local, h.subscribers);
      UnsubscribedInOrder(h.device.local, o.actions);
    case WriteRemote(_) => NobodyTold(h.subscribers, o.actions);
    case _ => NobodyTold(h.subscribers, o.actions);
  }

  predicate MeaningfulRun(h: History, run: seq<Event>)
    decreases |run|
  {
    run == [] || (Meaningful(h.device, run[0]) && MeaningfulRun(Next(h, run[0]), run[1..]))
  }

  function After(h: History, run: seq<Event>): History
    requires MeaningfulRun(h, run)
    decreases |run|
  {
    if run == [] then h else After(Next(h, run[0]), run[1..])
  }

  lemma {:induction false} RunKeepsInv(d: Device, h: History, run: seq<Event>)
    requires Inv(d, h) && MeaningfulRun(h, run)
    ensures Inv(d, After(h, run))
    decreases |run|
  {
    hide Inv, Next, Meaningful;
    if run != [] {
      StepKeepsInv(d, h, run[0]);
      RunKeepsInv(d, Next(h, run[0]), run[1..]);
    }
  }

  /** In every run from `begin`: the connection is the one last reported, a characteristic is
      subscribed exactly when its listener last heard so, the request mark stands exactly while a
      remote write is unanswered, and no local handle ever changes. */
  lemma StateIsHistory(d: Device, run: seq<Event>)
    requires d.connection == None && !d.requestInProgress
    requires forall i :: 0 <= i < |d.local| ==> !d.local[i].subscribed
    requires MeaningfulRun(History(d, None, {}, false), run)
    ensures Inv(d, After(History(d, None, {}, false), run))
  {
    hide Next, Step;
    RunKeepsInv(d, History(d, None, {}, false), run);
  }

  // ---- Single calls -----------------------------------------------------------------------------

  /** What the peer asked to be sent on a new value: the notification first. */
  function Wanted(c: LocalCharacteristic, i: nat): seq<Action> {
    (if c.notify then [Notify(i)] else []) + (if c.indicate then [Indicate(i)] else [])
  }

  /** An update sends what is wanted, in order, as far as the credits go, and charges each packet. */
  lemma UpdateSendsWanted(d: Device, i: nat)
    requires i < |d.local|
    ensures var o, w := OnUpdate(d, i), Wanted(d.local[i], i);
            var n := if |w| <= d.tx then |w| else d.tx;
            o.actions == w[..n] && o.device == d.(tx := d.tx - n)
  {}

  /** A CCCD write tells the listener the new state if it is new, and nothing otherwise. */
  lemma {:induction false} CccdWriteTells(d: Device, handle: Handle, data: nat, i: nat, from: nat)
    requires i < |d.local| && d.local[i].cccdHandle == handle && from <= |d.local|
    requires forall k :: 0 <= k < |d.local| ==>
               d.local[k].valueHandle != handle && (k != i ==> d.local[k].cccdHandle != handle)
    ensures var on := data % 2 == 1 || data / 2 % 2 == 1;
            OnWriteFrom(d, handle, data, from).actions ==
              if from <= i && on != d.local[i].subscribed then [SubscribedChanged(i, on)] else []
    decreases |d.local| - from
  {
    if from < |d.local| {
      if from == i {
        var d' := d.(local := d.local[i := Configured(d.local[i], data)]);
        CccdWriteTells(d', handle, data, i, from + 1);
      } else {
        CccdWriteTells(d, handle, data, i, from + 1);
      }
    }
  }

  /** A declaration fills the first registered service with its UUID and no other entry. */
  lemma DeclarationFillsFirst(services: seq<RemoteService>, s: ServiceDecl)
    ensures (forall j :: 0 <= j < |services| ==> services[j].uuid != s.uuid) ==> RecordService(services, s) == services
    ensures forall p: nat :: p < |services| && services[p].uuid == s.uuid && s.uuid !in Uuids(services[..p]) ==>
              RecordService(services, s) == services[p := services[p].(range := s.range)]
  {
    forall p: nat | p < |services| && services[p].uuid == s.uuid && s.uuid !in Uuids(services[..p])
      ensures RecordService(services, s) == services[p := services[p].(range := s.range)]
    {
      assert forall k :: 0 <= k < p ==> services[..p][k] == services[k] && services[k].uuid in Uuids(services[..p]);
      assert FirstWith(services, s.uuid, p);
    }
  }

  function Uuids(services: seq<RemoteService>): set<Uuid> {
    set j | 0 <= j < |services| :: services[j].uuid
  }

  /** Every discovery response is answered by one action -- the next request, the end of discovery
      or the failing status -- and a failing status changes nothing; only a sweep that found no
      registered service ends without a word. */
  lemma ResponsesAreAnswered(d: Device, e: Event)
    requires Meaningful(d, e) && (e.ServicesResponse? || e.CharacteristicsResponse?)
    ensures var o := Step(d, e);
            var status := if e.ServicesResponse? then e.serviceStatus else e.characteristicStatus;
            var ends := if e.ServicesResponse? then InvalidHandle else AttributeNotFound;
            && (status != Success && status != ends ==> o == Outcome(d, [Message(status)]))
            && (status == Success || status == ends ==> forall a :: a in o.actions ==> !a.Message?)
            && (|o.actions| == 1 ||
                (o.actions == [] && e.ServicesResponse? && forall j :: 0 <= j < |d.services| ==> !Found(d.services[j])))
  {}

  function Sum(counts: seq<Byte>): nat { if counts == [] then 0 else counts[0] + Sum(counts[1..]) }

  function Completions(counts: seq<Byte>): (run: seq<Event>)
    ensures |run| == |counts|
  {
    if counts == [] then [] else [TxComplete(counts[0])] + Completions(counts[1..])
  }

  /** The credit is an 8-bit counter: completions add up modulo 256, and change nothing else. */
  lemma {:induction false} CompletionsAddUp(h: History, counts: seq<Byte>)
    ensures MeaningfulRun(h, Completions(counts))
    ensures After(h, Completions(counts)) == h.(device := h.device.(tx := (h.device.tx + Sum(counts)) % 256))
    decreases |counts|
  {
    if counts != [] {
      NextOnCompletion(h, counts[0]);
      hide Next, Meaningful;
      var h' := Next(h, TxComplete(counts[0]));
      assert Completions(counts)[1..] == Completions(counts[1..]);
      CompletionsAddUp(h', counts[1..]);
      AddModulo(h.device.tx, counts[0], Sum(counts[1..]));
    }
  }

  lemma NextOnCompletion(h: History, count: Byte)
    ensures Meaningful(h.device, TxComplete(count))
    ensures Next(h, TxComplete(count)) == h.(device := h.device.(tx := (h.device.tx + count) % 256))
  {}

  lemma AddModulo(x: nat, y: nat, z: nat)
    ensures ((x + y) % 256 + z) % 256 == (x + (y + z)) % 256
  {}

  /** A successful characteristic response with no entries repeats the request for the whole service. */
  lemma EmptyResponseAsksAgain(d: Device)
    requires d.index < |d.services|
    ensures Step(d, CharacteristicsResponse(Success, [])) ==
              Outcome(d, [DiscoverCharacteristics(d.services[d.index].range)])
  {}
}

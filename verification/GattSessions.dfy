/** Discovery inside whole runs of the driver: connections come and go, to one peer or another,
    and writes, completions and sends fall between the discovery replies. */
module GattSessions {
  import opened Bytes
  import opened Gatt
  import D = GattDiscovery

  /** The peer of the current connection, discovery on it, and the replies it has given. */
  datatype Session = Session(peer: Option<D.Server>, discovery: D.Discovery, answered: nat)

  datatype Item =
    | Connect(server: D.Server, conn: nat, credit: Byte)
    | Drop
    | Answer(reply: D.Reply)
    | Aside(event: Event)

  /** Everything `poll` handles that is not part of discovery, and the two sending calls. */
  predicate IsAside(e: Event) {
    e.TxComplete? || e.Write? || e.RemoteAnswered? || e.UpdateValue? || e.WriteRemote?
  }

  ghost predicate Possible(s: Session, i: Item) {
    match i
    case Connect(server, _, _) => s.peer == None && D.Conforming(server)
    case Drop => s.peer.Some?
    case Answer(r) => s.peer.Some? && D.CanTake(s.peer.value, s.discovery, r)
    case Aside(e) => IsAside(e)
  }

  /** The last request among the actions, if any, becomes the outstanding one. */
  function Requested(actions: seq<Action>, before: Option<Action>): Option<Action> {
    if actions == [] then before
    else if D.IsRequest(actions[|actions| - 1]) then Some(actions[|actions| - 1])
    else Requested(actions[..|actions| - 1], before)
  }

  ghost function Next(s: Session, i: Item): Session
    requires Possible(s, i)
  {
    match i
    case Connect(server, conn, credit) => Session(Some(server), D.Start(s.discovery.device, conn, credit), 0)
    case Drop => Session(None, D.Discovery(OnDisconnected(s.discovery.device).device, None, 0, None), 0)
    case Answer(r) => s.(discovery := D.Next(s.peer.value, s.discovery, r), answered := s.answered + 1)
    case Aside(e) =>
      var o := Step(s.discovery.device, e);
      s.(discovery := s.discovery.(device := o.device, pending := Requested(o.actions, s.discovery.pending),
                                   raised := s.discovery.raised + D.Raised(o.actions)))
  }

  ghost predicate PossibleRun(s: Session, run: seq<Item>)
    decreases |run|
  {
    run == [] || (Possible(s, run[0]) && PossibleRun(Next(s, run[0]), run[1..]))
  }

  ghost function After(s: Session, run: seq<Item>): Session
    requires PossibleRun(s, run)
    decreases |run|
  {
    if run == [] then s else After(Next(s, run[0]), run[1..])
  }

  // ---- Asides leave discovery alone -----------------------------------------------------------

  predicate Quiet(actions: seq<Action>) {
    forall a :: a in actions ==> !D.IsRequest(a) && a != RemoteServicesDiscovered
  }

  lemma {:induction false} QuietActions(actions: seq<Action>, before: Option<Action>)
    requires Quiet(actions)
    ensures Requested(actions, before) == before && D.Raised(actions) == 0
    decreases |actions|
  {
    if actions != [] {
      QuietActions(actions[..|actions| - 1], before);
      QuietActions(actions[1..], before);
    }
  }

  /** Only the link's own state changes: flags, credits, the request mark. */
  predicate SameDiscovery(d: Device, d': Device) {
    d' == d.(tx := d'.tx, local := d'.local, requestInProgress := d'.requestInProgress)
  }

  lemma {:induction false} WriteIsAside(d: Device, handle: Handle, data: nat, i: nat)
    requires i <= |d.local|
    ensures var o := OnWriteFrom(d, handle, data, i); SameDiscovery(d, o.device) && Quiet(o.actions)
    decreases |d.local| - i
  {
    if i < |d.local| && d.local[i].valueHandle != handle {
      var d' := if d.local[i].cccdHandle == handle
                then d.(local := d.local[i := Configured(d.local[i], data)]) else d;
      WriteIsAside(d', handle, data, i + 1);
    }
  }

  /** Neither a table, nor the index, nor a request, nor the listener call of discovery. */
  lemma AsideChangesNothing(d: Device, e: Event)
    requires IsAside(e)
    ensures Meaningful(d, e) && SameDiscovery(d, Step(d, e).device) && Quiet(Step(d, e).actions)
  {
    if e.Write? {
      WriteIsAside(d, e.handle, e.data, 0);
    }
  }

  // ---- The invariant ----------------------------------------------------------------------------

  /** The device with its remote tables cleared. */
  function Base(d: Device): Device {
    d.(services := OnDisconnected(d).device.services, characteristics := OnDisconnected(d).device.characteristics)
  }

  /** The registered keys never change. */
  predicate SameKeys(d: Device, u: Device) {
    Base(u).services == d.services && Base(u).characteristics == d.characteristics
  }

  /** `d` is the device as it was registered. */
  ghost predicate Inv(d: Device, s: Session) {
    var u := s.discovery.device;
    && SameKeys(d, u)
    && match s.peer
       case None => D.Registered(u) && s.discovery.pending == None
       case Some(server) =>
         && D.Conforming(server) && s.answered + D.Measure(s.discovery) < (|d.services| + 2) * 0x10000
         && if d.services == [] then D.Registered(u) && s.discovery == D.Discovery(u, None, 0, None)
            else D.Inv(server, Base(u), s.discovery)
  }

  lemma SameKeysRegistered(d: Device, u: Device)
    requires D.Registered(d) && SameKeys(d, u)
    ensures D.Registered(Base(u)) && |u.services| == |d.services|
  {}

  lemma InvElsewhere(server: D.Server, d: Device, s: D.Discovery, d': Device)
    requires D.Inv(server, d, s) && d'.index == s.device.index
    requires d'.services == d.services && d'.characteristics == d.characteristics
    ensures var u := d'.(services := s.device.services, characteristics := s.device.characteristics);
            D.Inv(server, d', s.(device := u))
  {
    hide D.ServiceTable, D.CharacteristicTable, NextFound;
    var s' := s.(device := d'.(services := s.device.services, characteristics := s.device.characteristics));
    if k :| D.SweepingServices(server, d, s, k) {
      assert D.SweepingServices(server, d', s', k);
    } else if a, k :| D.SweepingCharacteristics(server, d, s, a, k) {
      assert D.SweepingCharacteristics(server, d', s', a, k);
    } else if D.Complete(server, d, s) {
      assert D.Complete(server, d', s');
    } else {
      assert D.Stalled(server, d', s');
    }
  }

  /** Whatever discovery has filled in, clearing it gives the registered tables again. */
  lemma InvKeepsKeys(server: D.Server, d: Device, s: D.Discovery)
    requires D.Registered(d) && D.Inv(server, d, s)
    ensures Base(s.device) == d.(index := s.device.index)
  {
    hide D.FindRange, D.Owner, NextFound;
    var b := Base(s.device);
    assert |s.device.services| == |d.services| && |s.device.characteristics| == |d.characteristics|;
    assert forall j :: 0 <= j < |d.services| ==> b.services[j] == d.services[j];
    assert forall j :: 0 <= j < |d.characteristics| ==> b.characteristics[j] == d.characteristics[j];
  }

  lemma AnswerKeepsInv(d: Device, s: Session, r: D.Reply)
    requires D.Registered(d) && Inv(d, s) && Possible(s, Answer(r))
    ensures Inv(d, Next(s, Answer(r)))
  {
    hide D.Registered, D.Conforming, D.CanTake, D.Next, D.Inv, D.Measure, Base;
    var server, b := s.peer.value, Base(s.discovery.device);
    SameKeysRegistered(d, s.discovery.device);
    Answerable(server, s.discovery, r);
    D.StepKeepsInv(server, b, s.discovery, r);
    var n := D.Next(server, s.discovery, r);
    InvKeepsKeys(server, b, n);
    InvElsewhere(server, b, n, Base(n.device));
    BaseRestores(n.device);
  }

  lemma Answerable(server: D.Server, s: D.Discovery, r: D.Reply)
    requires D.CanTake(server, s, r)
    ensures s.pending.Some?
  {}

  lemma BaseRestores(u: Device)
    ensures Base(u).(services := u.services, characteristics := u.characteristics) == u
    ensures Base(u).index == u.index
  {}

  lemma NextOnAside(s: Session, e: Event)
    requires IsAside(e)
    ensures Meaningful(s.discovery.device, e) && SameDiscovery(s.discovery.device, Step(s.discovery.device, e).device)
    ensures Next(s, Aside(e)) == s.(discovery := s.discovery.(device := Step(s.discovery.device, e).device))
  {
    AsideChangesNothing(s.discovery.device, e);
    QuietActions(Step(s.discovery.device, e).actions, s.discovery.pending);
  }

  lemma SameTablesMeasure(s: D.Discovery, u: Device)
    requires SameDiscovery(s.device, u)
    ensures D.Measure(s.(device := u)) == D.Measure(s)
    ensures D.Registered(s.device) ==> D.Registered(u)
    ensures Base(u) == u.(services := Base(s.device).services, characteristics := Base(s.device).characteristics)
  {}

  lemma AsideKeepsInv(d: Device, s: Session, e: Event)
    requires D.Registered(d) && Inv(d, s) && IsAside(e)
    ensures Inv(d, Next(s, Aside(e)))
  {
    var u := s.discovery.device;
    var u' := Step(u, e).device;
    NextOnAside(s, e);
    SameTablesMeasure(s.discovery, u');
    hide D.Conforming, D.Inv, D.Registered, D.Measure, Step, Base, Next;
    if s.peer.Some? && d.services != [] {
      InvElsewhere(s.peer.value, Base(u), s.discovery, Base(u'));
    }
  }

  lemma ConnectKeepsInv(d: Device, s: Session, server: D.Server, conn: nat, credit: Byte)
    requires D.Registered(d) && Inv(d, s) && Possible(s, Connect(server, conn, credit))
    ensures Inv(d, Next(s, Connect(server, conn, credit)))
  {
    var u := s.discovery.device;
    var n := D.Start(u, conn, credit);
    if d.services != [] {
      D.StartKeepsInv(server, u, conn, credit);
      hide D.Inv;
      assert Base(n.device) == n.device;
    }
  }

  lemma StepKeepsInv(d: Device, s: Session, i: Item)
    requires D.Registered(d) && Inv(d, s) && Possible(s, i)
    ensures Inv(d, Next(s, i))
  {
    match i
    case Connect(server, conn, credit) => ConnectKeepsInv(d, s, server, conn, credit);
    case Drop => D.DisconnectRegisters(s.discovery.device);
    case Answer(r) => AnswerKeepsInv(d, s, r);
    case Aside(e) => AsideKeepsInv(d, s, e);
  }

  lemma {:induction false} RunKeepsInv(d: Device, s: Session, run: seq<Item>)
    requires D.Registered(d) && Inv(d, s) && PossibleRun(s, run)
    ensures Inv(d, After(s, run))
    decreases |run|
  {
    hide Inv, Next, Possible, D.Registered;
    if run != [] {
      StepKeepsInv(d, s, run[0]);
      RunKeepsInv(d, Next(s, run[0]), run[1..]);
    }
  }

  // ---- Main result ------------------------------------------------------------------------------

  /** Nobody connected yet. */
  function Fresh(d: Device): Session { Session(None, D.Discovery(d, None, 0, None), 0) }

  /** In every run, whatever was connected before and whatever happens in between: discovery on
      the current connection takes boundedly many replies, can always go on or is settled, and
      settles on the tables of the current peer. */
  lemma EveryConnectionDiscovers(d: Device, run: seq<Item>)
    requires D.Registered(d) && PossibleRun(Fresh(d), run)
    ensures var s := After(Fresh(d), run);
            match s.peer
            case None => D.Registered(s.discovery.device)
            case Some(server) =>
              && s.answered < (|d.services| + 2) * 0x10000
              && if s.discovery.pending.Some?
                 then s.discovery.raised == 0 && exists r :: Possible(s, Answer(r))
                 else D.Settled(server, d, s.discovery)
  {
    hide D.Conforming, D.Registered, D.Inv;
    assert Inv(d, Fresh(d)) by { RegisteredIsBase(d); }
    RunKeepsInv(d, Fresh(d), run);
    var s := After(Fresh(d), run);
    if s.peer.Some? {
      InvSettles(d, s);
    }
  }

  lemma RegisteredIsBase(d: Device)
    requires D.Registered(d)
    ensures SameKeys(d, d)
  {}

  lemma InvSettles(d: Device, s: Session)
    requires D.Registered(d) && Inv(d, s) && s.peer.Some?
    ensures if s.discovery.pending.Some? then s.discovery.raised == 0 && exists r :: Possible(s, Answer(r))
            else D.Settled(s.peer.value, d, s.discovery)
  {
    var server, u := s.peer.value, s.discovery.device;
    SameKeysRegistered(d, u);
    if d.services != [] {
      hide D.Conforming, D.Registered, D.Inv, Base, D.CanTake;
      D.InvMeans(server, Base(u), s.discovery);
      D.SameTables(server, Base(u), d, u);
      D.SameTables(server, d, Base(u), u);
      if s.discovery.pending.Some? {
        var r :| D.CanTake(server, s.discovery, r);
        assert Possible(s, Answer(r));
      }
    } else {
      RegisteredIsBase(u);
      NothingToFind(server, d, s.discovery);
    }
  }

  lemma NothingToFind(server: D.Server, d: Device, s: D.Discovery)
    requires d.services == [] && s.device.services == [] && s.device.characteristics == d.characteristics
    requires s.raised == 0 && s.sweepEnd == None
    ensures D.Settled(server, d, s)
  {}

  /** On every connection of every run, once discovery has settled in full, a remote write goes to
      the current peer's own handle. */
  lemma EveryWriteReachesPeer(d: Device, run: seq<Item>, j: nat, i: nat, c: nat)
    requires D.Registered(d) && PossibleRun(Fresh(d), run)
    requires var s := After(Fresh(d), run);
             && s.peer.Some? && s.discovery.pending == None && s.discovery.sweepEnd == Some(InvalidHandle)
             && D.Serves(s.peer.value, d, s.discovery.device, j, i, c) && s.discovery.device.tx > 0
    ensures var s := After(Fresh(d), run);
            var x := s.peer.value.characteristics[c];
            Step(s.discovery.device, WriteRemote(j)).actions ==
              if x.properties.write || x.properties.writeWithoutResponse
              then [RemoteWrite(x.value, x.properties.write)] else []
  {
    hide D.Conforming, D.Registered, D.Inv, D.ServicesCorrect, D.CharacteristicsCorrect, D.Serves, Step;
    assert Inv(d, Fresh(d)) by { RegisteredIsBase(d); }
    RunKeepsInv(d, Fresh(d), run);
    var s := After(Fresh(d), run);
    InvSettles(d, s);
    ServesExists(s.peer.value, d, s.discovery.device, j, i, c);
    D.WriteReachesServer(s.peer.value, d, s.discovery.device, j, i, c);
  }

  lemma ServesExists(server: D.Server, d: Device, u: Device, j: nat, i: nat, c: nat)
    requires D.Serves(server, d, u, j, i, c)
    ensures c < |server.characteristics|
  {}

  // ---- Peers that answer by the Attribute Protocol ------------------------------------------------

  ghost predicate AttItem(s: Session, i: Item) { i.Answer? ==> D.AttReply(s.discovery, i.reply) }

  ghost predicate AttRun(s: Session, run: seq<Item>)
    requires PossibleRun(s, run)
    decreases |run|
  {
    run == [] || (AttItem(s, run[0]) && AttRun(Next(s, run[0]), run[1..]))
  }

  ghost predicate Explained(s: Session) { s.peer.Some? ==> D.EndExplained(s.peer.value, s.discovery) }

  lemma AttStepExplained(d: Device, s: Session, i: Item)
    requires D.Registered(d) && Inv(d, s) && Possible(s, i) && AttItem(s, i) && Explained(s)
    ensures Explained(Next(s, i))
  {
    if i.Answer? {
      hide D.Registered, D.Conforming, D.CanTake, D.Next, D.Inv, D.Measure, D.EndExplained, D.AttReply, Base;
      Answerable(s.peer.value, s.discovery, i.reply);
      SameKeysRegistered(d, s.discovery.device);
      D.AttStep(s.peer.value, Base(s.discovery.device), s.discovery, i.reply);
    } else if i.Aside? {
      NextOnAside(s, i.event);
    }
  }

  lemma {:induction false} AttRunExplained(d: Device, s: Session, run: seq<Item>)
    requires D.Registered(d) && Inv(d, s) && PossibleRun(s, run) && AttRun(s, run) && Explained(s)
    ensures Explained(After(s, run))
    decreases |run|
  {
    hide Inv, Next, Possible, Explained, AttItem, D.Registered;
    if run != [] {
      StepKeepsInv(d, s, run[0]);
      AttStepExplained(d, s, run[0]);
      AttRunExplained(d, Next(s, run[0]), run[1..]);
    }
  }

  /** The exact condition on every connection of every run: once discovery is settled, the listener
      has been told -- once -- if and only if the current peer has a registered service and its last
      service ends at handle 0xFFFF. */
  lemma EveryAttConnectionRaisesIff(d: Device, run: seq<Item>)
    requires D.Registered(d) && PossibleRun(Fresh(d), run) && AttRun(Fresh(d), run)
    ensures var s := After(Fresh(d), run);
            s.peer.Some? && s.discovery.pending == None ==>
              s.discovery.raised == if D.ReachesTop(s.peer.value) && D.Offers(s.peer.value, d) then 1 else 0
  {
    hide D.Conforming, D.Registered, D.Inv, D.ReachesTop, D.ServicesCorrect, D.CharacteristicsCorrect;
    assert Inv(d, Fresh(d)) by { RegisteredIsBase(d); }
    RunKeepsInv(d, Fresh(d), run);
    AttRunExplained(d, Fresh(d), run);
    var s := After(Fresh(d), run);
    if s.peer.Some? && s.discovery.pending == None {
      InvSettles(d, s);
      if d.services != [] {
        SweepHasEnded(s.peer.value, Base(s.discovery.device), s.discovery);
      }
    }
  }

  lemma SweepHasEnded(server: D.Server, d: Device, s: D.Discovery)
    requires D.Inv(server, d, s) && s.pending == None
    ensures s.sweepEnd.Some?
  {
    hide D.ServiceTable, D.CharacteristicTable, NextFound;
  }
}

/** The discovery protocol of libraries/BLE/nRF51822.cpp against an abstract GATT server
    (Bluetooth Core Specification, Vol 3, Part G, sections 4.4.1 and 4.6.1): sweep the primary
    services, then the characteristics of every service that was found. */
module GattDiscovery {
  import opened Bytes
  import opened Gatt

  /** The attribute database of the peer, both lists in handle order. */
  datatype Server = Server(services: seq<ServiceDecl>, characteristics: seq<CharacteristicDecl>)

  predicate In(c: CharacteristicDecl, r: Range) { r.start <= c.decl <= r.end }

  ghost predicate Conforming(server: Server) {
    var ss, cs := server.services, server.characteristics;
    && (forall i :: 0 <= i < |ss| ==> 1 <= ss[i].range.start <= ss[i].range.end)
    && (forall i, j :: 0 <= i < j < |ss| ==> ss[i].range.end < ss[j].range.start && ss[i].uuid != ss[j].uuid)
    && (forall i :: 0 <= i < |cs| ==> 1 <= cs[i].decl < cs[i].value)
    && (forall i, j :: 0 <= i < j < |cs| ==> cs[i].value < cs[j].decl)
    && (forall i, j :: 0 <= i < |ss| && 0 <= j < |cs| && In(cs[j], ss[i].range) ==> cs[j].value <= ss[i].range.end)
    && (forall i, j, k :: 0 <= i < |ss| && 0 <= j < k < |cs| && In(cs[j], ss[i].range) && In(cs[k], ss[i].range) ==>
          cs[j].uuid != cs[k].uuid)
  }

  /** The table that `begin`, or the last disconnection, leaves. */
  ghost predicate Registered(d: Device) {
    && (forall i :: 0 <= i < |d.services| ==> d.services[i].range == NO_RANGE)
    && (forall i, j :: 0 <= i < j < |d.services| ==>
          d.services[i].uuid != d.services[j].uuid && d.services[i].service != d.services[j].service)
    && (forall i :: 0 <= i < |d.characteristics| ==>
          d.characteristics[i].properties == NO_PROPERTIES && d.characteristics[i].valueHandle == 0)
  }

  // ---- The protocol -----------------------------------------------------------------------

  /** The driver, its outstanding request, the listener calls so far and how the first sweep ended. */
  datatype Discovery = Discovery(device: Device, pending: Option<Action>, raised: nat, sweepEnd: Option<Status>)

  /** A reply carries entries `k .. k + n` of the server's list, or ends the sweep. */
  datatype Reply =
    | Services(k: nat, n: nat)
    | ServicesEnd(status: Status)
    | Characteristics(k: nat, n: nat)
    | CharacteristicsEnd

  predicate StartsAt(server: Server, from: Handle, k: nat) {
    && k < |server.services| && server.services[k].range.start >= from
    && (k > 0 ==> server.services[k - 1].range.start < from)
  }

  /** `r` answers the outstanding request: a non-empty run of the entries that come next, in
      order and of any length, or an error when there is none. Handle 0 is never searched. */
  ghost predicate Answers(server: Server, s: Discovery, r: Reply) {
    s.pending.Some? &&
    match (s.pending.value, r)
    case (DiscoverServices(from), Services(k, n)) =>
      from != 0 && n >= 1 && k + n <= |server.services| && StartsAt(server, from, k)
    case (DiscoverServices(from), ServicesEnd(status)) =>
      && status != Success
      && (from == 0 || forall i :: 0 <= i < |server.services| ==> server.services[i].range.start < from)
    case (DiscoverCharacteristics(range), Characteristics(k, n)) =>
      && n >= 1 && k + n <= |server.characteristics|
      && range.start <= server.characteristics[k].decl && server.characteristics[k + n - 1].decl <= range.end
      && (k > 0 ==> server.characteristics[k - 1].decl < range.start)
    case (DiscoverCharacteristics(range), CharacteristicsEnd) =>
      forall i :: 0 <= i < |server.characteristics| ==> !In(server.characteristics[i], range)
    case _ => false
  }

  function EventOf(server: Server, r: Reply): Event
    requires r.Services? ==> r.k + r.n <= |server.services|
    requires r.Characteristics? ==> r.k + r.n <= |server.characteristics|
  {
    match r
    case Services(k, n) => ServicesResponse(Success, server.services[k..k + n])
    case ServicesEnd(status) => ServicesResponse(status, [])
    case Characteristics(k, n) => CharacteristicsResponse(Success, server.characteristics[k..k + n])
    case CharacteristicsEnd => CharacteristicsResponse(AttributeNotFound, [])
  }

  predicate IsRequest(a: Action) { a.DiscoverServices? || a.DiscoverCharacteristics? }

  function Pending(actions: seq<Action>): Option<Action> {
    if actions != [] && IsRequest(actions[0]) then Some(actions[0]) else None
  }

  function Raised(actions: seq<Action>): nat {
    if actions == [] then 0 else (if actions[0] == RemoteServicesDiscovered then 1 else 0) + Raised(actions[1..])
  }

  ghost predicate CanTake(server: Server, s: Discovery, r: Reply) {
    Answers(server, s, r) && Meaningful(s.device, EventOf(server, r))
  }

  ghost function Next(server: Server, s: Discovery, r: Reply): Discovery
    requires CanTake(server, s, r)
  {
    var o := Step(s.device, EventOf(server, r));
    Discovery(o.device, Pending(o.actions), s.raised + Raised(o.actions),
              if r.ServicesEnd? then Some(r.status) else s.sweepEnd)
  }

  ghost predicate ValidRun(server: Server, s: Discovery, run: seq<Reply>)
    decreases |run|
  {
    run == [] || (CanTake(server, s, run[0]) && ValidRun(server, Next(server, s, run[0]), run[1..]))
  }

  ghost function After(server: Server, s: Discovery, run: seq<Reply>): Discovery
    requires ValidRun(server, s, run)
    decreases |run|
  {
    if run == [] then s else After(server, Next(server, s, run[0]), run[1..])
  }

  /** The state right after the connection event. */
  function Start(d: Device, conn: nat, credit: Byte): Discovery {
    var o := OnConnected(d, conn, credit);
    Discovery(o.device, Pending(o.actions), 0, None)
  }

  // ---- What the tables should hold ----------------------------------------------------------

  function FindRange(ss: seq<ServiceDecl>, uuid: Uuid): Range {
    if ss == [] then NO_RANGE
    else if ss[|ss| - 1].uuid == uuid then ss[|ss| - 1].range
    else FindRange(ss[..|ss| - 1], uuid)
  }

  function FindCharacteristic(cs: seq<CharacteristicDecl>, r: Range, uuid: Uuid): Option<CharacteristicDecl> {
    if cs == [] then None
    else if In(cs[|cs| - 1], r) && cs[|cs| - 1].uuid == uuid then Some(cs[|cs| - 1])
    else FindCharacteristic(cs[..|cs| - 1], r, uuid)
  }

  /** The service table once the entries `ss` have been seen. */
  function ServiceTable(table: seq<RemoteService>, ss: seq<ServiceDecl>): (t: seq<RemoteService>)
    ensures |t| == |table|
  {
    seq(|table|, j requires 0 <= j < |table| => table[j].(range := FindRange(ss, table[j].uuid)))
  }

  /** The registered service a characteristic belongs to, or the table length. */
  function Owner(t: seq<RemoteService>, c: RemoteCharacteristic): (i: nat)
    ensures i <= |t|
    ensures i < |t| ==> c.service == Some(t[i].service)
    ensures forall k :: 0 <= k < i ==> c.service != Some(t[k].service)
  {
    OwnerFrom(t, c, 0)
  }

  function OwnerFrom(t: seq<RemoteService>, c: RemoteCharacteristic, from: nat): (i: nat)
    requires from <= |t|
    ensures from <= i <= |t|
    ensures i < |t| ==> c.service == Some(t[i].service)
    ensures forall k :: from <= k < i ==> c.service != Some(t[k].service)
    decreases |t| - from
  {
    if from == |t| || c.service == Some(t[from].service) then from else OwnerFrom(t, c, from + 1)
  }

  function Filled(c: RemoteCharacteristic, o: Option<CharacteristicDecl>): RemoteCharacteristic {
    match o
    case None => c.(properties := NO_PROPERTIES, valueHandle := 0)
    case Some(x) => c.(properties := x.properties, valueHandle := x.value)
  }

  /** One characteristic entry when services below `index` are swept, and `index` itself has
      shown the first `k` characteristics of the server. */
  function Entry(t: seq<RemoteService>, cs: seq<CharacteristicDecl>, index: nat, k: nat, c: RemoteCharacteristic):
    RemoteCharacteristic
    requires index <= |t| && k <= |cs|
  {
    var i := Owner(t, c);
    if i < index && Found(t[i]) then Filled(c, FindCharacteristic(cs, t[i].range, c.uuid))
    else if i == index < |t| then Filled(c, FindCharacteristic(cs[..k], t[i].range, c.uuid))
    else Filled(c, None)
  }

  function CharacteristicTable(table: seq<RemoteCharacteristic>, t: seq<RemoteService>, cs: seq<CharacteristicDecl>,
                               index: nat, k: nat): (r: seq<RemoteCharacteristic>)
    requires index <= |t| && k <= |cs|
    ensures |r| == |table|
  {
    seq(|table|, j requires 0 <= j < |table| => Entry(t, cs, index, k, table[j]))
  }

  // ---- The service sweep --------------------------------------------------------------------

  lemma RecordOne(table: seq<RemoteService>, ss: seq<ServiceDecl>, s: ServiceDecl)
    requires forall i, j :: 0 <= i < j < |table| ==> table[i].uuid != table[j].uuid
    ensures RecordService(ServiceTable(table, ss), s) == ServiceTable(table, ss + [s])
  {
    var t := ServiceTable(table, ss);
    assert (ss + [s])[..|ss|] == ss;
    forall j | 0 <= j < |table| ensures RecordService(t, s)[j] == ServiceTable(table, ss + [s])[j] {
      assert FirstWith(t, s.uuid, j) <==> table[j].uuid == s.uuid;
    }
  }

  lemma {:induction false} RecordBatch(table: seq<RemoteService>, ss: seq<ServiceDecl>, k: nat, n: nat)
    requires forall i, j :: 0 <= i < j < |table| ==> table[i].uuid != table[j].uuid
    requires k + n <= |ss|
    ensures RecordServices(ServiceTable(table, ss[..k]), ss[k..k + n]) == ServiceTable(table, ss[..k + n])
  {
    if n == 0 {
      assert ss[k..k] == [];
    } else {
      RecordBatch(table, ss, k, n - 1);
      assert ss[k..k + n][..n - 1] == ss[k..k + n - 1];
      assert ss[..k + n - 1] + [ss[k + n - 1]] == ss[..k + n];
      RecordOne(table, ss[..k + n - 1], ss[k + n - 1]);
    }
  }

  /** The start handle of the request once `k` services have been seen. */
  function FromHandle(ss: seq<ServiceDecl>, k: nat): Handle
    requires k <= |ss|
  {
    if k == 0 then 1 else (ss[k - 1].range.end + 1) % 0x10000
  }

  ghost predicate SweepingServices(server: Server, d: Device, s: Discovery, k: nat) {
    && k <= |server.services|
    && s.device == d.(services := ServiceTable(d.services, server.services[..k]))
    && s.pending == Some(DiscoverServices(FromHandle(server.services, k)))
    && s.raised == 0 && s.sweepEnd == None
  }

  lemma NextServiceStart(server: Server, k: nat)
    requires Conforming(server) && k < |server.services|
    ensures 0 < FromHandle(server.services, k) <= server.services[k].range.start
  {}

  lemma ServiceStartsAscend(server: Server)
    requires Conforming(server)
    ensures forall i, j :: 0 <= i <= j < |server.services| ==>
              server.services[i].range.start <= server.services[j].range.start
  {}

  /** The next reply continues exactly where the last one stopped. */
  lemma ServicesContinue(server: Server, k: nat, k': nat)
    requires Conforming(server) && k <= |server.services|
    requires FromHandle(server.services, k) != 0 && StartsAt(server, FromHandle(server.services, k), k')
    ensures k' == k
  {
    ServiceStartsAscend(server);
    if k < |server.services| {
      NextServiceStart(server, k);
    }
  }

  /** The sweep can only end once every service has been seen. */
  lemma ServicesExhausted(server: Server, k: nat)
    requires Conforming(server) && k <= |server.services|
    requires var a := FromHandle(server.services, k);
             a == 0 || forall i :: 0 <= i < |server.services| ==> server.services[i].range.start < a
    ensures k == |server.services|
  {
    if k < |server.services| {
      NextServiceStart(server, k);
    }
  }

  lemma NextOnServices(server: Server, s: Discovery, r: Reply)
    requires r.Services? && CanTake(server, s, r)
    ensures var end := server.services[r.k + r.n - 1].range.end;
            Next(server, s, r) == s.(
              device := s.device.(services := RecordServices(s.device.services, server.services[r.k..r.k + r.n])),
              pending := Some(DiscoverServices((end + 1) % 0x10000)))
  {
    hide RecordServices;
    var actions := Step(s.device, EventOf(server, r)).actions;
    assert |actions| == 1 && actions[1..] == [];
    assert Raised(actions) == 0;
    assert server.services[r.k..r.k + r.n][r.n - 1] == server.services[r.k + r.n - 1];
  }

  lemma ServicesStep(server: Server, d: Device, s: Discovery, k: nat, r: Reply)
    requires Conforming(server) && Registered(d) && SweepingServices(server, d, s, k)
    requires r.Services? && CanTake(server, s, r)
    ensures SweepingServices(server, d, Next(server, s, r), k + r.n)
  {
    hide ServiceTable, RecordServices, Next, Conforming;
    ReplyContinues(server, s, k, r);
    NextOnServices(server, s, r);
    RecordBatch(d.services, server.services, k, r.n);
  }

  lemma ReplyContinues(server: Server, s: Discovery, k: nat, r: Reply)
    requires Conforming(server) && r.Services? && CanTake(server, s, r)
    requires k <= |server.services| && s.pending == Some(DiscoverServices(FromHandle(server.services, k)))
    ensures r.k == k && r.n >= 1 && k + r.n <= |server.services|
  {
    ServicesContinue(server, k, r.k);
  }

  // ---- The characteristic sweep -----------------------------------------------------------------

  /** The complete service table. */
  function Swept(server: Server, d: Device): (t: seq<RemoteService>)
    ensures |t| == |d.services|
  {
    ServiceTable(d.services, server.services)
  }

  lemma {:induction false} FindRangeHit(ss: seq<ServiceDecl>, uuid: Uuid)
    ensures (exists i :: 0 <= i < |ss| && ss[i].uuid == uuid && FindRange(ss, uuid) == ss[i].range)
            || (FindRange(ss, uuid) == NO_RANGE && forall i :: 0 <= i < |ss| ==> ss[i].uuid != uuid)
  {
    if ss != [] && ss[|ss| - 1].uuid != uuid {
      var rest := ss[..|ss| - 1];
      FindRangeHit(rest, uuid);
      if i :| 0 <= i < |rest| && rest[i].uuid == uuid && FindRange(rest, uuid) == rest[i].range {
        assert ss[i] == rest[i];
      } else {
        assert forall i :: 0 <= i < |rest| ==> ss[i] == rest[i];
      }
    }
  }

  /** `k` splits the server's characteristics at handle `a`. */
  ghost predicate SplitsAt(cs: seq<CharacteristicDecl>, k: nat, a: int) {
    && k <= |cs|
    && (forall i :: 0 <= i < k ==> cs[i].decl < a)
    && (forall i :: k <= i < |cs| ==> a <= cs[i].decl)
  }

  ghost predicate SweepingCharacteristics(server: Server, d: Device, s: Discovery, a: Handle, k: nat) {
    var t, i := Swept(server, d), s.device.index;
    && i < |t| && Found(t[i]) && t[i].range.start <= a <= t[i].range.end
    && SplitsAt(server.characteristics, k, a)
    && s.device == d.(services := t, index := i,
         characteristics := CharacteristicTable(d.characteristics, t, server.characteristics, i, k))
    && s.pending == Some(DiscoverCharacteristics(Range(a, t[i].range.end)))
    && s.raised == 0 && s.sweepEnd == Some(InvalidHandle)
  }

  /** Discovery is over: both tables are complete and the listener has been told once, if at
      all there was something to tell. */
  ghost predicate Complete(server: Server, d: Device, s: Discovery) {
    var t := Swept(server, d);
    && s.device == d.(services := t, index := s.device.index,
         characteristics := CharacteristicTable(d.characteristics, t, server.characteristics, |t|, 0))
    && s.pending == None && s.sweepEnd == Some(InvalidHandle)
    && s.raised == if NextFound(t, 0) < |t| then 1 else 0
  }

  /** The service sweep ended with a status the driver does not take for an end. */
  ghost predicate Stalled(server: Server, d: Device, s: Discovery) {
    && s.device == d.(services := Swept(server, d))
    && s.pending == None && s.raised == 0
    && s.sweepEnd.Some? && s.sweepEnd.value != InvalidHandle
  }

  lemma {:induction false} FindCharacteristicIgnores(cs: seq<CharacteristicDecl>, r: Range, uuid: Uuid, k: nat)
    requires k <= |cs| && forall i :: k <= i < |cs| ==> !In(cs[i], r)
    ensures FindCharacteristic(cs, r, uuid) == FindCharacteristic(cs[..k], r, uuid)
  {
    if k < |cs| {
      var rest := cs[..|cs| - 1];
      FindCharacteristicIgnores(rest, r, uuid, k);
      assert rest[..k] == cs[..k];
    } else {
      assert cs[..k] == cs;
    }
  }

  lemma NothingBelow(cs: seq<CharacteristicDecl>, r: Range, uuid: Uuid, k: nat)
    requires k <= |cs| && forall i :: 0 <= i < k ==> !In(cs[i], r)
    ensures FindCharacteristic(cs[..k], r, uuid) == None
  {
    FindCharacteristicIgnores(cs[..k], r, uuid, 0);
  }

  /** Finishing service `index` and moving on to `next`, with nothing found in between. */
  lemma SweepNext(table: seq<RemoteCharacteristic>, t: seq<RemoteService>, cs: seq<CharacteristicDecl>,
                  index: nat, k: nat, next: nat, k': nat)
    requires index < next <= |t| && k <= |cs| && k' <= |cs| && Found(t[index])
    requires forall i :: index < i < next ==> !Found(t[i])
    requires forall i :: k <= i < |cs| ==> !In(cs[i], t[index].range)
    requires next < |t| ==> forall i :: 0 <= i < k' ==> !In(cs[i], t[next].range)
    ensures CharacteristicTable(table, t, cs, index, k) == CharacteristicTable(table, t, cs, next, k')
  {
    hide FindCharacteristic, Owner, OwnerFrom;
    forall j | 0 <= j < |table| ensures Entry(t, cs, index, k, table[j]) == Entry(t, cs, next, k', table[j]) {
      var i := Owner(t, table[j]);
      if i == index {
        FindCharacteristicIgnores(cs, t[i].range, table[j].uuid, k);
      } else if i == next < |t| {
        NothingBelow(cs, t[i].range, table[j].uuid, k');
      }
    }
  }

  /** Before the first found service nothing is filled in. */
  lemma SweepFirst(table: seq<RemoteCharacteristic>, t: seq<RemoteService>, cs: seq<CharacteristicDecl>,
                   first: nat, k: nat)
    requires first <= |t| && k <= |cs|
    requires forall i :: 0 <= i < first ==> !Found(t[i])
    requires first < |t| ==> forall i :: 0 <= i < k ==> !In(cs[i], t[first].range)
    requires forall j :: 0 <= j < |table| ==> table[j].properties == NO_PROPERTIES && table[j].valueHandle == 0
    ensures CharacteristicTable(table, t, cs, first, k) == table
  {
    hide FindCharacteristic, Owner, OwnerFrom;
    forall j | 0 <= j < |table| ensures Entry(t, cs, first, k, table[j]) == table[j] {
      var i := Owner(t, table[j]);
      if i == first < |t| {
        NothingBelow(cs, t[i].range, table[j].uuid, k);
      }
    }
  }

  lemma RecordDeclaration(table: seq<RemoteCharacteristic>, t: seq<RemoteService>, cs: seq<CharacteristicDecl>,
                          index: nat, k: nat)
    requires index < |t| && k < |cs| && In(cs[k], t[index].range)
    requires forall i, j :: 0 <= i < j < |t| ==> t[i].service != t[j].service
    ensures RecordCharacteristic(CharacteristicTable(table, t, cs, index, k), t[index].service, cs[k])
            == CharacteristicTable(table, t, cs, index, k + 1)
  {
    hide Owner, OwnerFrom;
    var now := CharacteristicTable(table, t, cs, index, k);
    var c := cs[k];
    assert cs[..k + 1][..k] == cs[..k] && cs[..k + 1][k] == c;
    forall j | 0 <= j < |table|
      ensures RecordCharacteristic(now, t[index].service, c)[j] == Entry(t, cs, index, k + 1, table[j])
    {
      var i := Owner(t, table[j]);
      assert now[j] == Entry(t, cs, index, k, table[j]);
      assert now[j].service == table[j].service && now[j].uuid == table[j].uuid;
      assert Declares(now[j], t[index].service, c) <==> i == index && table[j].uuid == c.uuid;
      assert FindCharacteristic(cs[..k + 1], t[index].range, table[j].uuid)
          == if c.uuid == table[j].uuid then Some(c) else FindCharacteristic(cs[..k], t[index].range, table[j].uuid);
    }
  }

  lemma {:induction false} RecordDeclarations(table: seq<RemoteCharacteristic>, t: seq<RemoteService>,
                                              cs: seq<CharacteristicDecl>, index: nat, k: nat, n: nat)
    requires index < |t| && k + n <= |cs| && forall i :: k <= i < k + n ==> In(cs[i], t[index].range)
    requires forall i, j :: 0 <= i < j < |t| ==> t[i].service != t[j].service
    ensures RecordCharacteristics(CharacteristicTable(table, t, cs, index, k), t[index].service, cs[k..k + n])
            == CharacteristicTable(table, t, cs, index, k + n)
  {
    if n == 0 {
      assert cs[k..k] == [];
    } else {
      RecordDeclarations(table, t, cs, index, k, n - 1);
      assert cs[k..k + n][..n - 1] == cs[k..k + n - 1];
      RecordDeclaration(table, t, cs, index, k + n - 1);
    }
  }

  lemma {:induction false} SplitExists(cs: seq<CharacteristicDecl>, a: int) returns (k: nat)
    requires forall i, j :: 0 <= i < j < |cs| ==> cs[i].decl < cs[j].decl
    ensures SplitsAt(cs, k, a)
  {
    k := 0;
    while k < |cs| && cs[k].decl < a
      invariant k <= |cs| && forall i :: 0 <= i < k ==> cs[i].decl < a
    {
      k := k + 1;
    }
  }

  /** A found service carries the range of a service of the server. */
  lemma FoundIsServed(server: Server, d: Device, i: nat)
    requires i < |d.services| && Found(Swept(server, d)[i])
    ensures exists j :: 0 <= j < |server.services| && Swept(server, d)[i].range == server.services[j].range
  {
    FindRangeHit(server.services, d.services[i].uuid);
  }

  lemma ValueInside(server: Server, d: Device, i: nat, k: nat)
    requires Conforming(server) && i < |d.services| && Found(Swept(server, d)[i])
    requires k < |server.characteristics| && In(server.characteristics[k], Swept(server, d)[i].range)
    ensures server.characteristics[k].value <= Swept(server, d)[i].range.end
  {
    FoundIsServed(server, d, i);
  }

  lemma NextOnCharacteristics(server: Server, s: Discovery, r: Reply)
    requires r.Characteristics? && CanTake(server, s, r)
    ensures var sv, last := s.device.services[s.device.index], server.characteristics[r.k + r.n - 1];
            Next(server, s, r) == s.(
              device := s.device.(characteristics :=
                RecordCharacteristics(s.device.characteristics, sv.service, server.characteristics[r.k..r.k + r.n])),
              pending := Some(DiscoverCharacteristics(Range(last.value, sv.range.end))))
  {
    hide RecordCharacteristics;
    var actions := Step(s.device, EventOf(server, r)).actions;
    assert |actions| == 1 && actions[1..] == [];
    assert Raised(actions) == 0;
    assert server.characteristics[r.k..r.k + r.n][r.n - 1] == server.characteristics[r.k + r.n - 1];
  }

  lemma CharacteristicsStep(server: Server, d: Device, s: Discovery, a: Handle, k: nat, r: Reply)
    requires Conforming(server) && Registered(d) && SweepingCharacteristics(server, d, s, a, k)
    requires r.Characteristics? && CanTake(server, s, r)
    ensures var a' := server.characteristics[r.k + r.n - 1].value;
            a < a' && SweepingCharacteristics(server, d, Next(server, s, r), a', k + r.n)
    ensures Next(server, s, r).device.index == s.device.index
  {
    hide CharacteristicTable, ServiceTable, RecordCharacteristics, Conforming, Registered, Next, CanTake;
    var t, cs, i := Swept(server, d), server.characteristics, s.device.index;
    BatchContinues(server, s, a, k, t[i].range, r);
    NextOnCharacteristics(server, s, r);
    SameServices(server, d);
    RecordDeclarations(d.characteristics, t, cs, i, k, r.n);
    ValueInside(server, d, i, k + r.n - 1);
  }

  /** A characteristic reply goes on where the sweep stands, stays inside the range that was asked
      for, and moves the start handle past itself. */
  lemma BatchContinues(server: Server, s: Discovery, a: Handle, k: nat, range: Range, r: Reply)
    requires Conforming(server) && SplitsAt(server.characteristics, k, a) && range.start <= a
    requires s.pending == Some(DiscoverCharacteristics(Range(a, range.end)))
    requires r.Characteristics? && CanTake(server, s, r)
    ensures r.k == k && k + r.n <= |server.characteristics| && r.n >= 1
    ensures forall j :: k <= j < k + r.n ==> In(server.characteristics[j], range)
    ensures var a' := server.characteristics[k + r.n - 1].value;
            a < a' && SplitsAt(server.characteristics, k + r.n, a')
  {
    var cs := server.characteristics;
    assert r.k == k;
    var last := k + r.n - 1;
    assert forall j :: 0 <= j < |cs| ==>
             (j <= last ==> cs[j].decl <= cs[last].decl) && (last < j ==> cs[last].value < cs[j].decl);
  }

  lemma SameServices(server: Server, d: Device)
    requires Registered(d)
    ensures var t := Swept(server, d);
            forall i, j :: 0 <= i < j < |t| ==> t[i].service != t[j].service
  {}

  lemma NextOnEnd(server: Server, s: Discovery, r: Reply)
    requires (r.ServicesEnd? || r.CharacteristicsEnd?) && CanTake(server, s, r)
    ensures var t := s.device.services;
            var n := Next(server, s, r);
            if r.ServicesEnd? && r.status != InvalidHandle then n == s.(pending := None, sweepEnd := Some(r.status))
            else
              var i := NextFound(t, if r.ServicesEnd? then 0 else s.device.index + 1);
              var e := if r.ServicesEnd? then Some(r.status) else s.sweepEnd;
              if i < |t| then
                n == s.(device := s.device.(index := i), sweepEnd := e,
                        pending := Some(DiscoverCharacteristics(t[i].range)))
              else n == s.(pending := None, sweepEnd := e, raised := s.raised + if r.ServicesEnd? then 0 else 1)
  {
    hide NextFound;
    var actions := Step(s.device, EventOf(server, r)).actions;
    if actions != [] {
      assert |actions| == 1 && actions[1..] == [];
      assert Raised(actions) == if actions[0] == RemoteServicesDiscovered then 1 else 0;
    }
  }

  /** The first sweep ends: characteristics next, or nothing to do, or a stall. */
  lemma ServicesEndStep(server: Server, d: Device, s: Discovery, k: nat, r: Reply)
    requires Conforming(server) && Registered(d) && SweepingServices(server, d, s, k)
    requires r.ServicesEnd? && CanTake(server, s, r)
    ensures var n := Next(server, s, r);
            if r.status != InvalidHandle then Stalled(server, d, n)
            else Complete(server, d, n) || exists a, k' :: SweepingCharacteristics(server, d, n, a, k')
    ensures k == |server.services|
  {
    hide CharacteristicTable, ServiceTable, NextFound;
    ServicesExhausted(server, k);
    assert server.services[..k] == server.services;
    var t, cs := Swept(server, d), server.characteristics;
    NextOnEnd(server, s, r);
    if r.status == InvalidHandle {
      var n, i := Next(server, s, r), NextFound(t, 0);
      if i < |t| {
        FoundIsServed(server, d, i);
        var k' := SplitExists(cs, t[i].range.start);
        SweepFirst(d.characteristics, t, cs, i, k');
        assert SweepingCharacteristics(server, d, n, t[i].range.start, k');
      } else {
        SweepFirst(d.characteristics, t, cs, i, 0);
      }
    }
  }

  lemma CharacteristicsEndStep(server: Server, d: Device, s: Discovery, a: Handle, k: nat, r: Reply)
    requires Conforming(server) && Registered(d) && SweepingCharacteristics(server, d, s, a, k)
    requires r.CharacteristicsEnd? && CanTake(server, s, r)
    ensures var n := Next(server, s, r);
            Complete(server, d, n) ||
            (n.device.index > s.device.index && exists a', k' :: SweepingCharacteristics(server, d, n, a', k'))
  {
    hide CharacteristicTable, ServiceTable, NextFound;
    var t, cs, i := Swept(server, d), server.characteristics, s.device.index;
    NextOnEnd(server, s, r);
    var n, j := Next(server, s, r), NextFound(t, i + 1);
    if j < |t| {
      FoundIsServed(server, d, j);
      var k' := SplitExists(cs, t[j].range.start);
      SweepNext(d.characteristics, t, cs, i, k, j, k');
      assert SweepingCharacteristics(server, d, n, t[j].range.start, k');
    } else {
      SweepNext(d.characteristics, t, cs, i, k, j, 0);
      assert NextFound(t, 0) <= i;
    }
  }

  // ---- Every run ----------------------------------------------------------------------------

  ghost predicate Inv(server: Server, d: Device, s: Discovery) {
    || (exists k :: SweepingServices(server, d, s, k))
    || (exists a, k :: SweepingCharacteristics(server, d, s, a, k))
    || Complete(server, d, s)
    || Stalled(server, d, s)
  }

  /** Handles left to sweep, service by service. */
  function Measure(s: Discovery): nat {
    var n := |s.device.services|;
    match s.pending
    case Some(DiscoverServices(from)) => (n + 1) * 0x10000 + if from == 0 then 0 else 0x10000 - from
    case Some(DiscoverCharacteristics(range)) =>
      (if s.device.index < n then n - s.device.index else 0) * 0x10000 + (0x10000 - range.start)
    case _ => 0
  }

  lemma StepKeepsInv(server: Server, d: Device, s: Discovery, r: Reply)
    requires Conforming(server) && Registered(d) && Inv(server, d, s) && CanTake(server, s, r)
    ensures Inv(server, d, Next(server, s, r))
    ensures Measure(Next(server, s, r)) < Measure(s)
  {
    hide CharacteristicTable, ServiceTable, NextFound, Next, CanTake, Conforming, Registered;
    PhaseOfReply(server, s, r);
    if k: nat :| SweepingServices(server, d, s, k) {
      if r.Services? {
        ServicesStep(server, d, s, k, r);
        HandlesAdvance(server, s, k, r);
      } else {
        ServicesEndStep(server, d, s, k, r);
      }
    } else {
      var a: Handle, k: nat :| SweepingCharacteristics(server, d, s, a, k);
      if r.Characteristics? {
        CharacteristicsStep(server, d, s, a, k, r);
      } else {
        CharacteristicsEndStep(server, d, s, a, k, r);
      }
    }
  }

  lemma PhaseOfReply(server: Server, s: Discovery, r: Reply)
    requires CanTake(server, s, r)
    ensures s.pending.Some? && (s.pending.value.DiscoverServices? <==> r.Services? || r.ServicesEnd?)
  {}

  /** Each service reply moves the start handle up, or past the top of the handle space. */
  lemma HandlesAdvance(server: Server, s: Discovery, k: nat, r: Reply)
    requires Conforming(server) && r.Services? && CanTake(server, s, r)
    requires k <= |server.services| && s.pending == Some(DiscoverServices(FromHandle(server.services, k)))
    ensures var a' := FromHandle(server.services, k + r.n);
            0 < FromHandle(server.services, k) && (a' == 0 || FromHandle(server.services, k) < a')
  {
    ReplyContinues(server, s, k, r);
    var ss := server.services;
    assert ss[k].range.start <= ss[k + r.n - 1].range.end;
  }

  lemma {:induction false} RunKeepsInv(server: Server, d: Device, s: Discovery, run: seq<Reply>)
    requires Conforming(server) && Registered(d) && Inv(server, d, s) && ValidRun(server, s, run)
    ensures Inv(server, d, After(server, s, run))
    ensures |run| + Measure(After(server, s, run)) <= Measure(s)
    decreases |run|
  {
    hide Inv, Measure, Next, CanTake;
    if run != [] {
      StepKeepsInv(server, d, s, run[0]);
      RunKeepsInv(server, d, Next(server, s, run[0]), run[1..]);
    }
  }

  /** Connecting starts the first sweep, when there is anything to look for. */
  lemma StartKeepsInv(server: Server, d: Device, conn: nat, credit: Byte)
    requires Registered(d) && |d.services| > 0
    ensures SweepingServices(server, OnConnected(d, conn, credit).device, Start(d, conn, credit), 0)
    ensures Inv(server, OnConnected(d, conn, credit).device, Start(d, conn, credit))
    ensures Registered(OnConnected(d, conn, credit).device)
    ensures Measure(Start(d, conn, credit)) < (|d.services| + 2) * 0x10000
  {
    assert ServiceTable(d.services, server.services[..0]) == d.services;
    assert SweepingServices(server, OnConnected(d, conn, credit).device, Start(d, conn, credit), 0);
  }

  /** Attribute Protocol error codes (Bluetooth Core Specification, Vol 3, Part F, section 3.4.4.9):
      a request from handle 0 is answered "invalid handle", one that finds nothing "attribute not
      found". */
  predicate AttReply(s: Discovery, r: Reply) {
    r.ServicesEnd? && s.pending.Some? && s.pending.value.DiscoverServices? ==>
      r.status == if s.pending.value.from == 0 then InvalidHandle else AttributeNotFound
  }

  /** A pending request can always be answered, also by a server that keeps to those codes, so a
      run that cannot go on has nothing pending. */
  lemma NeverStuck(server: Server, d: Device, s: Discovery)
    requires Conforming(server) && Inv(server, d, s) && s.pending.Some?
    ensures exists r :: CanTake(server, s, r) && AttReply(s, r)
  {
    hide CharacteristicTable, ServiceTable, NextFound, Conforming, CanTake;
    if k: nat :| SweepingServices(server, d, s, k) {
      ServicesAnswerable(server, s, k);
    } else {
      var a: Handle, k: nat :| SweepingCharacteristics(server, d, s, a, k);
      CharacteristicsAnswerable(server, s, a, s.pending.value.within.end, k);
    }
  }

  lemma ServicesAnswerable(server: Server, s: Discovery, k: nat)
    requires Conforming(server) && k <= |server.services|
    requires s.pending == Some(DiscoverServices(FromHandle(server.services, k)))
    ensures exists r :: CanTake(server, s, r) && AttReply(s, r)
  {
    ServiceStartsAscend(server);
    if k < |server.services| {
      NextServiceStart(server, k);
      assert CanTake(server, s, Services(k, 1));
      assert AttReply(s, Services(k, 1));
    } else {
      var status := if s.pending.value.from == 0 then InvalidHandle else AttributeNotFound;
      assert CanTake(server, s, ServicesEnd(status));
      assert AttReply(s, ServicesEnd(status));
    }
  }

  lemma CharacteristicsAnswerable(server: Server, s: Discovery, a: Handle, end: Handle, k: nat)
    requires Conforming(server) && SplitsAt(server.characteristics, k, a) && s.device.index < |s.device.services|
    requires s.pending == Some(DiscoverCharacteristics(Range(a, end)))
    ensures exists r :: CanTake(server, s, r) && AttReply(s, r)
  {
    var cs := server.characteristics;
    if k < |cs| && cs[k].decl <= end {
      assert CanTake(server, s, Characteristics(k, 1));
      assert AttReply(s, Characteristics(k, 1));
    } else {
      assert forall i :: k <= i < |cs| ==> cs[k].decl <= cs[i].decl;
      assert CanTake(server, s, CharacteristicsEnd);
      assert AttReply(s, CharacteristicsEnd);
    }
  }

  // ---- Main results ---------------------------------------------------------------------------

  /** Each registered service holds the range of the server's service with its UUID, or zero. */
  ghost predicate ServicesCorrect(server: Server, d: Device, u: Device) {
    var ss := server.services;
    && |u.services| == |d.services|
    && (forall j, i :: 0 <= j < |d.services| && 0 <= i < |ss| && ss[i].uuid == d.services[j].uuid
          ==> u.services[j] == d.services[j].(range := ss[i].range))
    && (forall j :: 0 <= j < |d.services| && (forall i :: 0 <= i < |ss| ==> ss[i].uuid != d.services[j].uuid)
          ==> u.services[j] == d.services[j].(range := NO_RANGE))
  }

  /** Registered characteristic `j` belongs to registered service `i`, which was found, and the
      server declares it there as its characteristic `c`. */
  ghost predicate Serves(server: Server, d: Device, u: Device, j: nat, i: nat, c: nat) {
    && j < |d.characteristics| && i < |d.services| == |u.services| && c < |server.characteristics|
    && d.characteristics[j].service == Some(d.services[i].service) && Found(u.services[i])
    && In(server.characteristics[c], u.services[i].range)
    && server.characteristics[c].uuid == d.characteristics[j].uuid
  }

  /** Each registered characteristic of a found service holds the value handle and properties of
      the server's characteristic; all others stay cleared. */
  ghost predicate CharacteristicsCorrect(server: Server, d: Device, u: Device) {
    var cs := server.characteristics;
    && |u.characteristics| == |d.characteristics|
    && (forall j: nat, i: nat, c: nat :: Serves(server, d, u, j, i, c)
          ==> u.characteristics[j] == Filled(d.characteristics[j], Some(cs[c])))
    && (forall j :: 0 <= j < |d.characteristics| && (forall i: nat, c: nat :: !Serves(server, d, u, j, i, c))
          ==> u.characteristics[j] == Filled(d.characteristics[j], None))
  }

  lemma SweptIsCorrect(server: Server, d: Device)
    requires Conforming(server) && Registered(d)
    ensures ServicesCorrect(server, d, d.(services := Swept(server, d)))
  {
    forall j | 0 <= j < |d.services|
      ensures forall i :: 0 <= i < |server.services| && server.services[i].uuid == d.services[j].uuid ==>
                FindRange(server.services, d.services[j].uuid) == server.services[i].range
      ensures (forall i :: 0 <= i < |server.services| ==> server.services[i].uuid != d.services[j].uuid) ==>
                FindRange(server.services, d.services[j].uuid) == NO_RANGE
    {
      FindRangeHit(server.services, d.services[j].uuid);
    }
  }

  lemma {:induction false} FindCharacteristicHit(cs: seq<CharacteristicDecl>, r: Range, uuid: Uuid)
    ensures match FindCharacteristic(cs, r, uuid)
            case Some(x) => exists c :: 0 <= c < |cs| && cs[c] == x && In(x, r) && x.uuid == uuid
            case None => forall c :: 0 <= c < |cs| ==> !(In(cs[c], r) && cs[c].uuid == uuid)
  {
    if cs != [] && !(In(cs[|cs| - 1], r) && cs[|cs| - 1].uuid == uuid) {
      var rest := cs[..|cs| - 1];
      FindCharacteristicHit(rest, r, uuid);
      assert forall i :: 0 <= i < |rest| ==> cs[i] == rest[i];
    }
  }

  lemma EntryIsCorrect(server: Server, d: Device, u: Device, j: nat)
    requires Conforming(server) && Registered(d) && j < |d.characteristics| && u.services == Swept(server, d)
    ensures var t, cs := Swept(server, d), server.characteristics;
            var e := Entry(t, cs, |t|, 0, d.characteristics[j]);
            && (forall i: nat, c: nat :: Serves(server, d, u, j, i, c) ==>
                  e == Filled(d.characteristics[j], Some(cs[c])))
            && ((forall i: nat, c: nat :: !Serves(server, d, u, j, i, c)) ==> e == Filled(d.characteristics[j], None))
  {
    hide OwnerFrom, FindRange;
    var t, cs, r := Swept(server, d), server.characteristics, d.characteristics[j];
    var o := Owner(t, r);
    SameServices(server, d);
    assert forall i :: 0 <= i < |t| ==> t[i].service == d.services[i].service;
    if o < |t| && Found(t[o]) {
      FindCharacteristicHit(cs, t[o].range, r.uuid);
      FoundIsServed(server, d, o);
      var x := FindCharacteristic(cs, t[o].range, r.uuid);
      if x.Some? {
        var c0 :| 0 <= c0 < |cs| && cs[c0] == x.value && In(x.value, t[o].range) && x.value.uuid == r.uuid;
        assert Serves(server, d, u, j, o, c0);
      }
    }
  }

  lemma CompleteIsCorrect(server: Server, d: Device, s: Discovery)
    requires Conforming(server) && Registered(d) && Complete(server, d, s)
    ensures ServicesCorrect(server, d, s.device) && CharacteristicsCorrect(server, d, s.device)
  {
    SweptIsCorrect(server, d);
    forall j | 0 <= j < |d.characteristics|
      ensures forall i: nat, c: nat :: Serves(server, d, s.device, j, i, c)
                ==> s.device.characteristics[j] == Filled(d.characteristics[j], Some(server.characteristics[c]))
      ensures (forall i: nat, c: nat :: !Serves(server, d, s.device, j, i, c))
                ==> s.device.characteristics[j] == Filled(d.characteristics[j], None)
    {
      EntryIsCorrect(server, d, s.device, j);
    }
  }

  /** Some registered service is on the server. */
  ghost predicate Offers(server: Server, d: Device) {
    exists j, i :: 0 <= j < |d.services| && 0 <= i < |server.services| && server.services[i].uuid == d.services[j].uuid
  }

  lemma FoundIffOffered(server: Server, d: Device, u: Device)
    requires Conforming(server) && ServicesCorrect(server, d, u)
    ensures (exists j :: 0 <= j < |u.services| && Found(u.services[j])) <==> Offers(server, d)
  {
    if j, i :| 0 <= j < |d.services| && 0 <= i < |server.services| && server.services[i].uuid == d.services[j].uuid {
      assert Found(u.services[j]);
    } else {
      assert forall j :: 0 <= j < |d.services| ==> u.services[j] == d.services[j].(range := NO_RANGE);
    }
  }

  /** What a finished discovery leaves: both tables as the server declares them and the listener
      told once if a registered service is there -- provided the service sweep ended with
      "invalid handle"; otherwise it stopped after the services and told nobody. */
  ghost predicate Settled(server: Server, d: Device, s: Discovery) {
    && ServicesCorrect(server, d, s.device)
    && (if s.sweepEnd == Some(InvalidHandle)
        then CharacteristicsCorrect(server, d, s.device) && s.raised == if Offers(server, d) then 1 else 0
        else s.device.characteristics == d.characteristics && s.raised == 0)
  }

  /** Every state of a run can go on or is settled. */
  lemma InvMeans(server: Server, d: Device, s: Discovery)
    requires Conforming(server) && Registered(d) && Inv(server, d, s)
    ensures if s.pending.Some? then s.raised == 0 && exists r :: CanTake(server, s, r) else Settled(server, d, s)
  {
    hide Conforming, Registered, ServicesCorrect, CharacteristicsCorrect, CanTake, Swept, NextFound, Offers;
    if s.pending.Some? {
      NeverStuck(server, d, s);
    } else if Complete(server, d, s) {
      CompleteIsCorrect(server, d, s);
      FoundIffOffered(server, d, s.device);
    } else {
      SweptIsCorrect(server, d);
    }
  }

  /** Every run of discovery from a cleared table is finite, and when it can go no further it is
      settled. */
  lemma DiscoveryCorrect(server: Server, d: Device, conn: nat, credit: Byte, run: seq<Reply>)
    requires Conforming(server) && Registered(d) && |d.services| > 0
    requires ValidRun(server, Start(d, conn, credit), run)
    ensures |run| < (|d.services| + 2) * 0x10000
    ensures var s := After(server, Start(d, conn, credit), run);
            if s.pending.Some? then s.raised == 0 && exists r :: CanTake(server, s, r) else Settled(server, d, s)
  {
    hide Conforming, Registered, ServicesCorrect, CharacteristicsCorrect, CanTake, Next, Inv, Measure;
    var s0 := Start(d, conn, credit);
    var d1 := OnConnected(d, conn, credit).device;
    StartKeepsInv(server, d, conn, credit);
    RunKeepsInv(server, d1, s0, run);
    InvMeans(server, d1, After(server, s0, run));
    SameTables(server, d, d1, After(server, s0, run).device);
  }

  lemma SameTables(server: Server, d: Device, d1: Device, u: Device)
    requires d1.services == d.services && d1.characteristics == d.characteristics
    ensures ServicesCorrect(server, d1, u) ==> ServicesCorrect(server, d, u)
    ensures CharacteristicsCorrect(server, d1, u) ==> CharacteristicsCorrect(server, d, u)
  {
    assert forall j: nat, i: nat, c: nat :: Serves(server, d1, u, j, i, c) <==> Serves(server, d, u, j, i, c);
  }

  // ---- What the tables are for ----------------------------------------------------------------

  /** A remote write goes to the server's own handle of that characteristic, in the way the server
      declares it, as long as there is a credit; it leaves the mark of an open request. */
  lemma WriteReachesServer(server: Server, d: Device, u: Device, j: nat, i: nat, c: nat)
    requires Conforming(server) && CharacteristicsCorrect(server, d, u) && Serves(server, d, u, j, i, c)
    ensures var x := server.characteristics[c];
            var writable := x.properties.write || x.properties.writeWithoutResponse;
            Step(u, WriteRemote(j)) ==
              if u.tx > 0 && writable
              then Outcome(u.(tx := u.tx - 1, requestInProgress := true), [RemoteWrite(x.value, x.properties.write)])
              else Outcome(u, [])
  {
    hide In;
    assert u.characteristics[j] == Filled(d.characteristics[j], Some(server.characteristics[c]));
  }

  /** A characteristic that the server does not have, or that is not registered, is not written. */
  lemma NothingElseIsWritten(server: Server, d: Device, u: Device, j: nat)
    requires CharacteristicsCorrect(server, d, u) && forall i: nat, c: nat :: !Serves(server, d, u, j, i, c)
    ensures Step(u, WriteRemote(j)) == Outcome(u, [])
  {
    if j < |d.characteristics| {
      assert u.characteristics[j] == Filled(d.characteristics[j], None);
    }
  }

  // ---- Which servers end the first sweep that way ------------------------------------------------

  ghost predicate AttRun(server: Server, s: Discovery, run: seq<Reply>)
    requires ValidRun(server, s, run)
    decreases |run|
  {
    run == [] || (AttReply(s, run[0]) && AttRun(server, Next(server, s, run[0]), run[1..]))
  }

  /** The last service of the server reaches the top of the handle space. */
  predicate ReachesTop(server: Server) {
    server.services != [] && server.services[|server.services| - 1].range.end == 0xFFFF
  }

  ghost predicate EndExplained(server: Server, s: Discovery) {
    s.sweepEnd.Some? ==> (s.sweepEnd.value == InvalidHandle <==> ReachesTop(server))
  }

  lemma AttStep(server: Server, d: Device, s: Discovery, r: Reply)
    requires Conforming(server) && Registered(d) && Inv(server, d, s) && EndExplained(server, s)
    requires CanTake(server, s, r) && AttReply(s, r)
    ensures EndExplained(server, Next(server, s, r))
  {
    hide CharacteristicTable, ServiceTable;
    if r.ServicesEnd? {
      var k: nat :| SweepingServices(server, d, s, k);
      ServicesExhausted(server, k);
    }
  }

  lemma {:induction false} AttRunExplained(server: Server, d: Device, s: Discovery, run: seq<Reply>)
    requires Conforming(server) && Registered(d) && Inv(server, d, s) && EndExplained(server, s)
    requires ValidRun(server, s, run) && AttRun(server, s, run)
    ensures EndExplained(server, After(server, s, run))
    decreases |run|
  {
    hide Inv, Next, CanTake, EndExplained, AttReply;
    if run != [] {
      StepKeepsInv(server, d, s, run[0]);
      AttStep(server, d, s, run[0]);
      AttRunExplained(server, d, Next(server, s, run[0]), run[1..]);
    }
  }

  /** Exact condition on a server that answers by the Attribute Protocol: a finished discovery
      has told the listener if and only if a registered service is on the server and the server's
      last service reaches handle 0xFFFF, where the 16-bit start handle wraps to 0. */
  lemma AttDiscoveryRaisesIff(server: Server, d: Device, conn: nat, credit: Byte, run: seq<Reply>)
    requires Conforming(server) && Registered(d) && |d.services| > 0
    requires ValidRun(server, Start(d, conn, credit), run) && AttRun(server, Start(d, conn, credit), run)
    requires After(server, Start(d, conn, credit), run).pending == None
    ensures After(server, Start(d, conn, credit), run).raised ==
              if ReachesTop(server) && Offers(server, d) then 1 else 0
  {
    hide Next, CanTake, Conforming, Registered, CharacteristicsCorrect, ServicesCorrect, Offers;
    DiscoveryCorrect(server, d, conn, credit, run);
    StartKeepsInv(server, d, conn, credit);
    var s0 := Start(d, conn, credit);
    RunKeepsInv(server, OnConnected(d, conn, credit).device, s0, run);
    AttRunExplained(server, OnConnected(d, conn, credit).device, s0, run);
  }

  /** Such a server can bring discovery to its end from every state, so the condition above is
      about a run that exists. */
  lemma {:induction false} AttRunFinishes(server: Server, d: Device, s: Discovery) returns (run: seq<Reply>)
    requires Conforming(server) && Registered(d) && Inv(server, d, s)
    ensures ValidRun(server, s, run) && AttRun(server, s, run) && After(server, s, run).pending == None
    decreases Measure(s)
  {
    hide Inv, Measure, Next, CanTake, AttReply, Conforming, Registered;
    if s.pending == None {
      return [];
    }
    NeverStuck(server, d, s);
    var r :| CanTake(server, s, r) && AttReply(s, r);
    StepKeepsInv(server, d, s, r);
    var rest := AttRunFinishes(server, d, Next(server, s, r));
    run := [r] + rest;
    assert run[1..] == rest;
  }

  function SmallServer(u: Uuid): Server { Server([ServiceDecl(u, Range(1, 10))], []) }

  function SmallDevice(u: Uuid): Device { Device(None, 0, [], [RemoteService(0, u, NO_RANGE)], [], 0, false) }

  lemma SmallFirstReply(u: Uuid, conn: nat, credit: Byte)
    ensures var s, r := Start(SmallDevice(u), conn, credit), Services(0, 1);
            && CanTake(SmallServer(u), s, r) && AttReply(s, r)
            && Next(SmallServer(u), s, r) == s.(
                 device := s.device.(services := [RemoteService(0, u, Range(1, 10))]),
                 pending := Some(DiscoverServices(11)))
  {
    var server, d, s, r := SmallServer(u), SmallDevice(u), Start(SmallDevice(u), conn, credit), Services(0, 1);
    assert CanTake(server, s, r);
    NextOnServices(server, s, r);
    assert server.services[0..1] == server.services && server.services[..0] == [];
    assert FirstWith(d.services, u, 0);
    assert RecordServices(d.services, server.services) == RecordService(d.services, server.services[0]);
  }

  lemma SmallLastReply(u: Uuid, s: Discovery)
    requires s.pending == Some(DiscoverServices(11))
    ensures var r := ServicesEnd(AttributeNotFound);
            && CanTake(SmallServer(u), s, r) && AttReply(s, r)
            && Next(SmallServer(u), s, r) == s.(pending := None, sweepEnd := Some(AttributeNotFound))
  {
    assert CanTake(SmallServer(u), s, ServicesEnd(AttributeNotFound));
    NextOnEnd(SmallServer(u), s, ServicesEnd(AttributeNotFound));
  }

  lemma OneReply(server: Server, s: Discovery, r: Reply)
    requires CanTake(server, s, r)
    ensures ValidRun(server, s, [r]) && After(server, s, [r]) == Next(server, s, r)
    ensures AttReply(s, r) ==> AttRun(server, s, [r])
  {
    hide Next, CanTake, AttReply;
    var none := [r][1..];
    assert none == [] && ValidRun(server, Next(server, s, r), none);
  }

  lemma TwoReplies(server: Server, s: Discovery, r: Reply, r': Reply)
    requires CanTake(server, s, r) && CanTake(server, Next(server, s, r), r')
    ensures ValidRun(server, s, [r, r']) && After(server, s, [r, r']) == Next(server, Next(server, s, r), r')
    ensures AttReply(s, r) && AttReply(Next(server, s, r), r') ==> AttRun(server, s, [r, r'])
  {
    hide Next, CanTake, AttReply;
    OneReply(server, Next(server, s, r), r');
    assert [r, r'][1..] == [r'];
  }

  /** The failing family is not empty: one service at handles 1 to 10, which is found, and a
      finished discovery of which the listener never hears. */
  lemma AttDiscoveryCounterexample(u: Uuid, conn: nat, credit: Byte)
    ensures var server, d, s := SmallServer(u), SmallDevice(u), Start(SmallDevice(u), conn, credit);
            var run := [Services(0, 1), ServicesEnd(AttributeNotFound)];
            && Conforming(server) && Registered(d) && ValidRun(server, s, run) && AttRun(server, s, run)
            && var s' := After(server, s, run);
               s'.pending == None && s'.raised == 0 && s'.device.services == [RemoteService(0, u, Range(1, 10))]
  {
    var server, s := SmallServer(u), Start(SmallDevice(u), conn, credit);
    hide Next, CanTake, AttReply, ValidRun, AttRun;
    SmallFirstReply(u, conn, credit);
    SmallLastReply(u, Next(server, s, Services(0, 1)));
    TwoReplies(server, s, Services(0, 1), ServicesEnd(AttributeNotFound));
  }

  /** Disconnecting hands a cleared table to the next connection. */
  lemma DisconnectRegisters(d: Device)
    requires forall i, j :: 0 <= i < j < |d.services| ==>
               d.services[i].uuid != d.services[j].uuid && d.services[i].service != d.services[j].service
    ensures Registered(OnDisconnected(d).device)
  {}
}

/** libraries/BLE/nRF51822.cpp on values: the tables of the driver, the SoftDevice events that
    `poll` handles and the calls that send packets, as one transition function. */
module Gatt {
  import opened Bytes

  type Handle = h: int | 0 <= h < 0x10000 witness 0

  /** `ble_uuid_t`. */
  datatype Uuid = Uuid(kind: nat, value: nat)

  datatype Range = Range(start: Handle, end: Handle)

  datatype Properties = Properties(read: bool, write: bool, writeWithoutResponse: bool, notify: bool, indicate: bool)

  const NO_RANGE := Range(0, 0)
  const NO_PROPERTIES := Properties(false, false, false, false, false)

  /** `localCharacteristicInfo`, with the `_subscribed` flag of its characteristic. */
  datatype LocalCharacteristic = LocalCharacteristic(
    valueHandle: Handle, cccdHandle: Handle, notify: bool, indicate: bool, subscribed: bool)

  /** `remoteServiceInfo`; `service` stands for the address of the service object. */
  datatype RemoteService = RemoteService(service: nat, uuid: Uuid, range: Range)

  datatype RemoteCharacteristic = RemoteCharacteristic(
    service: Option<nat>, uuid: Uuid, properties: Properties, valueHandle: Handle)

  datatype Device = Device(
    connection: Option<nat>, tx: Byte, local: seq<LocalCharacteristic>,
    services: seq<RemoteService>, characteristics: seq<RemoteCharacteristic>,
    index: nat, requestInProgress: bool)

  /** One entry of a primary service discovery response. */
  datatype ServiceDecl = ServiceDecl(uuid: Uuid, range: Range)

  /** One entry of a characteristic discovery response. */
  datatype CharacteristicDecl = CharacteristicDecl(uuid: Uuid, properties: Properties, decl: Handle, value: Handle)

  datatype Status = Success | InvalidHandle | AttributeNotFound | Other(code: nat)

  /** `RemoteAnswered` is a read or write response of the peer. */
  datatype Event =
    | TxComplete(count: Byte)
    | Connected(conn: nat, credit: Byte)
    | Disconnected
    | Write(handle: Handle, data: nat)
    | ServicesResponse(serviceStatus: Status, found: seq<ServiceDecl>)
    | CharacteristicsResponse(characteristicStatus: Status, declared: seq<CharacteristicDecl>)
    | RemoteAnswered
    | UpdateValue(local: nat)
    | WriteRemote(remote: nat)

  /** What the driver asks of the SoftDevice or tells its listener. */
  datatype Action =
    | DiscoverServices(from: Handle)
    | DiscoverCharacteristics(within: Range)
    | Notify(notified: nat)
    | Indicate(indicated: nat)
    | RemoteWrite(target: Handle, withResponse: bool)
    | SubscribedChanged(which: nat, on: bool)
    | RemoteServicesDiscovered
    | Message(status: Status)

  datatype Outcome = Outcome(device: Device, actions: seq<Action>)

  // ---- Connection -------------------------------------------------------------------------

  function ClearedLocal(c: LocalCharacteristic): LocalCharacteristic {
    c.(notify := false, indicate := false, subscribed := false)
  }

  function Unsubscriptions(local: seq<LocalCharacteristic>): seq<Action> {
    if local == [] then []
    else
      var n := |local| - 1;
      Unsubscriptions(local[..n]) + if local[n].subscribed then [SubscribedChanged(n, false)] else []
  }

  function OnConnected(d: Device, conn: nat, credit: Byte): Outcome {
    Outcome(d.(connection := Some(conn), tx := credit),
            if |d.services| > 0 then [DiscoverServices(1)] else [])
  }

  function OnDisconnected(d: Device): Outcome {
    Outcome(
      d.(connection := None, tx := 0,
         local := seq(|d.local|, i requires 0 <= i < |d.local| => ClearedLocal(d.local[i])),
         services := seq(|d.services|, i requires 0 <= i < |d.services| => d.services[i].(range := NO_RANGE)),
         characteristics := seq(|d.characteristics|, i requires 0 <= i < |d.characteristics| =>
           d.characteristics[i].(properties := NO_PROPERTIES, valueHandle := 0)),
         requestInProgress := false),
      Unsubscriptions(d.local))
  }

  // ---- Sending ----------------------------------------------------------------------------

  /** `updateCharacteristicValue`: a notification, then an indication, each against one credit. */
  function OnUpdate(d: Device, i: nat): Outcome {
    if i >= |d.local| then Outcome(d, [])
    else
      var notifies := d.local[i].notify && d.tx > 0;
      var d1 := if notifies then d.(tx := d.tx - 1) else d;
      var indicates := d.local[i].indicate && d1.tx > 0;
      Outcome(if indicates then d1.(tx := d1.tx - 1) else d1,
              (if notifies then [Notify(i)] else []) + (if indicates then [Indicate(i)] else []))
  }

  /** The result of `updateCharacteristicValue`: nothing that was subscribed to was dropped. */
  predicate UpdateSucceeds(d: Device, i: nat) {
    i < |d.local| ==> (if d.local[i].notify then 1 else 0) + (if d.local[i].indicate then 1 else 0) <= d.tx
  }

  function OnWriteRemote(d: Device, i: nat): Outcome {
    if i < |d.characteristics| && d.characteristics[i].valueHandle != 0 && d.tx > 0 &&
       (d.characteristics[i].properties.writeWithoutResponse || d.characteristics[i].properties.write)
    then Outcome(d.(requestInProgress := true, tx := d.tx - 1),
                 [RemoteWrite(d.characteristics[i].valueHandle, d.characteristics[i].properties.write)])
    else Outcome(d, [])
  }

  // ---- Writes by the peer -------------------------------------------------------------------

  function Bit(data: nat, mask: nat): bool
    requires mask > 0
  {
    data / mask % 2 == 1
  }

  /** The CCCD branch: new flags, and the `subscribed` flag that the listener keeps in step. */
  function Configured(c: LocalCharacteristic, data: nat): LocalCharacteristic {
    c.(notify := Bit(data, 1), indicate := Bit(data, 2), subscribed := Bit(data, 1) || Bit(data, 2))
  }

  /** The write loop from index `i`. A write to a value comes back through
      `setValue` as an update of that characteristic. */
  function OnWriteFrom(d: Device, handle: Handle, data: nat, i: nat): Outcome
    requires i <= |d.local|
    decreases |d.local| - i
  {
    if i == |d.local| then Outcome(d, [])
    else
      var c := d.local[i];
      if c.valueHandle == handle then OnUpdate(d, i)
      else if c.cccdHandle == handle then
        var c' := Configured(c, data);
        var d' := d.(local := d.local[i := c']);
        if c'.subscribed != c.subscribed then Outcome(d', [SubscribedChanged(i, c'.subscribed)])
        else OnWriteFrom(d', handle, data, i + 1)
      else OnWriteFrom(d, handle, data, i + 1)
  }

  // ---- Discovery --------------------------------------------------------------------------

  predicate FirstWith(services: seq<RemoteService>, uuid: Uuid, j: nat) {
    j < |services| && services[j].uuid == uuid && forall k :: 0 <= k < j ==> services[k].uuid != uuid
  }

  /** A service declaration goes to the first registered service with its UUID. */
  function RecordService(services: seq<RemoteService>, s: ServiceDecl): (r: seq<RemoteService>)
    ensures |r| == |services|
  {
    seq(|services|, j requires 0 <= j < |services| =>
      if FirstWith(services, s.uuid, j) then services[j].(range := s.range) else services[j])
  }

  function RecordServices(services: seq<RemoteService>, found: seq<ServiceDecl>): (r: seq<RemoteService>)
    ensures |r| == |services|
  {
    if found == [] then services
    else RecordService(RecordServices(services, found[..|found| - 1]), found[|found| - 1])
  }

  predicate Declares(r: RemoteCharacteristic, service: nat, c: CharacteristicDecl) {
    r.service == Some(service) && r.uuid == c.uuid
  }

  /** A characteristic declaration goes to every matching characteristic of the service. */
  function RecordCharacteristic(cs: seq<RemoteCharacteristic>, service: nat, c: CharacteristicDecl):
    (r: seq<RemoteCharacteristic>)
    ensures |r| == |cs|
  {
    seq(|cs|, j requires 0 <= j < |cs| =>
      if Declares(cs[j], service, c) then cs[j].(properties := c.properties, valueHandle := c.value) else cs[j])
  }

  function RecordCharacteristics(cs: seq<RemoteCharacteristic>, service: nat, declared: seq<CharacteristicDecl>):
    (r: seq<RemoteCharacteristic>)
    ensures |r| == |cs|
  {
    if declared == [] then cs
    else
      var n := |declared| - 1;
      RecordCharacteristic(RecordCharacteristics(cs, service, declared[..n]), service, declared[n])
  }

  predicate Found(s: RemoteService) { s.range.start != 0 && s.range.end != 0 }

  /** The next registered service that was found on the server, or the table length. */
  function NextFound(services: seq<RemoteService>, from: nat): (i: nat)
    requires from <= |services|
    ensures from <= i <= |services|
    ensures i < |services| ==> Found(services[i])
    ensures forall k :: from <= k < i ==> !Found(services[k])
    decreases |services| - from
  {
    if from == |services| || Found(services[from]) then from else NextFound(services, from + 1)
  }

  function OnServices(d: Device, status: Status, found: seq<ServiceDecl>): Outcome
    requires status == Success ==> found != []
  {
    match status
    case Success =>
      var next: Handle := (found[|found| - 1].range.end + 1) % 0x10000;
      Outcome(d.(services := RecordServices(d.services, found)), [DiscoverServices(next)])
    case InvalidHandle =>
      var i := NextFound(d.services, 0);
      if i < |d.services| then Outcome(d.(index := i), [DiscoverCharacteristics(d.services[i].range)])
      else Outcome(d, [])
    case _ => Outcome(d, [Message(status)])
  }

  function OnCharacteristics(d: Device, status: Status, declared: seq<CharacteristicDecl>): Outcome
    requires d.index < |d.services|
  {
    match status
    case Success =>
      var range := d.services[d.index].range;
      var start := if declared == [] then range.start else declared[|declared| - 1].value;
      Outcome(d.(characteristics := RecordCharacteristics(d.characteristics, d.services[d.index].service, declared)),
              [DiscoverCharacteristics(Range(start, range.end))])
    case AttributeNotFound =>
      var i := NextFound(d.services, d.index + 1);
      if i < |d.services| then Outcome(d.(index := i), [DiscoverCharacteristics(d.services[i].range)])
      else Outcome(d, [RemoteServicesDiscovered])
    case _ => Outcome(d, [Message(status)])
  }

  // ---- All of it --------------------------------------------------------------------------

  /** Events the SoftDevice can report at all: a successful service response is not empty, and a
      characteristic response answers a request, so a service is under discovery. */
  predicate Meaningful(d: Device, e: Event) {
    && (e.ServicesResponse? && e.serviceStatus == Success ==> e.found != [])
    && (e.CharacteristicsResponse? ==> d.index < |d.services|)
  }

  function Step(d: Device, e: Event): Outcome
    requires Meaningful(d, e)
  {
    match e
    case TxComplete(count) => Outcome(d.(tx := (d.tx + count) % 256), [])
    case Connected(conn, credit) => OnConnected(d, conn, credit)
    case Disconnected => OnDisconnected(d)
    case Write(handle, data) => OnWriteFrom(d, handle, data, 0)
    case ServicesResponse(status, found) => OnServices(d, status, found)
    case CharacteristicsResponse(status, declared) => OnCharacteristics(d, status, declared)
    case RemoteAnswered => Outcome(d.(requestInProgress := false), [])
    case UpdateValue(i) => OnUpdate(d, i)
    case WriteRemote(i) => OnWriteRemote(d, i)
  }
}

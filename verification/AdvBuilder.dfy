/** The two objects around the advertising payload: `BLEPeripheral`, which edits its packets in
    place, and `BLENode`, which walks a received one. */
module AdvBuilder {
  import opened Bytes
  import opened Memory
  import opened AdvPacket

  /** The search loop of `addFieldInPck`. */
  method FindField(packet: array<Byte>, ghost len: nat, ghost fs: seq<Field>, kind: Byte)
    returns (inPck: bool, pos: nat)
    requires Holds(packet[..], len, fs)
    ensures inPck == (IndexOf(fs, kind) < |fs|)
    ensures inPck ==> pos == |Encode(fs[..IndexOf(fs, kind)])| < len
  {
    hide Encode, IndexOf;
    ghost var i := 0;
    pos, inPck := 0, false;
    assert fs[..0] == [] && Encode([]) == [] by { EncodeNothing(); }
    while pos < MAX_SIZE && packet[pos] != 0
      invariant 0 <= i <= |fs| && Short(fs[..i]) && pos == |Encode(fs[..i])| <= len
      invariant forall k :: 0 <= k < i ==> fs[k].kind != kind
      invariant i == |fs| ==> pos == len
      invariant !inPck
      decreases len - pos
    {
      assert i < |fs|;
      FieldAt(packet[..], len, fs, i);
      if packet[pos + 1] == kind {
        inPck := true;
        break;
      }
      pos := pos + packet[pos] as int + 1;
      i := i + 1;
      assert i == |fs| ==> fs[..i] == fs;
    }
    if !inPck && i < |fs| {
      FieldAt(packet[..], len, fs, i);
    }
  }

  lemma EncodeNothing()
    ensures Encode([]) == []
  {}

  /** The shifting loop and the copy behind it: extend the field at `pos` by `data`. */
  method ExtendField(packet: array<Byte>, pckLen: nat, pos: nat, data: seq<Byte>)
    requires packet.Length == 32 && pos < 32
    requires pos + packet[pos] + 1 <= pckLen && pckLen + |data| <= 32 && packet[pos] + |data| < 256
    modifies packet
    ensures packet[..] == Extended(old(packet[..]), pckLen, pos, data)
  {
    hide Write;
    var e := pos + packet[pos] as int + 1;
    var i := pckLen + |data| - 1;
    while i >= e + |data|
      invariant e + |data| - 1 <= i < pckLen + |data|
      invariant forall k :: 0 <= k <= i || pckLen + |data| <= k < 32 ==> packet[k] == old(packet[k])
      invariant forall k :: i < k < pckLen + |data| ==> packet[k] == old(packet[k - |data|])
    {
      packet[i] := packet[i - |data|];
      i := i - 1;
    }
    assert packet[..] == Write(old(packet[..]), e + |data|, old(packet[..])[e..pckLen]);
    CopyIn(packet, pos + packet[pos] as int + 1, data);
    packet[pos] := packet[pos] + |data|;
  }

  /** `addFieldInPck` on the packet it has chosen. */
  method AddToPacket(packet: array<Byte>, pckLen: nat, ghost fs: seq<Field>, kind: Byte, data: seq<Byte>)
    returns (newLen: nat)
    requires Holds(packet[..], pckLen, fs) && ProperLength(kind, |data|) && pckLen + |data| + 2 <= MAX_SIZE
    modifies packet
    ensures Holds(packet[..], newLen, AddField(fs, kind, data))
  {
    hide Encode, IndexOf, Write, Extended, AddField;
    var inPck, pos := FindField(packet, pckLen, fs, kind);
    newLen := pckLen;
    if inPck {
      if kind == TX_POWER || kind == APPEARANCE {
        OverwriteHolds(packet[..], pckLen, fs, kind, data, pos);
        CopyIn(packet, pos + 2, data);
      } else {
        ExtendHolds(packet[..], pckLen, fs, kind, data, pos);
        ExtendField(packet, pckLen, pos, data);
        newLen := pckLen + |data|;
      }
    } else {
      AppendHolds(packet[..], pckLen, fs, kind, data);
      ghost var was := packet[..];
      packet[pckLen] := |data| + 1;
      packet[pckLen + 1] := kind;
      CopyIn(packet, pckLen + 2, data);
      assert packet[..] == Write(was, pckLen, [|data| + 1, kind] + data);
      newLen := pckLen + |data| + 2;
    }
  }

  class BLEPeripheral {
    var advData: array<Byte>
    var advDataLength: nat
    var scanData: array<Byte>
    var scanDataLength: nat
    ghost var fields: Packets

    ghost predicate Valid()
      reads this, advData, scanData
    {
      && advData != scanData
      && Holds(advData[..], advDataLength, fields.adv)
      && Holds(scanData[..], scanDataLength, fields.scan)
    }

    /** The constructor's packet: the flags field, then the default appearance. */
    constructor ()
      ensures Valid() && fresh(advData) && fresh(scanData)
      ensures fields == Packets([Field(0x01, [0x06]), Field(0x19, [0, 0])], []) == START
    {
      advData := new Byte[32](_ => 0);
      scanData := new Byte[32](_ => 0);
      advDataLength, scanDataLength := 3, 0;
      fields := Packets([Field(0x01, [0x06])], []);
      new;
      advData[0], advData[1], advData[2] := 2, 0x01, 0x06;
      EncodeOne(Field(0x01, [0x06]));
      AddFieldInPck(APPEARANCE, [0, 0]);
    }

    /** `addFieldInPck`: the chosen packet changes by one edit, the other not at all. */
    method AddFieldInPck(kind: Byte, data: seq<Byte>)
      requires Valid() && |data| < 256 && ProperLength(kind, |data|)
      modifies this, advData, scanData
      ensures Valid() && advData == old(advData) && scanData == old(scanData)
      ensures fields == AddToPackets(old(fields), kind, data)
      ensures fields.adv == old(fields.adv) ==>
                advData[..] == old(advData[..]) && advDataLength == old(advDataLength)
      ensures fields.scan == old(fields.scan) ==>
                scanData[..] == old(scanData[..]) && scanDataLength == old(scanDataLength)
    {
      hide Encode, IndexOf;
      if advDataLength < 28 && 28 - advDataLength >= |data| {
        advDataLength := AddToPacket(advData, advDataLength, fields.adv, kind, data);
        SameFieldsSameBytes(old(advData[..]), advData[..], old(advDataLength), advDataLength,
                            old(fields.adv), AddField(fields.adv, kind, data));
        fields := fields.(adv := AddField(fields.adv, kind, data));
      } else if scanDataLength < 29 && 29 - scanDataLength >= |data| {
        scanDataLength := AddToPacket(scanData, scanDataLength, fields.scan, kind, data);
        SameFieldsSameBytes(old(scanData[..]), scanData[..], old(scanDataLength), scanDataLength,
                            old(fields.scan), AddField(fields.scan, kind, data));
        fields := fields.(scan := AddField(fields.scan, kind, data));
      }
    }
  }

  lemma SameFieldsSameBytes(a: seq<Byte>, b: seq<Byte>, m: nat, n: nat, fs: seq<Field>, gs: seq<Field>)
    requires Holds(a, m, fs) && Holds(b, n, gs)
    ensures fs == gs ==> a == b && m == n
  {
    if fs == gs {
      assert a == a[..m] + a[m..] && b == b[..n] + b[n..];
    }
  }

  // ---- The receiver -----------------------------------------------------------------------

  /** What a reader of type `kind` should see: the data of the first such field. */
  function Lookup(fs: seq<Field>, kind: Byte): Option<seq<Byte>> {
    var i := IndexOf(fs, kind);
    if i < |fs| then Some(fs[i].data) else None
  }

  /** The end of the receiver's walk: a field of the type, the end of the payload, or a length
      byte that leads out of the packet. */
  datatype Walked = Hit(data: seq<Byte>) | Miss | Astray

  function Walk(pck: seq<Byte>, dlen: nat, i: nat, kind: Byte): Walked
    decreases dlen - i
  {
    if i >= dlen then Miss
    else if i + 1 >= |pck| then Astray
    else if pck[i + 1] != kind then Walk(pck, dlen, i + pck[i] as int + 1, kind)
    else if pck[i] == 0 || i + 1 + pck[i] as int > |pck| then Astray
    else Hit(pck[i + 2..i + 1 + pck[i] as int])
  }

  /** On the encoding of a field list the walk never goes astray and finds what the list says. */
  lemma {:induction false} WalkReadsFields(pck: seq<Byte>, dlen: nat, fs: seq<Field>, f: nat, kind: Byte)
    requires Short(fs) && dlen <= |pck| && pck[..dlen] == Encode(fs) && f <= |fs|
    requires forall k :: 0 <= k < f ==> fs[k].kind != kind
    ensures Short(fs[..f]) && Walk(pck, dlen, |Encode(fs[..f])|, kind) ==
              match Lookup(fs, kind)
              case Some(data) => Hit(data)
              case None => Miss
    decreases |fs| - f
  {
    hide Encode, IndexOf;
    if f == |fs| {
      assert fs[..f] == fs;
    } else {
      FieldAt(pck, dlen, fs, f);
      if fs[f].kind == kind {
        assert IndexOf(fs, kind) == f;
      } else {
        WalkReadsFields(pck, dlen, fs, f + 1, kind);
      }
    }
  }

  /** The copy of the field and the NUL behind it. */
  method CopyField(result: array<Byte>, data: seq<Byte>)
    requires |data| < result.Length
    modifies result
    ensures result[..] == data + [0] + old(result[..])[|data| + 1..]
  {
    CopyIn(result, 0, data);
    result[|data|] := 0;
  }

  /** A length byte of zero does not end the payload, as the format would have it: the walk steps over
      it and reads on. */
  lemma ZeroLengthIsSteppedOver(pck: seq<Byte>, dlen: nat, fs: seq<Field>, kind: Byte)
    requires Short(fs) && fs != [] && dlen <= |pck| && pck[..dlen] == [0] + Encode(fs)
    requires |fs[0].data| + 1 != kind
    ensures Walk(pck, dlen, 0, kind) ==
              match Lookup(fs, kind)
              case Some(data) => Hit(data)
              case None => Miss
  {
    hide IndexOf;
    var n := |Encode(fs)|;
    assert dlen == n + 1 && pck[0] == 0;
    assert pck[1..][..n] == Encode(fs) by {
      assert pck[..dlen][1..] == Encode(fs);
    }
    assert pck[1] == pck[1..][0] == Encode(fs)[0] == |fs[0].data| + 1;
    assert Walk(pck, dlen, 0, kind) == Walk(pck, dlen, 1, kind);
    hide Encode, Walk;
    WalkShift(pck, dlen, 1, kind);
    assert fs[..0] == [] && Encode([]) == [] by { EncodeNothing(); }
    WalkReadsFields(pck[1..], n, fs, 0, kind);
  }

  /** Walking from position `i` of a packet is walking from `i - 1` of the packet without its head. */
  lemma {:induction false} WalkShift(pck: seq<Byte>, dlen: nat, i: nat, kind: Byte)
    requires pck != [] && 1 <= dlen && 1 <= i
    ensures Walk(pck, dlen, i, kind) == Walk(pck[1..], dlen - 1, i - 1, kind)
    decreases dlen - i
  {
    if i < dlen && i + 1 < |pck| {
      assert pck[1..][i - 1] == pck[i] && pck[1..][i] == pck[i + 1];
      if pck[i + 1] != kind {
        WalkShift(pck, dlen, i + pck[i] as int + 1, kind);
      } else if pck[i] != 0 && i + 1 + pck[i] as int <= |pck| {
        assert pck[1..][i + 1..i + pck[i] as int] == pck[i + 2..i + 1 + pck[i] as int];
      }
    }
  }

  /** `ble_gap_evt_adv_report_t`. */
  datatype Report = Report(address: seq<Byte>, data: seq<Byte>, kind: Byte, scanResponse: bool, rssi: int)

  class BLENode {
    var address: array<Byte>
    var advPck: array<Byte>
    var dlen: nat
    var kind: Byte
    var scanResponse: bool
    var rssi: int

    ghost predicate Valid()
      reads this, advPck
    {
      address.Length == 6 && advPck.Length == 31 && dlen <= 31 && address != advPck
    }

    constructor ()
      ensures Valid() && dlen == 0 && fresh(advPck) && fresh(address)
    {
      address := new Byte[6](_ => 0);
      advPck := new Byte[31](_ => 0);
      dlen, kind, scanResponse, rssi := 0, 0, false, 0;
    }

    /** `setAdvPck`: take over the report; bytes behind the payload stay as they were. */
    method SetAdvPck(report: Report)
      requires Valid() && |report.address| == 6 && |report.data| <= 31
      modifies this, address, advPck
      ensures Valid() && address == old(address) && advPck == old(advPck)
      ensures Report(address[..], advPck[..dlen], kind, scanResponse, rssi) == report
      ensures advPck[dlen..] == old(advPck[..])[dlen..]
    {
      for i := 0 to 6
        invariant address == old(address) && advPck == old(advPck) && advPck[..] == old(advPck[..])
        invariant forall k :: 0 <= k < i ==> address[k] == report.address[k]
      {
        address[i] := report.address[i];
      }
      dlen := |report.data|;
      for j := 0 to dlen
        invariant address == old(address) && advPck == old(advPck) && address[..] == report.address
        invariant dlen == |report.data| && forall k :: 0 <= k < j ==> advPck[k] == report.data[k]
        invariant forall k :: j <= k < 31 ==> advPck[k] == old(advPck[k])
      {
        advPck[j] := report.data[j];
      }
      kind, scanResponse, rssi := report.kind, report.scanResponse, report.rssi;
    }

    /** `getFieldInAdvPck`, on every payload whose walk stays inside the packet: the data of the
        field with a NUL behind it, or length 0. */
    method GetFieldInAdvPck(kind: Byte, result: array<Byte>) returns (len: nat)
      requires Valid() && Walk(advPck[..], dlen, 0, kind) != Astray
      requires result != advPck && result.Length >= 31
      modifies result
      ensures match Walk(advPck[..], dlen, 0, kind)
              case Hit(data) => len == |data| < 31 && result[..] == data + [0] + old(result[..])[len + 1..]
              case _ => len == 0 && result[..] == old(result[..])
    {
      len := 0;
      var i: nat := 0;
      while i < dlen
        invariant Walk(advPck[..], dlen, i, kind) == Walk(advPck[..], dlen, 0, kind)
        invariant len == 0 && result[..] == old(result[..])
        decreases dlen - i
      {
        if advPck[i + 1] == kind {
          len := advPck[i] - 1;
          CopyField(result, advPck[i + 2..i + 2 + len]);
          assert advPck[..][i + 2..i + 2 + len] == advPck[i + 2..i + 2 + len];
          return;
        }
        i := i + advPck[i] as int + 1;
      }
    }
  }

  // ---- Broadcast --------------------------------------------------------------------------

  const BLE_BROADCAST := 1

  /** `broadcastCharacteristic` of a registered characteristic: with the broadcast property and a
      service, the advertisement with a service-data field behind it, when it fits; the copy that
      `begin` took is not changed. */
  method BroadcastCharacteristic(advData: array<Byte>, advDataLen: nat, properties: Byte,
                                 service: Option<seq<Byte>>, value: seq<Byte>)
    returns (sent: Option<seq<Byte>>)
    requires advDataLen <= 31 && 31 <= advData.Length && (service.Some? ==> |service.value| >= 2) && |value| <= 20
    ensures sent == if properties % 2 == 1 && service.Some? && advDataLen + 4 + |value| <= 31
                    then Some(advData[..advDataLen] + ([3 + |value|, 0x16] + (service.value[..2] + value)))
                    else None
  {
    hide Write;
    if properties % 2 != BLE_BROADCAST || service == None {
      return None;
    }
    var uuid := service.value;
    var packet := new Byte[31](_ => 0);
    CopyIn(packet, 0, advData[..advDataLen]);
    var total := advDataLen + 4 + |value|;
    if total <= 31 {
      packet[advDataLen] := 3 + |value|;
      packet[advDataLen + 1] := SERVICE_DATA;
      CopyIn(packet, advDataLen + 2, uuid[..2]);
      CopyIn(packet, advDataLen + 4, value);
      assert packet[..advDataLen] == advData[..advDataLen];
      assert packet[advDataLen..total] == [3 + |value|, SERVICE_DATA] + (uuid[..2] + value);
      assert packet[..total] == packet[..advDataLen] + packet[advDataLen..total];
      return Some(packet[..total]);
    }
    return None;
  }

  /** The broadcast payload is the field list with one more field. */
  lemma BroadcastEncodes(fs: seq<Field>, uuid: seq<Byte>, value: seq<Byte>)
    requires Short(fs) && |uuid| >= 2 && |value| <= 20
    ensures var gs := fs + [Field(SERVICE_DATA, uuid[..2] + value)];
            Short(gs) && Encode(gs) == Encode(fs) + ([3 + |value|, SERVICE_DATA] + (uuid[..2] + value))
  {
    var f := Field(SERVICE_DATA, uuid[..2] + value);
    EncodeOne(f);
    EncodeConcat(fs, [f]);
  }

  // ---- Whole runs -------------------------------------------------------------------------

  datatype Call = Call(kind: Byte, data: seq<Byte>)

  ghost predicate ProperCalls(calls: seq<Call>) {
    forall i :: 0 <= i < |calls| ==> |calls[i].data| < 256 && ProperLength(calls[i].kind, |calls[i].data|)
  }

  ghost predicate BothWellFormed(p: Packets) { WellFormed(p.adv) && WellFormed(p.scan) }

  /** The buffer that holds a well-formed list. */
  ghost function Image(fs: seq<Field>): seq<Byte>
    requires WellFormed(fs)
  {
    Encode(fs) + seq(32 - |Encode(fs)|, _ => 0)
  }

  lemma AddKeepsWellFormed(fs: seq<Field>, kind: Byte, data: seq<Byte>)
    requires WellFormed(fs) && ProperLength(kind, |data|) && |Encode(fs)| + |data| + 2 <= MAX_SIZE
    ensures WellFormed(AddField(fs, kind, data))
  {
    hide Encode, IndexOf, Write, Extended;
    var i, len := IndexOf(fs, kind), |Encode(fs)|;
    assert Image(fs)[..len] == Encode(fs);
    if i == |fs| {
      AppendHolds(Image(fs), len, fs, kind, data);
    } else {
      FieldAt(Image(fs), len, fs, i);
      var pos := |Encode(fs[..i])|;
      if FixedLength(kind) {
        OverwriteHolds(Image(fs), len, fs, kind, data, pos);
      } else {
        ExtendHolds(Image(fs), len, fs, kind, data, pos);
      }
    }
  }

  /** The four things that can happen to one field list. */
  ghost predicate Appended(fs: seq<Field>, gs: seq<Field>, kind: Byte, data: seq<Byte>) {
    gs == fs + [Field(kind, data)] && forall i :: 0 <= i < |fs| ==> fs[i].kind != kind
  }

  ghost predicate ExtendedAt(fs: seq<Field>, gs: seq<Field>, kind: Byte, data: seq<Byte>, i: nat) {
    i < |fs| && fs[i].kind == kind && gs == fs[i := Field(kind, fs[i].data + data)]
  }

  ghost predicate OverwrittenAt(fs: seq<Field>, gs: seq<Field>, kind: Byte, data: seq<Byte>, i: nat) {
    i < |fs| && fs[i].kind == kind && |fs[i].data| == |data| && gs == fs[i := Field(kind, data)]
  }

  ghost predicate Edited(fs: seq<Field>, gs: seq<Field>, kind: Byte, data: seq<Byte>) {
    || Appended(fs, gs, kind, data)
    || (!FixedLength(kind) && exists i :: ExtendedAt(fs, gs, kind, data, i))
    || (FixedLength(kind) && exists i :: OverwrittenAt(fs, gs, kind, data, i))
  }

  /** One call makes one edit in one packet and keeps both well-formed: the advertisement while
      its bytes and the new data stay within 28, then the scan response within 29, then none. */
  lemma CallMakesOneEdit(p: Packets, kind: Byte, data: seq<Byte>)
    requires BothWellFormed(p) && ProperLength(kind, |data|)
    ensures var q := AddToPackets(p, kind, data);
            && BothWellFormed(q)
            && (if |Encode(p.adv)| < 28 && |Encode(p.adv)| + |data| <= 28
                then q.scan == p.scan && Edited(p.adv, q.adv, kind, data)
                else if |Encode(p.scan)| < 29 && |Encode(p.scan)| + |data| <= 29
                then q.adv == p.adv && Edited(p.scan, q.scan, kind, data)
                else q == p)
  {
    hide Encode, IndexOf;
    var a, s := |Encode(p.adv)|, |Encode(p.scan)|;
    if a < 28 && 28 - a >= |data| {
      AddKeepsWellFormed(p.adv, kind, data);
      AddIsEdit(p.adv, kind, data);
    } else if s < 29 && 29 - s >= |data| {
      AddKeepsWellFormed(p.scan, kind, data);
      AddIsEdit(p.scan, kind, data);
    }
  }

  lemma AddIsEdit(fs: seq<Field>, kind: Byte, data: seq<Byte>)
    requires WellFormed(fs) && ProperLength(kind, |data|)
    ensures Edited(fs, AddField(fs, kind, data), kind, data)
  {
    hide Encode;
    var i, gs := IndexOf(fs, kind), AddField(fs, kind, data);
    assert i < |fs| && FixedLength(kind) ==> OverwrittenAt(fs, gs, kind, data, i);
    assert i < |fs| && !FixedLength(kind) ==> ExtendedAt(fs, gs, kind, data, i);
  }

  /** A type of fixed length that is in the advertisement already shows its new value there if and
      only if the length test leaves room for it once more; otherwise the value goes into the scan
      response, or nowhere, and the advertisement keeps the old one. */
  lemma UpdateShowsIff(p: Packets, kind: Byte, data: seq<Byte>)
    requires BothWellFormed(p) && FixedLength(kind) && ProperLength(kind, |data|)
    requires Lookup(p.adv, kind).Some? && Lookup(p.adv, kind) != Some(data)
    ensures var q := AddToPackets(p, kind, data);
            && (Lookup(q.adv, kind) == Some(data) <==> |Encode(p.adv)| + |data| <= 28)
            && (|Encode(p.adv)| + |data| > 28 ==> q.adv == p.adv)
  {
    hide Encode, IndexOf;
    var i, gs := IndexOf(p.adv, kind), AddField(p.adv, kind, data);
    assert gs == p.adv[i := Field(kind, data)] && gs[i].kind == kind;
    assert forall k :: 0 <= k < i ==> gs[k] == p.adv[k];
    assert IndexOf(gs, kind) == i;
  }

  /** What the constructor leaves. */
  const START := Packets([Field(0x01, [0x06]), Field(APPEARANCE, [0, 0])], [])

  lemma StartWellFormed()
    ensures BothWellFormed(START) && |Encode(START.adv)| == 7 && |Encode(START.scan)| == 0
  {
    var flags, appearance := Field(0x01, [0x06]), Field(APPEARANCE, [0, 0]);
    EncodeOne(flags);
    EncodeOne(appearance);
    EncodeConcat([flags], [appearance]);
    assert START.adv == [flags] + [appearance];
  }

  /** The failing family is not empty: behind a name of 21 bytes a new appearance is put into the
      scan response, and the advertisement still shows the default. */
  lemma StaleAppearanceCounterexample()
    ensures var name: seq<Byte> := seq(21, _ => 65);
            var calls := [Call(0x09, name), Call(APPEARANCE, [1, 1])];
            && BothWellFormed(START) && ProperCalls(calls)
            && Lookup(Built(START, calls).adv, APPEARANCE) == Some([0, 0])
            && Lookup(Built(START, calls).scan, APPEARANCE) == Some([1, 1])
  {
    StartWellFormed();
    var name: seq<Byte> := seq(21, _ => 65);
    var calls := [Call(0x09, name), Call(APPEARANCE, [1, 1])];
    CallMakesOneEdit(START, 0x09, name);
    var p := AddToPackets(START, 0x09, name);
    NameAppended(name);
    CallMakesOneEdit(p, APPEARANCE, [1, 1]);
    var q := AddToPackets(p, APPEARANCE, [1, 1]);
    assert q == Packets(p.adv, [Field(APPEARANCE, [1, 1])]);
    assert calls[1..] == [calls[1]] && calls[1..][1..] == [];
    assert Built(p, calls[1..]) == Built(q, []) == q;
    assert IndexOf(p.adv, APPEARANCE) == 1;
  }

  lemma NameAppended(name: seq<Byte>)
    requires |name| == 21
    ensures BothWellFormed(START) && var p := AddToPackets(START, 0x09, name);
            && p == Packets(START.adv + [Field(0x09, name)], [])
            && Short(p.adv) && |Encode(p.adv)| == 30
  {
    StartWellFormed();
    var f := Field(0x09, name);
    assert IndexOf(START.adv, 0x09) == 2;
    EncodeOne(f);
    EncodeConcat(START.adv, [f]);
  }

  ghost function Built(p: Packets, calls: seq<Call>): (q: Packets)
    requires BothWellFormed(p) && ProperCalls(calls)
    ensures BothWellFormed(q)
    decreases |calls|
  {
    if calls == [] then p
    else
      CallMakesOneEdit(p, calls[0].kind, calls[0].data);
      Built(AddToPackets(p, calls[0].kind, calls[0].data), calls[1..])
  }

  /** The fields on the air: those of the advertisement, and the broadcast behind them. */
  ghost function OnAir(fs: seq<Field>, properties: Byte, service: Option<seq<Byte>>, value: seq<Byte>): seq<Field>
    requires Short(fs) && (service.Some? ==> |service.value| >= 2)
  {
    if properties % 2 == BLE_BROADCAST && service.Some? && |Encode(fs)| + 4 + |value| <= 31
    then fs + [Field(SERVICE_DATA, service.value[..2] + value)] else fs
  }

  /** What a receiver of one type should report. */
  ghost predicate Reads(fs: seq<Field>, kind: Byte, len: nat, data: seq<Byte>) {
    match Lookup(fs, kind)
    case Some(d) => len == |d| && data == d
    case None => len == 0 && data == []
  }

  /** From the constructor on, whatever is built is what a scanner reads, in the advertisement and
      in the scan response: every type returns exactly its data, with or without a broadcast behind
      the advertisement, and an absent type nothing. */
  method AdvertiseAndScan(calls: seq<Call>, properties: Byte, service: Option<seq<Byte>>, value: seq<Byte>, kind: Byte)
    returns (len: nat, data: seq<Byte>, scanLen: nat, scanned: seq<Byte>)
    requires ProperCalls(calls) && |value| <= 20 && (service.Some? ==> |service.value| >= 2)
    ensures BothWellFormed(START)
    ensures Reads(OnAir(Built(START, calls).adv, properties, service, value), kind, len, data)
    ensures Reads(Built(START, calls).scan, kind, scanLen, scanned)
  {
    hide Encode, IndexOf, AddToPackets, Walk;
    var peripheral := new BLEPeripheral();
    for i := 0 to |calls|
      invariant peripheral.Valid() && fresh(peripheral) && fresh(peripheral.advData) && fresh(peripheral.scanData)
      invariant BothWellFormed(START) && Built(peripheral.fields, calls[i..]) == Built(START, calls)
    {
      assert calls[i..][0] == calls[i] && calls[i..][1..] == calls[i + 1..];
      peripheral.AddFieldInPck(calls[i].kind, calls[i].data);
    }
    ghost var fs := peripheral.fields.adv;
    assert calls[|calls|..] == [];
    var payload := peripheral.advData[..peripheral.advDataLength];
    ghost var gs := OnAir(fs, properties, service, value);
    var sent := BroadcastCharacteristic(peripheral.advData, peripheral.advDataLength, properties, service, value);
    if sent.Some? {
      payload := sent.value;
      BroadcastEncodes(fs, service.value, value);
    }
    len, data := Receive(payload, false, kind, gs);
    scanLen, scanned := Receive(peripheral.scanData[..peripheral.scanDataLength], true, kind, peripheral.fields.scan);
  }

  /** The receiving side, on the encoding of a field list. */
  method Receive(payload: seq<Byte>, scanResponse: bool, kind: Byte, ghost fs: seq<Field>)
    returns (len: nat, data: seq<Byte>)
    requires |payload| <= 31 && Short(fs) && payload == Encode(fs)
    ensures Reads(fs, kind, len, data)
  {
    hide Encode, IndexOf, Walk;
    var node := new BLENode();
    node.SetAdvPck(Report([0, 0, 0, 0, 0, 0], payload, 0, scanResponse, 0));
    WalkReadsFields(node.advPck[..], node.dlen, fs, 0, kind);
    assert fs[..0] == [] && Encode([]) == [] by { EncodeNothing(); }
    var result := new Byte[31](_ => 0);
    len := node.GetFieldInAdvPck(kind, result);
    data := result[..len];
  }
}

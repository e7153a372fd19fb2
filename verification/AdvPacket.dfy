/** The advertising payload (Bluetooth Core Specification, Vol 3, Part C, section 11): built in
    place by libraries/BLE/BLEPeripheral.cpp, extended by nRF51822.cpp for a broadcast, and read
    back by libraries/BLE/BLENode.cpp. */
module AdvPacket {
  import opened Bytes
  import opened Memory

  const MAX_SIZE := 31
  const TX_POWER: Byte := 0x0A
  const APPEARANCE: Byte := 0x19
  const SERVICE_DATA: Byte := 0x16

  datatype Field = Field(kind: Byte, data: seq<Byte>)

  // ---- The format -------------------------------------------------------------------------

  function Header(f: Field): seq<Byte>
    requires |f.data| < 255
  {
    [|f.data| + 1, f.kind]
  }

  ghost predicate Short(fs: seq<Field>) {
    forall i :: 0 <= i < |fs| ==> |fs[i].data| < 255
  }

  function Encode(fs: seq<Field>): (r: seq<Byte>)
    requires Short(fs)
    ensures fs != [] ==> |r| >= 2
  {
    if fs == [] then [] else Header(fs[0]) + fs[0].data + Encode(fs[1..])
  }

  /** A length/type/value list, read as the format says. */
  function Parse(s: seq<Byte>): Option<seq<Field>>
    decreases |s|
  {
    if s == [] then Some([])
    else if s[0] == 0 || s[0] + 1 > |s| then None
    else
      match Parse(s[s[0] + 1..])
      case None => None
      case Some(rest) => Some([Field(s[1], s[2..s[0] + 1])] + rest)
  }

  lemma {:induction false} ParseEncode(fs: seq<Field>)
    requires Short(fs)
    ensures Parse(Encode(fs)) == Some(fs)
  {
    if fs != [] {
      var s, n := Encode(fs), |fs[0].data| + 2;
      assert s[0] as int + 1 == n && s[2..n] == fs[0].data && s[n..] == Encode(fs[1..]);
      ParseEncode(fs[1..]);
      assert [fs[0]] + fs[1..] == fs;
    }
  }

  lemma {:induction false} EncodeConcat(a: seq<Field>, b: seq<Field>)
    requires Short(a) && Short(b)
    ensures Short(a + b) && Encode(a + b) == Encode(a) + Encode(b)
  {
    if a == [] {
      assert a + b == b;
    } else {
      EncodeConcat(a[1..], b);
      assert (a + b)[1..] == a[1..] + b;
    }
  }

  lemma EncodeOne(f: Field)
    requires |f.data| < 255
    ensures Encode([f]) == Header(f) + f.data
  {
    assert [f][1..] == [];
  }

  lemma SplitAt(fs: seq<Field>, i: nat)
    requires i < |fs|
    ensures fs == fs[..i] + ([fs[i]] + fs[i + 1..])
    ensures fs[..i + 1] == fs[..i] + [fs[i]]
  {}

  /** Replacing field `i` leaves the encodings around it alone. */
  lemma EncodeUpdate(fs: seq<Field>, i: nat, f: Field)
    requires Short(fs) && i < |fs| && |f.data| < 255
    ensures Short(fs[i := f]) && Short(fs[..i]) && Short(fs[i + 1..])
    ensures Encode(fs[i := f]) == Encode(fs[..i]) + (Header(f) + f.data + Encode(fs[i + 1..]))
  {
    hide Encode;
    var fs' := fs[i := f];
    assert fs'[..i] == fs[..i];
    assert fs'[i + 1..] == fs[i + 1..];
    EncodeSplit(fs', i);
  }

  lemma ShortParts(fs: seq<Field>, i: nat)
    requires Short(fs) && i < |fs|
    ensures Short(fs[..i]) && Short(fs[..i + 1]) && Short(fs[i + 1..]) && Short([fs[i]])
  {}

  lemma EncodeSplit(fs: seq<Field>, i: nat)
    requires Short(fs) && i < |fs|
    ensures Short(fs[..i]) && Short(fs[..i + 1]) && Short(fs[i + 1..])
    ensures Encode(fs) == Encode(fs[..i]) + (Header(fs[i]) + fs[i].data + Encode(fs[i + 1..]))
    ensures Encode(fs[..i + 1]) == Encode(fs[..i]) + (Header(fs[i]) + fs[i].data)
  {
    ShortParts(fs, i);
    hide Encode, Header, Short;
    SplitAt(fs, i);
    EncodeConcat([fs[i]], fs[i + 1..]);
    EncodeConcat(fs[..i], [fs[i]] + fs[i + 1..]);
    EncodeConcat(fs[..i], [fs[i]]);
    EncodeOne(fs[i]);
  }

  // ---- What addFieldInPck means ---------------------------------------------------------------

  predicate FixedLength(kind: Byte) { kind == TX_POWER || kind == APPEARANCE }

  /** The lengths with which the setters call: fixed-length types always with their own length. */
  predicate ProperLength(kind: Byte, n: int) {
    (kind == TX_POWER ==> n == 1) && (kind == APPEARANCE ==> n == 2)
  }

  function IndexOf(fs: seq<Field>, kind: Byte): (i: nat)
    ensures i <= |fs|
    ensures i < |fs| ==> fs[i].kind == kind
    ensures forall k :: 0 <= k < i ==> fs[k].kind != kind
  {
    if fs == [] || fs[0].kind == kind then 0 else 1 + IndexOf(fs[1..], kind)
  }

  /** Append a new field, overwrite one of fixed length, or extend the data of an existing one. */
  function AddField(fs: seq<Field>, kind: Byte, data: seq<Byte>): seq<Field> {
    var i := IndexOf(fs, kind);
    if i == |fs| then fs + [Field(kind, data)]
    else if FixedLength(kind) then fs[i := Field(kind, data)]
    else fs[i := Field(kind, fs[i].data + data)]
  }

  ghost predicate WellFormed(fs: seq<Field>) {
    && Short(fs)
    && |Encode(fs)| <= MAX_SIZE
    && (forall i, j :: 0 <= i < j < |fs| ==> fs[i].kind != fs[j].kind)
    && (forall i :: 0 <= i < |fs| ==> ProperLength(fs[i].kind, |fs[i].data|))
  }

  /** The buffer of one packet: its fields, then zeros. */
  ghost predicate Holds(packet: seq<Byte>, len: nat, fs: seq<Field>) {
    && |packet| == 32 && WellFormed(fs)
    && len == |Encode(fs)|
    && packet[..len] == Encode(fs)
    && forall i :: len <= i < 32 ==> packet[i] == 0
  }

  datatype Packets = Packets(adv: seq<Field>, scan: seq<Field>)

  /** The advertisement while it has room by its own rule, else the scan response, else nothing. */
  ghost function AddToPackets(p: Packets, kind: Byte, data: seq<Byte>): Packets
    requires Short(p.adv) && Short(p.scan)
  {
    var a, s := |Encode(p.adv)|, |Encode(p.scan)|;
    if a < 28 && 28 - a >= |data| then p.(adv := AddField(p.adv, kind, data))
    else if s < 29 && 29 - s >= |data| then p.(scan := AddField(p.scan, kind, data))
    else p
  }

  // ---- The bytes of each outcome --------------------------------------------------------------

  lemma AppendHolds(packet: seq<Byte>, len: nat, fs: seq<Field>, kind: Byte, data: seq<Byte>)
    requires Holds(packet, len, fs) && len + |data| + 2 <= MAX_SIZE && IndexOf(fs, kind) == |fs|
    requires ProperLength(kind, |data|)
    ensures Holds(Write(packet, len, [|data| + 1, kind] + data), len + |data| + 2, AddField(fs, kind, data))
  {
    var f := Field(kind, data);
    EncodeOne(f);
    EncodeConcat(fs, [f]);
    hide Encode, Write;
    var packet' := Write(packet, len, [|data| + 1, kind] + data);
    assert packet'[..len + |data| + 2] == packet[..len] + ([|data| + 1, kind] + data);
  }

  /** Writing new data over the data of a field of the same length. */
  lemma OverwriteBytes(packet: seq<Byte>, len: nat, head: seq<Byte>, h: seq<Byte>, was: seq<Byte>,
                       data: seq<Byte>, tail: seq<Byte>)
    requires |packet| == 32 && len <= 32 && packet[..len] == head + (h + was + tail) && |data| == |was|
    ensures var at := |head| + |h|;
            at + |data| <= 32 && Write(packet, at, data)[..len] == head + (h + data + tail)
  {
    hide Write;
    assert forall k :: 0 <= k < len ==> packet[k] == packet[..len][k];
  }

  lemma OverwriteHolds(packet: seq<Byte>, len: nat, fs: seq<Field>, kind: Byte, data: seq<Byte>, pos: nat)
    requires Holds(packet, len, fs) && ProperLength(kind, |data|) && FixedLength(kind)
    requires var i := IndexOf(fs, kind); i < |fs| && pos == |Encode(fs[..i])|
    ensures pos + 2 + |data| <= len
    ensures Holds(Write(packet, pos + 2, data), len, AddField(fs, kind, data))
  {
    var i := IndexOf(fs, kind);
    var fs' := AddField(fs, kind, data);
    hide Encode, Write, IndexOf;
    EncodeSplit(fs, i);
    EncodeUpdate(fs, i, Field(kind, data));
    OverwriteBytes(packet, len, Encode(fs[..i]), Header(fs[i]), fs[i].data, data, Encode(fs[i + 1..]));
  }

  /** Shift the later fields up by |data|, drop `data` in, and add to the length byte. */
  function Extended(packet: seq<Byte>, len: nat, pos: nat, data: seq<Byte>): seq<Byte>
    requires |packet| == 32 && pos < 32
    requires var e := pos + packet[pos] + 1; e <= len && len + |data| <= 32 && packet[pos] + |data| < 256
  {
    var e := pos + packet[pos] + 1;
    Write(Write(packet, e + |data|, packet[e..len]), e, data)[pos := packet[pos] + |data|]
  }

  lemma PartsAt(packet: seq<Byte>, len: nat, head: seq<Byte>, h: seq<Byte>, data: seq<Byte>, tail: seq<Byte>)
    requires len <= |packet| && packet[..len] == head + (h + data + tail) && |h| == 2
    ensures var pos := |head|;
            && pos + 2 + |data| <= len && packet[..pos] == head
            && packet[pos] == h[0] && packet[pos + 1] == h[1]
            && packet[pos + 2..pos + 2 + |data|] == data
            && packet[pos + 2 + |data|..len] == tail
  {
    assert forall k :: 0 <= k < len ==> packet[k] == packet[..len][k];
  }

  /** Where the field at index `i` sits: its length byte, its type byte, its data and its end. */
  lemma FieldAt(packet: seq<Byte>, len: nat, fs: seq<Field>, i: nat)
    requires Short(fs) && i < |fs| && len <= |packet| && packet[..len] == Encode(fs)
    ensures Short(fs[..i]) && Short(fs[..i + 1]) && Short(fs[i + 1..])
    ensures var pos := |Encode(fs[..i])|;
            && pos + 2 + |fs[i].data| <= len && packet[..pos] == Encode(fs[..i])
            && packet[pos] == |fs[i].data| + 1 && packet[pos + 1] == fs[i].kind
            && packet[pos + 2..pos + 2 + |fs[i].data|] == fs[i].data
            && packet[pos + 2 + |fs[i].data|..len] == Encode(fs[i + 1..])
            && |Encode(fs[..i + 1])| == pos + 2 + |fs[i].data|
  {
    hide Encode;
    EncodeSplit(fs, i);
    PartsAt(packet, len, Encode(fs[..i]), Header(fs[i]), fs[i].data, Encode(fs[i + 1..]));
  }

  lemma ExtendedBytes(packet: seq<Byte>, len: nat, pos: nat, was: seq<Byte>, data: seq<Byte>)
    requires |packet| == 32 && pos + 2 + |was| <= len && len + |data| <= 31
    requires packet[pos] == |was| + 1 && packet[pos + 2..pos + 2 + |was|] == was
    ensures var p := Extended(packet, len, pos, data);
            && |p| == 32
            && p[..len + |data|] == packet[..pos] + ([|was + data| + 1, packet[pos + 1]] + (was + data)
                                                     + packet[pos + 2 + |was|..len])
            && forall k :: len + |data| <= k < 32 ==> p[k] == packet[k]
  {
    hide Write;
    assert forall k :: pos + 2 <= k < pos + 2 + |was| ==> packet[k] == packet[pos + 2..pos + 2 + |was|][k - (pos + 2)];
  }

  lemma ExtendHolds(packet: seq<Byte>, len: nat, fs: seq<Field>, kind: Byte, data: seq<Byte>, pos: nat)
    requires Holds(packet, len, fs) && !FixedLength(kind) && len + |data| <= MAX_SIZE
    requires var i := IndexOf(fs, kind); i < |fs| && pos == |Encode(fs[..i])|
    ensures pos < 32 && pos + packet[pos] + 1 <= len && packet[pos] + |data| < 256
    ensures Holds(Extended(packet, len, pos, data), len + |data|, AddField(fs, kind, data))
  {
    var i := IndexOf(fs, kind);
    var fs' := AddField(fs, kind, data);
    hide Encode, Extended, IndexOf;
    FieldAt(packet, len, fs, i);
    EncodeUpdate(fs, i, Field(kind, fs[i].data + data));
    ExtendedBytes(packet, len, pos, fs[i].data, data);
  }
}

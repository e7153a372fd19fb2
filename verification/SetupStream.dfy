/** libraries/BLE/nRF8001.cpp: the setup messages, whose running CRC seed covers everything sent
    and whose last message carries the CRC itself. */
module SetupStream {
  import opened Bytes
  import opened Crc

  const ACI_CMD_SETUP: Byte := 0x06

  const SEED: Bits := seq(16, _ => true)

  /** Open while setup messages are sent; closed by the CRC message of `begin`, of length 6; any
      other use of the CRC flag, or a message after the last, leaves the stream irregular. */
  datatype Stream = Open | Closed | Irregular

  function StreamAfter(before: Stream, withCrc: bool, length: Byte): Stream {
    if before != Open then Irregular
    else if !withCrc then Open
    else if length == 6 then Closed
    else Irregular
  }

  lemma {:induction false} NumberOfOnes(n: nat)
    ensures Number(seq(n, _ => true)) + 1 == Power2(n)
  {
    if n > 0 {
      var ones: Bits := seq(n, _ => true);
      assert ones[..n - 1] == seq(n - 1, _ => true);
      NumberOfOnes(n - 1);
    }
  }

  lemma SeedIsAllOnes()
    ensures IsWord(SEED) && Number(SEED) == 0xFFFF
  {
    NumberOfOnes(16);
    assert Power2(16) == 65536 by { assert Power2(8) == 256 by { assert Power2(4) == 16; } assert Power2(12) == 4096; }
  }

  class Nrf8001 {
    var crcSeed: Bits
    ghost var sent: seq<Byte>
    ghost var stream: Stream

    /** While the stream is open the seed is the CRC of all bytes sent; once it is closed the
        whole stream, CRC included, divides without remainder. */
    ghost predicate Valid()
      reads this
    {
      && IsWord(crcSeed)
      && (stream == Open ==> crcSeed == BitSteps(SEED, AllBits(sent)))
      && (stream == Closed ==> BitSteps(SEED, AllBits(sent)) == Zeros(16))
    }

    /** `begin` resets the seed. */
    constructor ()
      ensures Valid() && stream == Open && sent == [] && Number(crcSeed) == 0xFFFF
    {
      crcSeed, sent, stream := SEED, [], Open;
      new;
      NoBits(SEED);
      SeedIsAllOnes();
    }

    /** `sendSetupMessage(data, withCrc)`: byte 0 of the message is its length. */
    method SendSetupMessage(buffer: array<Byte>, withCrc: bool)
      requires Valid() && buffer.Length > 0 && buffer[0] as int + 1 <= buffer.Length
      requires withCrc ==> buffer[0] >= 1 && buffer.Length >= 7
      modifies this, buffer
      ensures Valid() && stream == StreamAfter(old(stream), withCrc, old(buffer[0]))
      ensures old(stream) == Open && !withCrc ==> stream == Open
      ensures old(stream) == Open && withCrc && old(buffer[0]) == 6 ==> stream == Closed
      ensures var n := old(buffer[0]) as int + if withCrc then -1 else 1;
              crcSeed == BitSteps(old(crcSeed), AllBits(old(buffer[..])[..n]))
      ensures buffer[..] ==
                if withCrc then old(buffer[..5]) + CrcBytes(crcSeed) + old(buffer[7..]) else old(buffer[..])
      ensures buffer[0] == old(buffer[0]) && sent == old(sent) + buffer[..buffer[0] as int + 1]
    {
      hide BitSteps, AllBits, CrcBytes;
      var n := buffer[0] as int + if withCrc then -1 else 1;
      ghost var was, covered := buffer[..], buffer[..n];
      var seed := Crc16Ccitt(crcSeed, buffer[..n]);
      crcSeed := seed;
      if stream == Open {
        AllBitsConcat(sent, covered);
        BitStepsConcat(SEED, AllBits(sent), AllBits(covered));
      }
      if withCrc {
        var crc := CrcBytes(crcSeed);
        CrcOfBlockWithCrc(SEED, sent + covered);
        buffer[5] := crc[0];
        buffer[6] := crc[1];
        assert buffer[..] == was[..5] + crc + was[7..];
        if n == 5 {
          assert buffer[..7] == covered + crc;
          assert sent + buffer[..7] == (sent + covered) + crc;
        }
      }
      stream := StreamAfter(stream, withCrc, buffer[0]);
      sent := sent + buffer[..buffer[0] as int + 1];
    }

    /** The overload that fills in the header: command, 4-bit type and 12-bit offset. */
    method SendTyped(buffer: array<Byte>, kind: Byte, offset: nat, withCrc: bool) returns (next: nat)
      requires Valid() && offset < 0x10000 && buffer.Length >= 4 && buffer[0] as int + 1 <= buffer.Length
      requires withCrc ==> buffer[0] >= 1 && buffer.Length >= 7
      modifies this, buffer
      ensures Valid() && stream == StreamAfter(old(stream), withCrc, old(buffer[0]))
      ensures old(stream) == Open && !withCrc ==> stream == Open
      ensures old(stream) == Open && withCrc && old(buffer[0]) == 6 ==> stream == Closed
      ensures buffer[0] == old(buffer[0]) && sent == old(sent) + buffer[..buffer[0] as int + 1]
      ensures buffer[1] == 0x06 && buffer[2] / 16 == kind % 16
      ensures buffer[2] as int % 16 * 256 + buffer[3] as int == offset % 0x1000
      ensures var payload := old(buffer[4..]);
              buffer[4..] == if withCrc then payload[..1] + CrcBytes(crcSeed) + payload[3..] else payload
      ensures next == (offset + buffer[0] as int - 3) % 0x10000
    {
      hide BitSteps, AllBits, CrcBytes, Zeros;
      FillHeader(buffer, kind, offset);
      ghost var was := buffer[..];
      SendSetupMessage(buffer, withCrc);
      HeaderStays(was, buffer[..], CrcBytes(crcSeed), withCrc);
      next := (offset + buffer[0] as int - 3) % 0x10000;
    }
  }

  method FillHeader(buffer: array<Byte>, kind: Byte, offset: nat)
    requires offset < 0x10000 && buffer.Length >= 4
    modifies buffer
    ensures buffer[0] == old(buffer[0]) && buffer[1] == 0x06 && buffer[2] / 16 == kind % 16
    ensures buffer[2] as int % 16 * 256 + buffer[3] as int == offset % 0x1000
    ensures buffer[4..] == old(buffer[4..])
  {
    HeaderDigits(kind % 16, offset);
    buffer[1] := ACI_CMD_SETUP;
    buffer[2] := kind % 16 * 16 + offset / 256 % 16;
    buffer[3] := offset % 256;
  }

  lemma HeaderStays(was: seq<Byte>, now: seq<Byte>, crc: seq<Byte>, withCrc: bool)
    requires |was| >= 4 && |crc| == 2 && (withCrc ==> |was| >= 7)
    requires now == if withCrc then was[..5] + crc + was[7..] else was
    ensures |now| == |was| && forall i :: 0 <= i < 4 ==> now[i] == was[i]
    ensures now[4..] == if withCrc then was[4..][..1] + crc + was[4..][3..] else was[4..]
  {}

  lemma HeaderDigits(kind: nat, offset: nat)
    ensures (kind * 16 + offset / 256 % 16) / 16 == kind
    ensures (kind * 16 + offset / 256 % 16) % 16 * 256 + offset % 256 == offset % 0x1000
  {
    assert offset % 0x1000 == offset / 256 % 16 * 256 + offset % 256;
  }
}

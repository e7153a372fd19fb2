/** cores/arduino/RingBuffer.cpp: the receive ring, first as an object, then shared between
    `read_char` in the main program and `store_char` in the receive interrupt. */
module RingBuffer {
  import opened Bytes

  const SIZE := 64

  datatype Ring = Ring(buffer: seq<Byte>, head: nat, tail: nat)

  ghost predicate IsRing(r: Ring) { |r.buffer| == SIZE && r.head < SIZE && r.tail < SIZE }

  function NextIndex(i: nat): nat { (i + 1) % SIZE }

  /** `available`: the distance from tail to head, around the ring. */
  function Held(r: Ring): nat
    requires r.head < SIZE && r.tail < SIZE
  {
    if r.head - r.tail < 0 then SIZE + (r.head - r.tail) else r.head - r.tail
  }

  ghost function Contents(r: Ring): (s: seq<Byte>)
    requires IsRing(r)
    ensures |s| == Held(r) && forall i :: 0 <= i < |s| ==> s[i] == r.buffer[(r.tail + i) % SIZE]
  {
    seq(Held(r), i requires 0 <= i < Held(r) => r.buffer[(r.tail + i) % SIZE])
  }

  function Full(r: Ring): bool { NextIndex(r.head) == r.tail }

  /** `store_char`. */
  function Store(r: Ring, c: Byte): Ring
    requires r.head < |r.buffer|
  {
    if Full(r) then r else Ring(r.buffer[r.head := c], NextIndex(r.head), r.tail)
  }

  lemma FullIff63(r: Ring)
    requires IsRing(r)
    ensures Full(r) <==> Held(r) == 63
  {}

  lemma StoreAppends(r: Ring, c: Byte)
    requires IsRing(r) && !Full(r)
    ensures var r' := Store(r, c); IsRing(r') && Contents(r') == Contents(r) + [c]
  {
    var r' := Store(r, c);
    assert Held(r') == Held(r) + 1;
    assert (r.tail + Held(r)) % SIZE == r.head;
    forall i | 0 <= i < Held(r) ensures Contents(r')[i] == Contents(r)[i] {
      assert (r.tail + i) % SIZE != r.head;
    }
  }

  lemma AdvanceDropsFirst(r: Ring)
    requires IsRing(r) && Held(r) > 0
    ensures var r' := r.(tail := NextIndex(r.tail));
            IsRing(r') && Contents(r)[0] == r.buffer[r.tail] && Contents(r') == Contents(r)[1..]
  {
    var r' := r.(tail := NextIndex(r.tail));
    assert Held(r') == Held(r) - 1;
    forall i | 0 <= i < Held(r') ensures Contents(r')[i] == Contents(r)[i + 1] {
      assert (r'.tail + i) % SIZE == (r.tail + (i + 1)) % SIZE;
    }
  }

  // ---- The object, without interrupts --------------------------------------------------------

  class RxBuffer {
    var buffer: array<Byte>
    var head: nat
    var tail: nat

    ghost predicate Valid()
      reads this, buffer
    {
      buffer.Length == SIZE && head < SIZE && tail < SIZE
    }

    ghost function View(): Ring
      reads this, buffer
    {
      Ring(buffer[..], head, tail)
    }

    ghost function Text(): seq<Byte>
      requires Valid()
      reads this, buffer
    {
      Contents(View())
    }

    constructor ()
      ensures Valid() && Text() == []
    {
      buffer := new Byte[SIZE](_ => 0);
      head, tail := 0, 0;
    }

    method StoreChar(c: Byte)
      requires Valid()
      modifies this`head, buffer
      ensures Valid() && View() == Store(old(View()), c)
      ensures Text() == if |old(Text())| < 63 then old(Text()) + [c] else old(Text())
    {
      FullIff63(View());
      var i := (head + 1) % SIZE;
      if i != tail {
        StoreAppends(View(), c);
        buffer[head] := c;
        head := i;
      }
    }

    /** -1 when empty, else the oldest byte, which leaves the ring. */
    method ReadChar() returns (value: int)
      requires Valid()
      modifies this`tail
      ensures Valid()
      ensures if old(Text()) == [] then value == -1 && Text() == []
              else value == old(Text())[0] && Text() == old(Text())[1..]
    {
      if tail == head {
        return -1;
      }
      AdvanceDropsFirst(View());
      value := buffer[tail];
      tail := (tail + 1) % SIZE;
    }

    method Available() returns (n: nat)
      requires Valid()
      ensures n == |Text()| && n < SIZE
    {
      var delta := head - tail;
      n := if delta < 0 then SIZE + delta else delta;
    }

    method Peek() returns (value: int)
      requires Valid()
      ensures value == if Text() == [] then -1 else Text()[0]
    {
      value := if tail == head then -1 else buffer[tail];
    }

    method IsFull() returns (full: bool)
      requires Valid()
      ensures full <==> |Text()| == 63
    {
      FullIff63(View());
      full := (head + 1) % SIZE == tail;
    }
  }

  // ---- The reader, one load or store at a time, and the interrupt ------------------------------

  /** Where `read_char` stands: after the load of the tail, after the test, with the index, with
      the value, and with the tail loaded again for the increment. */
  datatype Reader =
    | Idle
    | TestTail(t: nat)
    | NotEmpty
    | HaveIndex(i: nat)
    | HaveValue(v: Byte)
    | Publish(v: Byte, t: nat)

  /** The shared ring, the reader, and what has been accepted, delivered and dropped so far. */
  datatype World = World(ring: Ring, reader: Reader, accepted: seq<Byte>, delivered: seq<Byte>, dropped: seq<Byte>)

  datatype Step = Interrupt(c: Byte) | Read

  function ReaderStep(w: World): World
    requires |w.ring.buffer| == SIZE && w.ring.tail < SIZE
    requires w.reader.HaveIndex? ==> w.reader.i < SIZE
  {
    match w.reader
    case Idle => w.(reader := TestTail(w.ring.tail))
    case TestTail(t) => w.(reader := if t == w.ring.head then Idle else NotEmpty)
    case NotEmpty => w.(reader := HaveIndex(w.ring.tail))
    case HaveIndex(i) => w.(reader := HaveValue(w.ring.buffer[i]))
    case HaveValue(v) => w.(reader := Publish(v, w.ring.tail))
    case Publish(v, t) =>
      w.(ring := w.ring.(tail := NextIndex(t)), reader := Idle, delivered := w.delivered + [v])
  }

  /** The interrupt runs `store_char` to its end between two steps of the reader. */
  function InterruptStep(w: World, c: Byte): World
    requires w.ring.head < |w.ring.buffer|
  {
    if Full(w.ring) then w.(dropped := w.dropped + [c])
    else w.(ring := Store(w.ring, c), accepted := w.accepted + [c])
  }

  ghost predicate Inv(w: World) {
    && IsRing(w.ring)
    && w.delivered + Contents(w.ring) == w.accepted
    && (w.reader != Idle && !w.reader.TestTail? ==> Held(w.ring) > 0)
    && (match w.reader
        case Idle => true
        case TestTail(t) => t == w.ring.tail
        case NotEmpty => true
        case HaveIndex(i) => i == w.ring.tail
        case HaveValue(v) => v == w.ring.buffer[w.ring.tail]
        case Publish(v, t) => t == w.ring.tail && v == w.ring.buffer[w.ring.tail])
  }

  function Next(w: World, s: Step): World
    requires |w.ring.buffer| == SIZE && w.ring.tail < SIZE && w.ring.head < SIZE
    requires w.reader.HaveIndex? ==> w.reader.i < SIZE
  {
    match s
    case Interrupt(c) => InterruptStep(w, c)
    case Read => ReaderStep(w)
  }

  lemma StepKeepsInv(w: World, s: Step)
    requires Inv(w)
    ensures Inv(Next(w, s))
    ensures Next(w, s).dropped != w.dropped ==> Held(w.ring) == 63
  {
    FullIff63(w.ring);
    match s
    case Interrupt(c) =>
      if !Full(w.ring) {
        StoreAppends(w.ring, c);
        assert w.delivered + (Contents(w.ring) + [c]) == (w.delivered + Contents(w.ring)) + [c];
      }
    case Read =>
      if w.reader.Publish? {
        AdvanceDropsFirst(w.ring);
        var s := Contents(w.ring);
        assert w.delivered + [s[0]] + s[1..] == w.delivered + s;
      }
  }

  ghost function Run(w: World, steps: seq<Step>): (r: World)
    requires Inv(w)
    ensures Inv(r)
    decreases |steps|
  {
    if steps == [] then w
    else
      StepKeepsInv(w, steps[0]);
      Run(Next(w, steps[0]), steps[1..])
  }

  function Start(buffer: seq<Byte>): World {
    World(Ring(buffer, 0, 0), Idle, [], [], [])
  }

  /** Under every interleaving: nothing accepted is lost, duplicated or reordered. */
  lemma EveryInterleavingIsFifo(buffer: seq<Byte>, steps: seq<Step>)
    requires |buffer| == SIZE
    ensures Inv(Start(buffer))
    ensures var w := Run(Start(buffer), steps);
            && w.delivered + Contents(w.ring) == w.accepted
            && w.delivered <= w.accepted && |w.accepted| - |w.delivered| < SIZE
  {
    var w := Run(Start(buffer), steps);
    assert w.accepted[..|w.delivered|] == w.delivered;
  }

  function Received(steps: seq<Step>): seq<Byte> {
    if steps == [] then []
    else (if steps[0].Interrupt? then [steps[0].c] else []) + Received(steps[1..])
  }

  /** Every received byte is accepted or dropped, in order: counts add up, and with nothing
      dropped the reader sees exactly a prefix of the line. */
  lemma {:induction false} ReceivedIsAcceptedOrDropped(w: World, steps: seq<Step>)
    requires Inv(w)
    ensures var r := Run(w, steps);
            && |r.accepted| + |r.dropped| == |w.accepted| + |w.dropped| + |Received(steps)|
            && |r.dropped| >= |w.dropped|
            && (|r.dropped| == |w.dropped| ==> r.accepted == w.accepted + Received(steps))
    decreases |steps|
  {
    if steps != [] {
      StepKeepsInv(w, steps[0]);
      var w1 := Next(w, steps[0]);
      ReceivedIsAcceptedOrDropped(w1, steps[1..]);
      var rest := Received(steps[1..]);
      if steps[0].Interrupt? {
        var c := steps[0].c;
        assert (w.accepted + [c]) + rest == w.accepted + ([c] + rest);
      } else {
        assert [] + rest == rest;
      }
    }
  }

  /** An uninterrupted `read_char` of a non-empty ring delivers its oldest byte; of an empty ring
      it delivers nothing and leaves everything as it was. */
  lemma UninterruptedRead(w: World)
    requires Inv(w) && w.reader == Idle
    ensures Held(w.ring) > 0 ==>
              var r := Run(w, [Read, Read, Read, Read, Read, Read]);
              && r.reader == Idle && r.delivered == w.delivered + [Contents(w.ring)[0]]
              && Contents(r.ring) == Contents(w.ring)[1..]
    ensures Held(w.ring) == 0 ==> Run(w, [Read, Read]) == w
  {
    var w1 := ReadOnce(w, if Held(w.ring) > 0 then 5 else 1);
    if Held(w.ring) > 0 {
      var w2 := ReadOnce(w1, 4);
      var w3 := ReadOnce(w2, 3);
      var w4 := ReadOnce(w3, 2);
      var w5 := ReadOnce(w4, 1);
      var w6 := ReadOnce(w5, 0);
      AdvanceDropsFirst(w.ring);
    } else {
      var w2 := ReadOnce(w1, 0);
    }
  }

  function Reads(n: nat): seq<Step> { if n == 0 then [] else [Read] + Reads(n - 1) }

  lemma ReadOnce(w: World, n: nat) returns (w': World)
    requires Inv(w)
    ensures w' == ReaderStep(w) && Inv(w') && Run(w, [Read] + Reads(n)) == Run(w', Reads(n))
  {
    StepKeepsInv(w, Read);
    w' := ReaderStep(w);
    assert ([Read] + Reads(n))[1..] == Reads(n);
  }
}

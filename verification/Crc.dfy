/** libraries/BLE/nRF8001.cpp: the branch-free CRC byte step against polynomial long division
    over GF(2), and what the CRC of a block detects. Registers are bit strings, most significant
    bit first, so that a register is also the polynomial it stands for. */
module Crc {
  import opened Bytes

  type Bits = seq<bool>

  ghost predicate IsWord(w: Bits) { |w| == 16 }

  // ---- uint16_t operations ------------------------------------------------------------------

  function Xor(a: Bits, b: Bits): (r: Bits)
    requires |a| == |b|
    ensures |r| == |a| && forall i :: 0 <= i < |a| ==> r[i] == (a[i] != b[i])
  {
    seq(|a|, i requires 0 <= i < |a| => a[i] != b[i])
  }

  function Or(a: Bits, b: Bits): (r: Bits)
    requires |a| == |b|
    ensures |r| == |a| && forall i :: 0 <= i < |a| ==> r[i] == (a[i] || b[i])
  {
    seq(|a|, i requires 0 <= i < |a| => a[i] || b[i])
  }

  function Zeros(n: nat): (r: Bits)
    ensures |r| == n && forall i :: 0 <= i < n ==> !r[i]
  {
    seq(n, _ => false)
  }

  /** `w << n`, truncated to 16 bits. */
  function Shl(w: Bits, n: nat): (r: Bits)
    requires IsWord(w) && n <= 16
    ensures IsWord(r) && forall i :: 0 <= i < 16 ==> r[i] == (i + n < 16 && w[i + n])
  {
    w[n..] + Zeros(n)
  }

  /** `w >> n`. */
  function Shr(w: Bits, n: nat): (r: Bits)
    requires IsWord(w) && n <= 16
    ensures IsWord(r) && forall i :: 0 <= i < 16 ==> r[i] == (i >= n && w[i - n])
  {
    Zeros(n) + w[..16 - n]
  }

  /** `w & 0xff`. */
  function LowByte(w: Bits): (r: Bits)
    requires IsWord(w)
    ensures IsWord(r) && forall i :: 0 <= i < 16 ==> r[i] == (i >= 8 && w[i])
  {
    Zeros(8) + w[8..]
  }

  function Widen(b: Bits): (r: Bits)
    requires |b| == 8
    ensures IsWord(r) && forall i :: 0 <= i < 16 ==> r[i] == (i >= 8 && b[i - 8])
  {
    Zeros(8) + b
  }

  // ---- The code ---------------------------------------------------------------------------

  /** One pass of the loop in `crc_16_ccitt`. */
  function ByteStep(crc: Bits, data: Bits): (r: Bits)
    requires IsWord(crc) && |data| == 8
    ensures IsWord(r)
  {
    var c0 := Or(Shr(crc, 8), Shl(crc, 8));
    var c1 := Xor(c0, Widen(data));
    var c2 := Xor(c1, Shr(LowByte(c1), 4));
    var c3 := Xor(c2, Shl(Shl(c2, 8), 4));
    Xor(c3, Shl(Shl(LowByte(c3), 4), 1))
  }

  // ---- Bit by bit ---------------------------------------------------------------------------

  /** The generator x^16 + x^12 + x^5 + 1 without its leading term. */
  predicate Tap(i: nat) { i == 3 || i == 10 || i == 15 }

  /** Bring down one message bit and subtract the generator if the leading bit is set. */
  function BitStep(w: Bits, b: bool): (r: Bits)
    requires IsWord(w)
    ensures IsWord(r)
    ensures forall i :: 0 <= i < 16 ==> r[i] == ((i < 15 && w[i + 1]) != ((w[0] != b) && Tap(i)))
  {
    var t := w[0] != b;
    seq(16, i requires 0 <= i < 16 => (i < 15 && w[i + 1]) != (t && Tap(i)))
  }

  function BitSteps(w: Bits, bits: Bits): (r: Bits)
    requires IsWord(w)
    ensures IsWord(r)
    decreases |bits|
  {
    if bits == [] then w else BitSteps(BitStep(w, bits[0]), bits[1..])
  }

  lemma {:induction false} BitStepsConcat(w: Bits, a: Bits, b: Bits)
    requires IsWord(w)
    ensures BitSteps(w, a + b) == BitSteps(BitSteps(w, a), b)
    decreases |a|
  {
    if a == [] {
      assert a + b == b;
    } else {
      assert (a + b)[1..] == a[1..] + b;
      BitStepsConcat(BitStep(w, a[0]), a[1..], b);
    }
  }

  /** The feedback bit of step `j`, for as long as feedback has not come round to the front. */
  predicate Feed(w: Bits, n: Bits, j: int)
    requires IsWord(w) && |n| <= 4
  {
    0 <= j < |n| && w[j] != n[j]
  }

  predicate FewBit(w: Bits, n: Bits, i: nat)
    requires IsWord(w) && |n| <= 4
  {
    ((i + |n| < 16 && w[i + |n|]) != Feed(w, n, i - 4 + |n|)) !=
    (Feed(w, n, i - 11 + |n|) != Feed(w, n, i - 16 + |n|))
  }

  /** Up to four steps at once. */
  function FewSteps(w: Bits, n: Bits): (r: Bits)
    requires IsWord(w) && |n| <= 4
    ensures IsWord(r) && forall i :: 0 <= i < 16 ==> r[i] == FewBit(w, n, i)
  {
    seq(16, i requires 0 <= i < 16 => FewBit(w, n, i))
  }

  lemma FewStepsCompose(w: Bits, m: Bits, n: Bits)
    requires IsWord(w) && |m| + |n| <= 4
    ensures FewSteps(FewSteps(w, m), n) == FewSteps(w, m + n)
  {
    hide FewSteps;
    var v := FewSteps(w, m);
    forall j | 0 <= j < |n| ensures v[j] == w[j + |m|] {
      assert v[j] == FewBit(w, m, j);
    }
    forall i | 0 <= i < 16 ensures FewBit(v, n, i) == FewBit(w, m + n, i) {
      assert i + |n| < 16 ==> v[i + |n|] == FewBit(w, m, i + |n|);
    }
  }

  lemma {:induction false} FewStepsAreBitSteps(w: Bits, n: Bits)
    requires IsWord(w) && |n| <= 4
    ensures BitSteps(w, n) == FewSteps(w, n)
    decreases |n|
  {
    hide FewSteps, BitStep;
    if n == [] {
      assert forall i :: 0 <= i < 16 ==> FewBit(w, n, i) == w[i];
      assert FewSteps(w, n) == w;
    } else {
      var b := [n[0]];
      assert forall i :: 0 <= i < 16 ==> FewBit(w, b, i) == BitStep(w, n[0])[i];
      assert FewSteps(w, b) == BitStep(w, n[0]);
      FewStepsAreBitSteps(BitStep(w, n[0]), n[1..]);
      FewStepsCompose(w, b, n[1..]);
      assert b + n[1..] == n;
    }
  }

  lemma ByteStepIsTwoNibbles(crc: Bits, data: Bits)
    requires IsWord(crc) && |data| == 8
    ensures ByteStep(crc, data) == FewSteps(FewSteps(crc, data[..4]), data[4..])
  {
    hide Xor, Or, Shl, Shr, LowByte, Widen, FewSteps, ByteStep, FewBit;
    var m, n, r := data[..4], data[4..], ByteStep(crc, data);
    var v := FewSteps(crc, m);
    forall i | 0 <= i < 16 ensures r[i] == FewBit(v, n, i) {
      ByteBit(crc, data, i);
      NibbleBit(crc, data, i);
    }
  }

  /** Bit `j` of the first byte of the register plus the data byte, and its nibble fold. */
  predicate Top(crc: Bits, data: Bits, j: int)
    requires IsWord(crc) && |data| == 8
  {
    0 <= j < 8 && crc[j] != data[j]
  }

  predicate Folded(crc: Bits, data: Bits, j: int)
    requires IsWord(crc) && |data| == 8
  {
    Top(crc, data, j) != (4 <= j < 8 && Top(crc, data, j - 4))
  }

  /** Each bit of the byte step, written out. */
  predicate StepBit(crc: Bits, data: Bits, i: nat)
    requires IsWord(crc) && |data| == 8
  {
    ((i < 8 && crc[i + 8]) != (i < 4 && Folded(crc, data, i + 4))) !=
    ((3 <= i < 11 && Folded(crc, data, i - 3)) != (i >= 8 && Folded(crc, data, i - 8)))
  }

  lemma ByteBit(crc: Bits, data: Bits, i: nat)
    requires IsWord(crc) && |data| == 8 && i < 16
    ensures ByteStep(crc, data)[i] == StepBit(crc, data, i)
  {
    hide Xor, Or, Shl, Shr, LowByte, Widen;
  }

  lemma NibbleBit(crc: Bits, data: Bits, i: nat)
    requires IsWord(crc) && |data| == 8 && i < 16
    ensures FewBit(FewSteps(crc, data[..4]), data[4..], i) == StepBit(crc, data, i)
  {
    hide FewSteps;
    var m, n := data[..4], data[4..];
    var v := FewSteps(crc, m);
    assert i + 4 < 16 ==> v[i + 4] == FewBit(crc, m, i + 4);
    forall j | 0 <= j < 4 ensures v[j] == (crc[j + 4] != (crc[j] != data[j])) {
      assert v[j] == FewBit(crc, m, j);
    }
    assert forall j :: Feed(v, n, j) == (0 <= j < 4 && Folded(crc, data, j + 4));
  }

  /** The shift/xor byte step is eight steps of bitwise division. */
  lemma ByteStepIsEightBits(crc: Bits, data: Bits)
    requires IsWord(crc) && |data| == 8
    ensures ByteStep(crc, data) == BitSteps(crc, data)
  {
    hide ByteStep, FewSteps, BitSteps;
    ByteStepIsTwoNibbles(crc, data);
    FewStepsAreBitSteps(crc, data[..4]);
    FewStepsAreBitSteps(FewSteps(crc, data[..4]), data[4..]);
    BitStepsConcat(crc, data[..4], data[4..]);
    assert data[..4] + data[4..] == data;
  }

  // ---- Long division ------------------------------------------------------------------------

  /** Subtract the generator under a set leading coefficient and drop that coefficient. */
  function Reduce(p: Bits): (r: Bits)
    requires |p| >= 17
    ensures |r| == |p| - 1
    ensures forall i :: 0 <= i < |r| ==> r[i] == (p[i + 1] != (p[0] && Tap(i)))
  {
    seq(|p| - 1, i requires 0 <= i < |p| - 1 => p[i + 1] != (p[0] && Tap(i)))
  }

  /** The remainder of polynomial `p` modulo x^16 + x^12 + x^5 + 1. */
  function Remainder(p: Bits): (r: Bits)
    requires |p| >= 16
    ensures IsWord(r)
    decreases |p|
  {
    if |p| == 16 then p else Remainder(Reduce(p))
  }

  function Quotient(p: Bits): (q: Bits)
    requires |p| >= 16
    ensures |q| == |p| - 16
    decreases |p|
  {
    if |p| == 16 then [] else [p[0]] + Quotient(Reduce(p))
  }

  predicate At(q: Bits, j: int) { 0 <= j < |q| && q[j] }

  /** Coefficient `i` of `q` times x^16 + x^12 + x^5 + 1 over GF(2): four shifted copies added. */
  predicate ProductBit(q: Bits, i: int) {
    (At(q, i) != At(q, i - 4)) != (At(q, i - 11) != At(q, i - 16))
  }

  function Product(q: Bits): (r: Bits)
    ensures |r| == |q| + 16
    ensures forall i :: 0 <= i < |r| ==> r[i] == ProductBit(q, i)
  {
    seq(|q| + 16, i requires 0 <= i < |q| + 16 => ProductBit(q, i))
  }

  /** The polynomial with quotient `q` and remainder `w`. */
  function Combined(q: Bits, w: Bits): (r: Bits)
    requires IsWord(w)
    ensures |r| == |q| + 16
    ensures forall i :: 0 <= i < |r| ==> r[i] == (Product(q)[i] != (i >= |q| && w[i - |q|]))
  {
    Xor(Product(q), Zeros(|q|) + w)
  }

  /** Dropping the leading coefficient takes its four copies away. */
  lemma ProductShift(q: Bits, i: nat)
    requires q != []
    ensures ProductBit(q, 0) == q[0] && ProductBit(q, i + 1) == (ProductBit(q[1..], i) != (q[0] && Tap(i)))
  {}

  lemma ReduceCombined(q: Bits, w: Bits)
    requires IsWord(w) && q != []
    ensures Combined(q, w)[0] == q[0] && Reduce(Combined(q, w)) == Combined(q[1..], w)
  {
    hide Product, ProductBit, Combined, Reduce;
    var c, q' := Combined(q, w), q[1..];
    ProductShift(q, 0);
    assert c[0] == Product(q)[0] == ProductBit(q, 0);
    forall i | 0 <= i < |q'| + 16 ensures Reduce(c)[i] == Combined(q', w)[i] {
      assert c[i + 1] == (Product(q)[i + 1] != (i + 1 >= |q| && w[i + 1 - |q|]));
      assert Combined(q', w)[i] == (Product(q')[i] != (i >= |q'| && w[i - |q'|]));
      ProductShift(q, i);
    }
  }

  lemma ReduceInjective(p: Bits, c: Bits)
    requires |p| == |c| >= 17 && p[0] == c[0] && Reduce(p) == Reduce(c)
    ensures p == c
  {
    hide Reduce;
    forall i | 0 < i < |p| ensures p[i] == c[i] {
      assert Reduce(p)[i - 1] == Reduce(c)[i - 1];
    }
  }

  /** Division with remainder, exactly: `p` is a multiple of the generator plus `w` in one way
      only, with the quotient and the remainder that long division computes. */
  lemma {:induction false} DivisionWithRemainder(p: Bits, q: Bits, w: Bits)
    requires IsWord(w) && |p| == |q| + 16
    ensures p == Combined(q, w) <==> q == Quotient(p) && w == Remainder(p)
    decreases |p|
  {
    hide Product, Xor, Zeros, Reduce, Combined;
    if q == [] {
      assert Combined(q, w) == w by { NoQuotient(w); }
    } else {
      ReduceCombined(q, w);
      DivisionWithRemainder(Reduce(p), q[1..], w);
      if q == Quotient(p) && w == Remainder(p) {
        assert q[1..] == Quotient(Reduce(p));
        ReduceInjective(p, Combined(q, w));
      }
      if p == Combined(q, w) {
        assert q == [q[0]] + q[1..];
      }
    }
  }

  lemma NoQuotient(w: Bits)
    requires IsWord(w)
    ensures Combined([], w) == w
  {
    assert Zeros(0) + w == w;
  }

  /** In particular the remainder is zero exactly for the multiples of the generator. */
  lemma ZeroIffMultiple(p: Bits)
    requires |p| >= 16
    ensures Remainder(p) == Zeros(16) <==> exists q :: p == Product(q)
  {
    hide Product, Remainder, Quotient;
    DivisionWithRemainder(p, Quotient(p), Zeros(16));
    forall q ensures Combined(q, Zeros(16)) == Product(q) {
      assert Zeros(|q|) + Zeros(16) == Zeros(|q| + 16);
    }
    hide Combined;
    if q :| p == Product(q) {
      DivisionWithRemainder(p, q, Zeros(16));
    }
  }

  /** The message times x^16, with the seed added at the top. */
  function Dividend(seed: Bits, m: Bits): (r: Bits)
    requires IsWord(seed)
    ensures |r| == |m| + 16
  {
    Xor(m + Zeros(16), seed + Zeros(|m|))
  }

  /** The running register is the remainder of the seeded message: division, and nothing else. */
  lemma {:induction false} RegisterIsRemainder(seed: Bits, m: Bits)
    requires IsWord(seed)
    ensures BitSteps(seed, m) == Remainder(Dividend(seed, m))
    decreases |m|
  {
    hide Xor, Zeros, BitStep, Reduce;
    var p := Dividend(seed, m);
    if m == [] {
      assert p == seed;
    } else {
      var seed', m' := BitStep(seed, m[0]), m[1..];
      RegisterIsRemainder(seed', m');
      assert Reduce(p) == Dividend(seed', m');
    }
  }

  // ---- What the register remembers ------------------------------------------------------------

  /** Up to 16 message bits can be added to the register first and shifted through as zeros. */
  function Preload(w: Bits, d: Bits): (r: Bits)
    requires IsWord(w) && |d| <= 16
    ensures IsWord(r) && forall i :: 0 <= i < 16 ==> r[i] == (w[i] != (i < |d| && d[i]))
  {
    Xor(w, d + Zeros(16 - |d|))
  }

  lemma {:induction false} BitStepsPreload(w: Bits, d: Bits)
    requires IsWord(w) && |d| <= 16
    ensures BitSteps(w, d) == BitSteps(Preload(w, d), Zeros(|d|))
    decreases |d|
  {
    hide Preload, Zeros, BitStep;
    if d == [] {
      assert Preload(w, d) == w;
    } else {
      var w1, d1 := BitStep(w, d[0]), d[1..];
      BitStepsPreload(w1, d1);
      assert BitStep(Preload(w, d), false) == Preload(w1, d1);
      assert Zeros(|d|)[1..] == Zeros(|d1|);
    }
  }

  lemma BitStepInjective(a: Bits, b: Bits, x: bool)
    requires IsWord(a) && IsWord(b) && BitStep(a, x) == BitStep(b, x)
    ensures a == b
  {
    assert BitStep(a, x)[15] == BitStep(b, x)[15];
    forall i | 0 < i < 16 ensures a[i] == b[i] {
      assert BitStep(a, x)[i - 1] == BitStep(b, x)[i - 1];
    }
  }

  lemma {:induction false} BitStepsInjective(a: Bits, b: Bits, bits: Bits)
    requires IsWord(a) && IsWord(b) && BitSteps(a, bits) == BitSteps(b, bits)
    ensures a == b
    decreases |bits|
  {
    hide BitStep;
    if bits != [] {
      BitStepsInjective(BitStep(a, bits[0]), BitStep(b, bits[0]), bits[1..]);
      BitStepInjective(a, b, bits[0]);
    }
  }

  lemma PreloadInjective(v: Bits, d: Bits, e: Bits)
    requires IsWord(v) && |d| == |e| <= 16 && Preload(v, d) == Preload(v, e)
    ensures d == e
  {
    hide Preload;
    assert forall i :: 0 <= i < |d| ==> d[i] == (Preload(v, d)[i] != v[i]) && e[i] == (Preload(v, e)[i] != v[i]);
  }

  lemma ShortChangeSeen(v: Bits, d: Bits, e: Bits)
    requires IsWord(v) && |d| == |e| <= 16 && BitSteps(v, d) == BitSteps(v, e)
    ensures d == e
  {
    hide BitSteps, Preload;
    BitStepsPreload(v, d);
    BitStepsPreload(v, e);
    BitStepsInjective(Preload(v, d), Preload(v, e), Zeros(|d|));
    PreloadInjective(v, d, e);
  }

  /** Any change confined to 16 consecutive message bits changes the register. */
  lemma BurstDetected(w: Bits, before: Bits, d: Bits, e: Bits, after: Bits)
    requires IsWord(w) && |d| == |e| <= 16
    requires BitSteps(w, before + (d + after)) == BitSteps(w, before + (e + after))
    ensures d == e
  {
    hide BitSteps;
    BitStepsConcat(w, before, d + after);
    BitStepsConcat(w, before, e + after);
    var v := BitSteps(w, before);
    BitStepsConcat(v, d, after);
    BitStepsConcat(v, e, after);
    BitStepsInjective(BitSteps(v, d), BitSteps(v, e), after);
    ShortChangeSeen(v, d, e);
  }

  lemma {:induction false} ZeroStaysZero(n: nat)
    ensures BitSteps(Zeros(16), Zeros(n)) == Zeros(16)
  {
    hide Zeros;
    if n > 0 {
      ZeroStaysZero(n - 1);
      assert BitStep(Zeros(16), false) == Zeros(16);
      assert Zeros(n)[1..] == Zeros(n - 1);
    }
  }

  /** A register fed with its own contents, high bit first, ends at zero. */
  lemma OwnRemainderGivesZero(w: Bits)
    requires IsWord(w)
    ensures BitSteps(w, w) == Zeros(16)
  {
    hide BitSteps, Zeros;
    BitStepsPreload(w, w);
    assert Preload(w, w) == Zeros(16);
    ZeroStaysZero(16);
  }

  // ---- Bytes --------------------------------------------------------------------------------

  /** The `n` low bits of a number, most significant first. */
  function BitsOf(v: nat, n: nat): (r: Bits)
    ensures |r| == n
    decreases n
  {
    if n == 0 then [] else BitsOf(v / 2, n - 1) + [v % 2 == 1]
  }

  function Number(b: Bits): nat {
    if b == [] then 0 else 2 * Number(b[..|b| - 1]) + if b[|b| - 1] then 1 else 0
  }

  lemma {:induction false} NumberBits(b: Bits)
    ensures BitsOf(Number(b), |b|) == b
  {
    if b != [] {
      NumberBits(b[..|b| - 1]);
    }
  }

  lemma {:induction false} NumberFits(b: Bits)
    ensures |b| == 8 ==> Number(b) < 256
    ensures Number(b) < Power2(|b|)
  {
    if b != [] {
      NumberFits(b[..|b| - 1]);
    }
    if |b| == 8 {
      assert Power2(8) == 2 * 2 * 2 * 2 * Power2(4);
    }
  }

  function AllBits(data: seq<Byte>): (r: Bits)
    ensures |r| == 8 * |data|
  {
    if data == [] then [] else BitsOf(data[0], 8) + AllBits(data[1..])
  }

  lemma {:induction false} AllBitsConcat(a: seq<Byte>, b: seq<Byte>)
    ensures AllBits(a + b) == AllBits(a) + AllBits(b)
  {
    hide BitsOf;
    if a == [] {
      assert a + b == b;
    } else {
      AllBitsConcat(a[1..], b);
      assert (a + b)[1..] == a[1..] + b;
      AllBitsStep(a);
      AllBitsStep(a + b);
      hide AllBits;
      assert BitsOf(a[0], 8) + (AllBits(a[1..]) + AllBits(b)) == BitsOf(a[0], 8) + AllBits(a[1..]) + AllBits(b);
    }
  }

  lemma {:induction false} BitsOfInjective(a: nat, b: nat, n: nat)
    requires BitsOf(a, n) == BitsOf(b, n) && a < Power2(n) && b < Power2(n)
    ensures a == b
    decreases n
  {
    if n > 0 {
      var x, y := BitsOf(a, n), BitsOf(b, n);
      assert x[..n - 1] == BitsOf(a / 2, n - 1) && y[..n - 1] == BitsOf(b / 2, n - 1);
      assert x[n - 1] == (a % 2 == 1) && y[n - 1] == (b % 2 == 1);
      BitsOfInjective(a / 2, b / 2, n - 1);
    }
  }

  /** `crc_16_ccitt`. */
  method Crc16Ccitt(seed: Bits, data: seq<Byte>) returns (crc: Bits)
    requires IsWord(seed)
    ensures crc == BitSteps(seed, AllBits(data))
  {
    hide BitSteps, ByteStep, AllBits;
    crc := seed;
    assert data[0..] == data;
    for i := 0 to |data|
      invariant IsWord(crc) && BitSteps(crc, AllBits(data[i..])) == BitSteps(seed, AllBits(data))
    {
      AllBitsStep(data[i..]);
      assert data[i..][0] == data[i] && data[i..][1..] == data[i + 1..];
      var bits := BitsOf(data[i], 8);
      BitStepsConcat(crc, bits, AllBits(data[i + 1..]));
      ByteStepIsEightBits(crc, bits);
      crc := ByteStep(crc, bits);
    }
    assert data[|data|..] == [];
    NoBits(crc);
  }

  lemma AllBitsStep(data: seq<Byte>)
    requires data != []
    ensures AllBits(data) == BitsOf(data[0], 8) + AllBits(data[1..])
  {}

  lemma NoBits(w: Bits)
    requires IsWord(w)
    ensures BitSteps(w, AllBits([])) == w
  {}

  /** Changing any one byte of a block, or any two neighbours, changes its CRC. */
  lemma TwoBytesDetected(seed: Bits, before: seq<Byte>, x: seq<Byte>, y: seq<Byte>, after: seq<Byte>)
    requires IsWord(seed) && |x| == |y| <= 2
    requires BitSteps(seed, AllBits(before + (x + after))) == BitSteps(seed, AllBits(before + (y + after)))
    ensures x == y
  {
    hide BitSteps, AllBits, BitsOf;
    AllBitsConcat(before, x + after);
    AllBitsConcat(before, y + after);
    AllBitsConcat(x, after);
    AllBitsConcat(y, after);
    BurstDetected(seed, AllBits(before), AllBits(x), AllBits(y), AllBits(after));
    AllBitsInjective(x, y);
  }

  lemma {:induction false} AllBitsInjective(x: seq<Byte>, y: seq<Byte>)
    requires |x| == |y| && AllBits(x) == AllBits(y)
    ensures x == y
  {
    hide BitsOf;
    if x != [] {
      AllBitsStep(x);
      AllBitsStep(y);
      assert AllBits(x)[..8] == BitsOf(x[0], 8) && AllBits(y)[..8] == BitsOf(y[0], 8);
      assert AllBits(x)[8..] == AllBits(x[1..]) && AllBits(y)[8..] == AllBits(y[1..]);
      assert Power2(8) == 2 * 2 * 2 * 2 * Power2(4);
      BitsOfInjective(x[0], y[0], 8);
      AllBitsInjective(x[1..], y[1..]);
    }
  }

  /** The two bytes that carry a register: high byte, then low byte. */
  function CrcBytes(w: Bits): (r: seq<Byte>)
    requires IsWord(w)
    ensures |r| == 2
  {
    NumberFits(w[..8]);
    NumberFits(w[8..]);
    [Number(w[..8]), Number(w[8..])]
  }

  /** A block followed by its own CRC, big-endian, leaves no remainder. */
  lemma CrcOfBlockWithCrc(seed: Bits, data: seq<Byte>)
    requires IsWord(seed)
    ensures var crc := BitSteps(seed, AllBits(data));
            BitSteps(seed, AllBits(data + CrcBytes(crc))) == Zeros(16)
  {
    hide BitSteps, BitsOf;
    var crc := BitSteps(seed, AllBits(data));
    var tail := CrcBytes(crc);
    AllBitsConcat(data, tail);
    NumberBits(crc[..8]);
    NumberBits(crc[8..]);
    assert AllBits(tail) == crc by {
      assert tail[1..] == [tail[1]] && tail[1..][1..] == [];
      assert AllBits(tail[1..]) == BitsOf(tail[1], 8) + AllBits([]);
      assert crc[..8] + crc[8..] == crc;
    }
    BitStepsConcat(seed, AllBits(data), crc);
    OwnRemainderGivesZero(crc);
  }

  /** So a block with its CRC, seed included, is a multiple of the generator polynomial. */
  lemma BlockWithCrcIsMultiple(seed: Bits, data: seq<Byte>)
    requires IsWord(seed)
    ensures exists q :: Dividend(seed, AllBits(data + CrcBytes(BitSteps(seed, AllBits(data))))) == Product(q)
  {
    hide BitSteps, AllBits, Product, Remainder, Dividend, CrcBytes;
    var m := AllBits(data + CrcBytes(BitSteps(seed, AllBits(data))));
    CrcOfBlockWithCrc(seed, data);
    RegisterIsRemainder(seed, m);
    ZeroIffMultiple(Dividend(seed, m));
  }
}

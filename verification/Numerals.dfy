/** Positional numerals: the digit strings that cores/arduino/itoa.c and cores/arduino/Print.cpp
    produce, and why there is exactly one for each value. */
module Numerals {
  import opened Bytes

  /** The value of a digit string, read after a prefix of value `v`. */
  function Fold(v: nat, ds: seq<nat>, radix: nat): nat
    decreases |ds|
  {
    if ds == [] then v else Fold(v * radix + ds[0], ds[1..], radix)
  }

  function Eval(ds: seq<nat>, radix: nat): nat { Fold(0, ds, radix) }

  /** The canonical numeral, most significant digit first. */
  function Digits(v: nat, radix: nat): (ds: seq<nat>)
    requires radix >= 2
    ensures ds != []
  {
    if v < radix then [v] else DivSmaller(v, radix); Digits(v / radix, radix) + [v % radix]
  }

  lemma MulMono(a: int, b: int, c: int)
    requires a <= b && 0 <= c
    ensures a * c <= b * c
  {}

  lemma Divided(v: nat, radix: nat)
    requires radix >= 1
    ensures v == v / radix * radix + v % radix && 0 <= v % radix < radix && v / radix >= 0
  {}

  lemma DivSmaller(v: nat, radix: nat)
    requires radix >= 2 && v >= radix
    ensures 0 < v / radix < v && v / radix * 2 <= v
  {
    Divided(v, radix);
    var q := v / radix;
    MulMono(2, radix, q);
    assert q == 0 ==> q * radix == 0;
  }

  /** Every digit below the radix, and no leading zero except in "0". */
  ghost predicate Canonical(ds: seq<nat>, radix: nat) {
    && ds != [] && (forall i :: 0 <= i < |ds| ==> ds[i] < radix)
    && (ds[0] == 0 ==> |ds| == 1)
  }

  lemma {:induction false} FoldConcat(v: nat, a: seq<nat>, b: seq<nat>, radix: nat)
    ensures Fold(v, a + b, radix) == Fold(Fold(v, a, radix), b, radix)
    decreases |a|
  {
    if a == [] {
      assert a + b == b;
    } else {
      assert (a + b)[1..] == a[1..] + b;
      FoldConcat(v * radix + a[0], a[1..], b, radix);
    }
  }

  lemma FoldOne(v: nat, d: nat, radix: nat)
    ensures Fold(v, [d], radix) == v * radix + d
  {
    assert [d][1..] == [];
  }

  lemma {:induction false} DigitsCorrect(v: nat, radix: nat)
    requires radix >= 2
    ensures Canonical(Digits(v, radix), radix)
    ensures Eval(Digits(v, radix), radix) == v
    ensures Digits(v, radix)[0] == 0 <==> v == 0
  {
    hide Fold;
    if v < radix {
      FoldOne(0, v, radix);
    } else {
      DivSmaller(v, radix);
      Divided(v, radix);
      var q, d := v / radix, v % radix;
      DigitsCorrect(q, radix);
      FoldConcat(0, Digits(q, radix), [d], radix);
      FoldOne(q, d, radix);
      assert Digits(v, radix) == Digits(q, radix) + [d];
    }
  }

  lemma FoldGrows(v: nat, ds: seq<nat>, radix: nat)
    requires radix >= 2
    ensures Fold(v, ds, radix) >= v
    decreases |ds|
  {
    if ds != [] {
      assert v * radix >= v;
      FoldGrows(v * radix + ds[0], ds[1..], radix);
    }
  }

  lemma QuotientAndDigit(q: nat, d: nat, radix: nat)
    requires d < radix
    ensures (q * radix + d) / radix == q && (q * radix + d) % radix == d
  {
    var v := q * radix + d;
    Divided(v, radix);
    var p := v / radix;
    if p > q {
      MulMono(q + 1, p, radix);
    } else if p < q {
      MulMono(p + 1, q, radix);
    }
  }

  lemma LeadingDigitCounts(ds: seq<nat>, radix: nat)
    requires radix >= 2 && ds != []
    ensures Eval(ds, radix) >= ds[0]
  {
    FoldGrows(0 * radix + ds[0], ds[1..], radix);
  }

  /** A canonical numeral is the numeral of its value: there is no other. */
  lemma {:induction false} DigitsUnique(ds: seq<nat>, radix: nat)
    requires radix >= 2 && Canonical(ds, radix)
    ensures Digits(Eval(ds, radix), radix) == ds
    decreases |ds|
  {
    hide Fold;
    var n := |ds| - 1;
    var front, d := ds[..n], ds[n];
    assert ds == front + [d];
    FoldConcat(0, front, [d], radix);
    var q := Eval(front, radix);
    FoldOne(q, d, radix);
    if n == 0 {
      assert front == [];
      FoldNone(0, radix);
    } else {
      DigitsUnique(front, radix);
      LeadingDigitCounts(front, radix);
      MulMono(1, q, radix);
      QuotientAndDigit(q, d, radix);
    }
  }

  lemma FoldNone(v: nat, radix: nat)
    ensures Fold(v, [], radix) == v
  {}

  lemma {:induction false} DigitsFit(v: nat, radix: nat, k: nat)
    requires radix >= 2 && k >= 1 && v < Power2(k)
    ensures |Digits(v, radix)| <= k
    decreases k
  {
    if v >= radix {
      DivSmaller(v, radix);
      assert Power2(1) == 2 * Power2(0);
      DigitsFit(v / radix, radix, k - 1);
    }
  }

  lemma Power2Of32()
    ensures Power2(32) == TWO32
  {
    assert Power2(8) == 256 by { assert Power2(4) == 16; }
    assert Power2(16) == 65536 by { assert Power2(12) == 4096; }
    assert Power2(24) == 16777216 by { assert Power2(20) == 1048576; }
    assert Power2(28) == 268435456;
  }

  /** A 32-bit value has at most 32 digits, so 33 bytes hold any numeral and its NUL. */
  lemma DigitsFit32(v: nat, radix: nat)
    requires radix >= 2 && v < TWO32
    ensures |Digits(v, radix)| <= 32
  {
    Power2Of32();
    DigitsFit(v, radix, 32);
  }
}

/** cores/arduino/itoa.c and cores/arduino/Print.cpp: digit loops over scratch buffers, each
    proved to write the canonical numeral. */
module Printing {
  import opened Bytes
  import opened Numerals

  const MINUS: Byte := 45

  function LowerDigit(d: nat): Byte { if d < 10 then d + 48 else (d + 87) % 256 }

  function UpperDigit(d: nat): Byte { if d < 10 then d + 48 else (d + 55) % 256 }

  function Lower(ds: seq<nat>): seq<Byte> { seq(|ds|, i requires 0 <= i < |ds| => LowerDigit(ds[i])) }

  function Upper(ds: seq<nat>): seq<Byte> { seq(|ds|, i requires 0 <= i < |ds| => UpperDigit(ds[i])) }

  /** `(unsigned long) n` on a 32-bit machine. */
  function Unsigned(n: int): nat { n % TWO32 }

  /** A value stored in a 32-bit two's-complement `long`. */
  function Wrap(n: int): int { (n + 0x8000_0000) % TWO32 - 0x8000_0000 }

  predicate IsLong(n: int) { -0x8000_0000 <= n < 0x8000_0000 }

  /** What remains to be produced (`v`) and what has been (`ds`) make up the numeral of `value`. */
  ghost predicate Underway(value: nat, radix: nat, v: nat, ds: seq<nat>)
    requires radix >= 2
  {
    if v != 0 || ds == [] then Digits(v, radix) + ds == Digits(value, radix)
    else ds == Digits(value, radix)
  }

  lemma OneMoreDigit(value: nat, radix: nat, v: nat, ds: seq<nat>)
    requires radix >= 2 && Underway(value, radix, v, ds) && (v != 0 || ds == [])
    ensures Underway(value, radix, v / radix, [v % radix] + ds)
    ensures |ds| < |Digits(value, radix)| && v % radix < radix
  {
    Divided(v, radix);
    if v >= radix {
      DivSmaller(v, radix);
      assert Digits(v / radix, radix) + [v % radix] + ds == Digits(v / radix, radix) + ([v % radix] + ds);
    } else {
      SmallQuotient(v, radix);
    }
  }

  lemma UnderwayStarts(value: nat, radix: nat)
    requires radix >= 2
    ensures Underway(value, radix, value, [])
  {
    assert Digits(value, radix) + [] == Digits(value, radix);
  }

  lemma UnderwayEnds(value: nat, radix: nat, ds: seq<nat>)
    requires radix >= 2 && Underway(value, radix, 0, ds) && ds != []
    ensures ds == Digits(value, radix)
  {}

  /** The next digit by subtraction, and the loop variant. */
  lemma DigitBySubtraction(v: nat, radix: nat)
    requires radix >= 2
    ensures v - radix * (v / radix) == v % radix
    ensures 0 <= v / radix <= v && (v > 0 ==> v / radix < v)
  {
    Divided(v, radix);
    if v >= radix { DivSmaller(v, radix); } else { SmallQuotient(v, radix); }
  }

  lemma SmallQuotient(v: nat, radix: nat)
    requires v < radix
    ensures v / radix == 0 && v % radix == v
  {
    QuotientAndDigit(0, v, radix);
  }

  // ---- itoa.c -----------------------------------------------------------------------------

  /** The digit loop: `tmp` receives the numeral, least significant digit first. */
  method FillDigits(value: nat, radix: nat, tmp: array<Byte>) returns (tp: nat)
    requires value < TWO32 && 2 <= radix <= 36 && tmp.Length == 33
    modifies tmp
    ensures tp == |Digits(value, radix)| <= 32
    ensures forall j :: 0 <= j < tp ==> tmp[j] == LowerDigit(Digits(value, radix)[tp - 1 - j])
  {
    hide Digits, Underway;
    DigitsFit32(value, radix);
    tp := 0;
    var v: nat := value;
    ghost var ds: seq<nat> := [];
    UnderwayStarts(value, radix);
    while v != 0 || tp == 0
      invariant tp == |ds| <= 32 && Underway(value, radix, v, ds)
      invariant forall j :: 0 <= j < tp ==> tmp[j] == LowerDigit(ds[tp - 1 - j])
      decreases v, if tp == 0 then 1 else 0
    {
      OneMoreDigit(value, radix, v, ds);
      DigitBySubtraction(v, radix);
      var i := v % radix;
      v := v / radix;
      tmp[tp] := if i < 10 then i + 48 else i + 97 - 10;
      ds := [i] + ds;
      tp := tp + 1;
    }
    UnderwayEnds(value, radix, ds);
  }

  /** The copy loop: `tmp` read backwards, then a NUL. */
  method CopyReversed(tmp: array<Byte>, n: nat, s: array<Byte>, start: nat, ghost ds: seq<nat>)
    requires n == |ds| <= tmp.Length && start + n < s.Length && s != tmp
    requires forall j :: 0 <= j < n ==> tmp[j] == LowerDigit(ds[n - 1 - j])
    modifies s
    ensures s[..] == old(s[..start]) + Lower(ds) + [0] + old(s[start + n + 1..])
  {
    var tp, sp := n, start;
    while tp > 0
      invariant 0 <= tp <= n && sp == start + (n - tp)
      invariant forall j :: 0 <= j < s.Length && (j < start || j >= sp) ==> s[j] == old(s[j])
      invariant forall j :: start <= j < sp ==> s[j] == LowerDigit(ds[j - start])
    {
      tp := tp - 1;
      s[sp] := tmp[tp];
      sp := sp + 1;
    }
    s[sp] := 0;
    assert s[start..start + n] == Lower(ds);
    assert s[..] == s[..start] + s[start..start + n] + [s[start + n]] + s[start + n + 1..];
  }

  /** What `ltoa` writes: a sign only in radix 10, else the 32-bit pattern as an unsigned value. */
  function Signed(value: int, radix: nat): seq<Byte>
    requires radix >= 2
  {
    if radix == 10 && value < 0 then [MINUS] + Lower(Digits(-value, 10)) else Lower(Digits(Unsigned(value), radix))
  }

  /** The text that replaces the start of the caller's buffer. */
  ghost predicate Written(before: seq<Byte>, after: seq<Byte>, text: seq<Byte>) {
    |text| < |before| && after == text + [0] + before[|text| + 1..]
  }

  method Ultoa(value: nat, s: array?<Byte>, radix: int) returns (ok: bool)
    requires value < TWO32
    requires s != null && 2 <= radix <= 36 ==> |Digits(value, radix)| < s.Length
    modifies if s == null then {} else {s}
    ensures ok <==> s != null && 2 <= radix <= 36
    ensures ok ==> Written(old(s[..]), s[..], Lower(Digits(value, radix)))
    ensures s != null && !ok ==> s[..] == old(s[..])
  {
    if s == null {
      return false;
    }
    if radix > 36 || radix <= 1 {
      return false;
    }
    var tmp := new Byte[33](_ => 0);
    var tp := FillDigits(value, radix, tmp);
    CopyReversed(tmp, tp, s, 0, Digits(value, radix));
    assert old(s[..0]) + Lower(Digits(value, radix)) == Lower(Digits(value, radix));
    return true;
  }

  method Ltoa(value: int, s: array?<Byte>, radix: int) returns (ok: bool)
    requires IsLong(value)
    requires s != null && 2 <= radix <= 36 ==> |Signed(value, radix)| < s.Length
    modifies if s == null then {} else {s}
    ensures ok <==> s != null && 2 <= radix <= 36
    ensures ok ==> Written(old(s[..]), s[..], Signed(value, radix))
    ensures s != null && !ok ==> s[..] == old(s[..])
  {
    hide Digits;
    if s == null {
      return false;
    }
    if radix > 36 || radix <= 1 {
      return false;
    }
    var sign := radix == 10 && value < 0;
    var v := if sign then Unsigned(-value) else Unsigned(value);
    var tmp := new Byte[33](_ => 0);
    var tp := FillDigits(v, radix, tmp);
    ghost var ds, before := Digits(v, radix), s[..];
    if sign {
      s[0] := MINUS;
    }
    CopyReversed(tmp, tp, s, if sign then 1 else 0, ds);
    SignedText(before, s[..], sign, ds);
    return true;
  }

  lemma SignedText(before: seq<Byte>, after: seq<Byte>, sign: bool, ds: seq<nat>)
    requires var n := |ds| + if sign then 1 else 0;
             && n < |before|
             && after == (if sign then before[0 := MINUS][..1] else before[..0]) + Lower(ds) + [0] + before[n + 1..]
    ensures Written(before, after, (if sign then [MINUS] else []) + Lower(ds))
    ensures !sign ==> Written(before, after, Lower(ds))
  {
    if sign {
      assert before[0 := MINUS][..1] == [MINUS];
    } else {
      assert before[..0] + Lower(ds) == Lower(ds) == [] + Lower(ds);
    }
  }

  // ---- Print.cpp --------------------------------------------------------------------------

  function Radix(base: Byte): nat { if base < 2 then 10 else base }

  /** The bytes that `printNumber` writes: the numeral, cut where a digit becomes a NUL. */
  function NumberText(value: nat, base: Byte): seq<Byte> { UpToNul(Upper(Digits(value, Radix(base)))) }

  /** No digit of a base up to 36 does, so the whole numeral is written. */
  lemma WholeNumeral(value: nat, base: Byte)
    requires Radix(base) <= 36
    ensures NumberText(value, base) == Upper(Digits(value, Radix(base)))
  {
    hide Digits, UpToNul;
    var ds := Digits(value, Radix(base));
    DigitsCorrect(value, Radix(base));
    UpToNulIs(Upper(ds), |ds|);
    assert Upper(ds)[..|ds|] == Upper(ds);
  }

  /** `printNumber`: digits from the end of a 33-byte buffer towards its start, then `strlen`. */
  method PrintNumber(value: nat, base: Byte) returns (text: seq<Byte>)
    requires value < TWO32
    ensures text == NumberText(value, base)
  {
    hide Digits, Underway, UpToNul;
    var buf := new Byte[33](_ => 0);
    var str := 32;
    var radix := if base < 2 then 10 else base;
    DigitsFit32(value, radix);
    var n: nat := value;
    ghost var ds: seq<nat> := [];
    UnderwayStarts(value, radix);
    var first := true;
    while first || n != 0
      invariant 0 <= str == 32 - |ds| && Underway(value, radix, n, ds) && first == (ds == []) && buf[32] == 0
      invariant forall j :: str <= j < 32 ==> buf[j] == UpperDigit(ds[j - str])
      decreases n, first
    {
      OneMoreDigit(value, radix, n, ds);
      DigitBySubtraction(n, radix);
      var m := n;
      n := n / radix;
      var c := m - radix * n;
      str := str - 1;
      buf[str] := if c < 10 then c + 48 else (c + 65 - 10) % 256;
      ds := [m % radix] + ds;
      first := false;
    }
    UnderwayEnds(value, radix, ds);
    assert buf[str..32] == Upper(ds);
    text := WriteString(buf, str, Upper(ds));
  }

  /** `write(str)`: the bytes up to the terminator, by `strlen`. */
  method WriteString(buf: array<Byte>, str: nat, ghost s: seq<Byte>) returns (text: seq<Byte>)
    requires str + |s| < buf.Length && buf[str..str + |s|] == s && buf[str + |s|] == 0
    ensures text == UpToNul(s)
  {
    hide UpToNul;
    var end := str;
    while buf[end] != 0
      invariant str <= end <= str + |s| && forall j :: str <= j < end ==> buf[j] != 0
      decreases str + |s| - end
    {
      end := end + 1;
    }
    text := buf[str..end];
    assert s[..end - str] == text;
    assert end < str + |s| ==> s[end - str] == buf[end];
    UpToNulIs(s, end - str);
  }

  /** The bytes that `print(long, base)` writes; the base is cut to a byte on the way. */
  function Printed(n: int, base: int): seq<Byte> {
    if base == 0 then [n % 256]
    else if base == 10 then (if n < 0 then [MINUS] + Upper(Digits(-n, 10)) else Upper(Digits(n, 10)))
    else NumberText(Unsigned(n), base % 256)
  }

  method PrintLong(n: int, base: int) returns (text: seq<Byte>)
    requires IsLong(n)
    ensures text == Printed(n, base)
  {
    hide Digits, Upper, NumberText;
    if base == 0 {
      text := [n % 256];
    } else if base == 10 {
      WholeNumeral(if n < 0 then -n else n, 10);
      if n < 0 {
        var digits := PrintNumber(Unsigned(Wrap(-n)), 10);
        NegatedFits(n);
        return [MINUS] + digits;
      }
      text := PrintNumber(Unsigned(n), 10);
    } else {
      text := PrintNumber(Unsigned(n), base % 256);
    }
  }

  /** Negation wraps for the least `long`, and its unsigned reading is still the magnitude. */
  lemma NegatedFits(n: int)
    requires IsLong(n) && n < 0
    ensures Unsigned(Wrap(-n)) == -n == Unsigned(-n)
  {}

  /** `ultoa` and `printNumber` agree up to letter case, digit by digit. */
  lemma SameUpToCase(value: nat, radix: nat)
    requires 2 <= radix <= 36
    ensures var ds := Digits(value, radix);
            && NumberText(value, radix) == Upper(ds)
            && |Lower(ds)| == |Upper(ds)| == |ds|
            && forall i :: 0 <= i < |ds| ==>
                 if ds[i] < 10 then Lower(ds)[i] == Upper(ds)[i]
                 else Lower(ds)[i] as int == Upper(ds)[i] as int + 32 && 65 <= Upper(ds)[i] <= 90
  {
    WholeNumeral(value, radix);
    DigitsCorrect(value, radix);
  }

  // ---- What the texts say ---------------------------------------------------------------------

  /** `text` spells the digits `ds`: decimal digits, then letters from `letter` on. */
  ghost predicate Spells(text: seq<Byte>, letter: char, ds: seq<nat>) {
    |text| == |ds| &&
    forall i :: 0 <= i < |ds| ==>
      text[i] as int == if ds[i] < 10 then '0' as int + ds[i] else letter as int + ds[i] - 10
  }

  /** `text` is the numeral of `value`: canonical digits that evaluate to it. */
  ghost predicate Writes(text: seq<Byte>, letter: char, value: int, radix: nat) {
    exists ds :: Canonical(ds, radix) && Eval(ds, radix) == value && Spells(text, letter, ds)
  }

  lemma NumeralIsWritten(value: nat, radix: nat)
    requires 2 <= radix <= 36
    ensures Writes(Upper(Digits(value, radix)), 'A', value, radix)
    ensures Writes(Lower(Digits(value, radix)), 'a', value, radix)
  {
    hide Digits;
    var ds := Digits(value, radix);
    DigitsCorrect(value, radix);
    assert Spells(Upper(ds), 'A', ds) && Spells(Lower(ds), 'a', ds);
  }

  /** What `print(long, base)` writes: the low byte for base 0, sign and magnitude for base 10, and for
      any other base the 32-bit pattern in that base -- 10 if its low byte is 0 or 1 -- with the digit
      characters running on behind 'Z' and the text cut at a NUL among them. */
  lemma PrintedMeans(n: int, base: int)
    requires IsLong(n)
    ensures base == 0 ==> Printed(n, base) == [n % 256]
    ensures base == 10 && n < 0 ==>
              Printed(n, base) != [] && Printed(n, base)[0] == 45 && Writes(Printed(n, base)[1..], 'A', -n, 10)
    ensures base == 10 && n >= 0 ==> Writes(Printed(n, base), 'A', n, 10)
    ensures base != 0 && base != 10 ==>
              var radix := if base % 256 < 2 then 10 else base % 256;
              && (radix <= 36 ==> Writes(Printed(n, base), 'A', n % 0x1_0000_0000, radix))
              && exists ds, t :: Canonical(ds, radix) && Eval(ds, radix) == n % 0x1_0000_0000
                                 && Printed(n, base) == UpToNul(t) && RunsOn(t, ds)
  {
    hide Digits, UpToNul, Writes;
    if base == 10 {
      NumeralIsWritten(if n < 0 then -n else n, 10);
    } else if base != 0 {
      var b: Byte := base % 256;
      var radix, ds := Radix(b), Digits(Unsigned(n), Radix(b));
      DigitsCorrect(Unsigned(n), radix);
      assert RunsOn(Upper(ds), ds);
      if radix <= 36 {
        NumeralIsWritten(Unsigned(n), radix);
        WholeNumeral(Unsigned(n), b);
      }
    }
  }

  /** Digit characters without an end to the alphabet. */
  ghost predicate RunsOn(text: seq<Byte>, ds: seq<nat>) {
    |text| == |ds| &&
    forall i :: 0 <= i < |ds| ==> text[i] == if ds[i] < 10 then ds[i] + 48 else (ds[i] + 55) % 256
  }

  /** What `ltoa` writes: sign and magnitude in radix 10, the 32-bit pattern in any other. */
  lemma SignedMeans(value: int, radix: nat)
    requires IsLong(value) && 2 <= radix <= 36
    ensures radix == 10 && value < 0 ==>
              Signed(value, radix) != [] && Signed(value, radix)[0] == 45
              && Writes(Signed(value, radix)[1..], 'a', -value, 10)
    ensures radix == 10 && value >= 0 ==> Writes(Signed(value, radix), 'a', value, 10)
    ensures radix != 10 ==> Writes(Signed(value, radix), 'a', value % 0x1_0000_0000, radix)
  {
    hide Digits, Writes;
    NumeralIsWritten(if radix == 10 && value < 0 then -value else Unsigned(value), radix);
  }
}

/** cores/arduino/Stream.cpp: `parseInt`, and its round trip with `print`. */
module Parsing {
  import opened Bytes
  import opened Numerals
  import opened Printing
  import opened StreamSearch

  const NO_SKIP_CHAR: Byte := 1

  predicate IsDigit(c: int) { 48 <= c <= 57 }

  /** `peekNextDigit`: what is left once everything before a digit or a minus is dropped. */
  function SkipToNumber(s: seq<Byte>): seq<Byte> {
    if s == [] || s[0] == MINUS || IsDigit(s[0]) then s else SkipToNumber(s[1..])
  }

  datatype Parsed = Parsed(value: int, rest: seq<Byte>)

  /** The accumulation loop, in 32-bit two's-complement arithmetic. */
  function Accumulate(s: seq<Byte>, value: int, skip: Byte): Parsed
    decreases |s|
  {
    if s == [] || !(IsDigit(s[0]) || s[0] == skip) then Parsed(value, s)
    else if s[0] == skip then Accumulate(s[1..], value, skip)
    else Accumulate(s[1..], Wrap(value * 10 + s[0] - 48), skip)
  }

  function Parse(s: seq<Byte>, skip: Byte): Parsed {
    var t := SkipToNumber(s);
    if t == [] then Parsed(0, [])
    else if t[0] == MINUS && skip != MINUS then
      var r := Accumulate(t[1..], 0, skip);
      r.(value := Wrap(-r.value))
    else if t[0] == skip then Accumulate(t[1..], 0, skip)
    else Accumulate(t, 0, skip)
  }

  /** `parseInt(skipChar)`. */
  method ParseInt(stream: Stream, skipChar: Byte) returns (value: int)
    modifies stream
    ensures Parsed(value, stream.input) == Parse(old(stream.input), skipChar)
  {
    hide Wrap;
    ghost var s := stream.input;
    var isNegative := false;
    value := 0;
    var c := PeekNextDigit(stream);
    if c < 0 {
      return 0;
    }
    ghost var t := stream.input;
    if c == skipChar {
    } else if c == MINUS {
      isNegative := true;
    } else if IsDigit(c) {
      value := Wrap(value * 10 + c - 48);
    }
    var _ := stream.TimedRead();
    c := stream.TimedPeek();
    ghost var start := Accumulate(stream.input, value, skipChar);
    FirstCharacter(t, skipChar);
    assert Parse(s, skipChar) == if isNegative then start.(value := Wrap(-start.value)) else start;
    while IsDigit(c) || c == skipChar
      invariant c == if stream.input == [] then -1 else stream.input[0]
      invariant Accumulate(stream.input, value, skipChar) == start
      invariant isNegative == (t[0] == MINUS && skipChar != MINUS)
      decreases |stream.input|
    {
      if c == skipChar {
      } else if c == MINUS {
        isNegative := true;
      } else if IsDigit(c) {
        value := Wrap(value * 10 + c - 48);
      }
      var _ := stream.TimedRead();
      c := stream.TimedPeek();
    }
    if isNegative {
      value := Wrap(-value);
    }
  }

  /** The `do` loop treats the first character like every other. */
  lemma FirstCharacter(t: seq<Byte>, skip: Byte)
    requires t != [] && (t[0] == MINUS || IsDigit(t[0]))
    ensures t[0] != MINUS && t[0] != skip ==>
              Accumulate(t, 0, skip) == Accumulate(t[1..], Wrap(0 * 10 + t[0] - 48), skip)
  {}

  method PeekNextDigit(stream: Stream) returns (c: int)
    modifies stream
    ensures stream.input == SkipToNumber(old(stream.input))
    ensures if stream.input == [] then c == -1 else c == stream.input[0] && (c == MINUS || IsDigit(c))
  {
    c := stream.TimedPeek();
    while c >= 0 && c != MINUS && !IsDigit(c)
      invariant c == if stream.input == [] then -1 else stream.input[0]
      invariant SkipToNumber(stream.input) == SkipToNumber(old(stream.input))
      decreases |stream.input|
    {
      var _ := stream.TimedRead();
      c := stream.TimedPeek();
    }
  }

  // ---- Round trip -------------------------------------------------------------------------

  lemma {:induction false} LeadIsSkipped(lead: seq<Byte>, s: seq<Byte>)
    requires forall i :: 0 <= i < |lead| ==> lead[i] != MINUS && !IsDigit(lead[i])
    requires s != [] && (s[0] == MINUS || IsDigit(s[0]))
    ensures SkipToNumber(lead + s) == s
  {
    if lead == [] {
      assert lead + s == s;
    } else {
      assert (lead + s)[1..] == lead[1..] + s;
      LeadIsSkipped(lead[1..], s);
    }
  }

  lemma WrapStep(x: int, d: int)
    ensures Wrap(Wrap(x) * 10 + d) == Wrap(x * 10 + d)
  {
    var k := (x + 0x8000_0000) / TWO32;
    assert Wrap(x) == x - k * TWO32;
    assert Wrap(x) * 10 + d + 0x8000_0000 == x * 10 + d + 0x8000_0000 - (k * 10) * TWO32;
    ModuloShift(x * 10 + d + 0x8000_0000, k * 10);
  }

  lemma ModuloShift(x: int, k: int)
    ensures (x - k * TWO32) % TWO32 == x % TWO32
  {}

  /** A run of decimal digits contributes its value, modulo 2^32, and stops at the tail. */
  lemma {:induction false} DigitsAccumulate(ds: seq<nat>, v: nat, tail: seq<Byte>)
    requires forall i :: 0 <= i < |ds| ==> ds[i] < 10
    requires tail != [] ==> !IsDigit(tail[0]) && tail[0] != NO_SKIP_CHAR
    ensures Accumulate(Upper(ds) + tail, Wrap(v), NO_SKIP_CHAR) == Parsed(Wrap(Fold(v, ds, 10)), tail)
    decreases |ds|
  {
    hide Wrap;
    if ds == [] {
      assert Upper(ds) + tail == tail;
    } else {
      var s := Upper(ds) + tail;
      assert s[0] == ds[0] + 48 && s[1..] == Upper(ds[1..]) + tail;
      WrapStep(v, ds[0]);
      DigitsAccumulate(ds[1..], v * 10 + ds[0], tail);
    }
  }

  lemma NumeralAccumulates(n: nat, tail: seq<Byte>)
    requires tail != [] ==> !IsDigit(tail[0]) && tail[0] != NO_SKIP_CHAR
    ensures Accumulate(Upper(Digits(n, 10)) + tail, 0, NO_SKIP_CHAR) == Parsed(Wrap(n), tail)
    ensures |Upper(Digits(n, 10))| > 0 && IsDigit(Upper(Digits(n, 10))[0])
  {
    hide Digits, Accumulate;
    DigitsCorrect(n, 10);
    assert Wrap(0) == 0;
    DigitsAccumulate(Digits(n, 10), 0, tail);
  }

  /** Printing a `long` in decimal and parsing it back gives the number and leaves the tail, for
      every 32-bit value, whatever non-numeric text stands in front. */
  lemma PrintParseRoundTrip(lead: seq<Byte>, n: int, tail: seq<Byte>)
    requires IsLong(n)
    requires forall i :: 0 <= i < |lead| ==> lead[i] != 45 && !(48 <= lead[i] <= 57)
    requires tail != [] ==> !(48 <= tail[0] <= 57) && tail[0] != 1
    ensures Parse(lead + (Printed(n, 10) + tail), NO_SKIP_CHAR) == Parsed(n, tail)
  {
    hide Digits, Accumulate, SkipToNumber, Upper;
    var m := if n < 0 then -n else n;
    NumeralAccumulates(m, tail);
    var digits := Upper(Digits(m, 10));
    LeadIsSkipped(lead, Printed(n, 10) + tail);
    if n < 0 {
      assert ([MINUS] + digits + tail)[1..] == digits + tail;
    }
  }

  /** A skip character inside a number is as if it were not there. */
  lemma {:induction false} SkipCharIgnored(a: seq<Byte>, b: seq<Byte>, value: int, skip: Byte)
    requires forall i :: 0 <= i < |a| ==> IsDigit(a[i]) || a[i] == skip
    ensures Accumulate(a + ([skip] + b), value, skip) == Accumulate(a + b, value, skip)
    decreases |a|
  {
    hide Wrap;
    var s := a + ([skip] + b);
    if a == [] {
      assert s == [skip] + b && s[1..] == b && a + b == b;
    } else {
      assert s[1..] == a[1..] + ([skip] + b) && (a + b)[1..] == a[1..] + b;
      SkipCharIgnored(a[1..], b, if a[0] == skip then value else Wrap(value * 10 + a[0] - 48), skip);
    }
  }

  // ---- Any input, any skip character ------------------------------------------------------------

  predicate InNumber(c: Byte, skip: Byte) { IsDigit(c) || c == skip }

  /** The length of the run of digits and skip characters at the front. */
  function NumberRun(s: seq<Byte>, skip: Byte): (n: nat)
    ensures n <= |s| && forall x :: 0 <= x < n ==> InNumber(s[x], skip)
    ensures n < |s| ==> !InNumber(s[n], skip)
  {
    if s == [] || !InNumber(s[0], skip) then 0 else 1 + NumberRun(s[1..], skip)
  }

  /** The digits of a run, skip characters left out. */
  function DigitsIn(s: seq<Byte>, skip: Byte): seq<nat>
    requires forall x :: 0 <= x < |s| ==> InNumber(s[x], skip)
  {
    if s == [] then []
    else if s[0] == skip then DigitsIn(s[1..], skip)
    else
      assert InNumber(s[0], skip);
      var d: nat := s[0] as int - 48;
      [d] + DigitsIn(s[1..], skip)
  }

  lemma {:induction false} AccumulateMeans(s: seq<Byte>, v: nat, skip: Byte)
    ensures var n := NumberRun(s, skip);
            Accumulate(s, Wrap(v), skip) == Parsed(Wrap(Fold(v, DigitsIn(s[..n], skip), 10)), s[n..])
    decreases |s|
  {
    hide Wrap;
    var n := NumberRun(s, skip);
    if n == 0 {
      assert s[..0] == [] && s[0..] == s;
    } else {
      var run, rest := s[..n], s[1..];
      assert run[1..] == rest[..n - 1] && s[n..] == rest[n - 1..];
      if s[0] == skip {
        AccumulateMeans(rest, v, skip);
        assert DigitsIn(run, skip) == DigitsIn(run[1..], skip);
      } else {
        var d := s[0] as int - 48;
        WrapStep(v, d);
        AccumulateMeans(rest, v * 10 + d, skip);
        assert DigitsIn(run, skip)[1..] == DigitsIn(run[1..], skip);
      }
    }
  }

  lemma {:induction false} SkipToNumberMeans(s: seq<Byte>) returns (k: nat)
    ensures k <= |s| && SkipToNumber(s) == s[k..]
    ensures forall x :: 0 <= x < k ==> s[x] != MINUS && !IsDigit(s[x])
    ensures k < |s| ==> s[k] == MINUS || IsDigit(s[k])
  {
    if s == [] || s[0] == MINUS || IsDigit(s[0]) {
      return 0;
    }
    var m := SkipToNumberMeans(s[1..]);
    assert s[1..][m..] == s[m + 1..];
    assert forall x :: 1 <= x < m + 1 ==> s[x] == s[1..][x - 1];
    k := m + 1;
  }

  lemma WrapNegated(v: int)
    ensures Wrap(-Wrap(v)) == Wrap(-v)
  {
    var k := (v + 0x8000_0000) / TWO32;
    assert Wrap(v) == v - k * TWO32;
    ModuloShift(-v + 0x8000_0000, -k);
  }

  /** What `parseInt(skipChar)` returns and leaves, for every input: text before the first digit or
      minus is dropped; a minus negates unless it is the skip character; the digits that follow,
      skip characters left out, give the value modulo 2^32; what comes after them is left. */
  lemma ParseMeans(s: seq<Byte>, skip: Byte)
    ensures var t := SkipToNumber(s);
            if t == [] then Parse(s, skip) == Parsed(0, [])
            else
              var negative := t[0] == 45 && skip != 45;
              var u := if negative then t[1..] else t;
              var n := NumberRun(u, skip);
              var v: int := Eval(DigitsIn(u[..n], skip), 10);
              Parse(s, skip) == Parsed(Wrap(if negative then -v else v), u[n..])
  {
    hide Wrap, SkipToNumber, NumberRun, DigitsIn, Accumulate, Eval, Fold;
    var t := SkipToNumber(s);
    if t != [] {
      var negative := t[0] == 45 && skip != 45;
      var u := if negative then t[1..] else t;
      assert Wrap(0) == 0 by { WrapZero(); }
      AccumulateMeans(u, 0, skip);
      EvalIsFold(DigitsIn(u[..NumberRun(u, skip)], skip));
      WrapNegated(Eval(DigitsIn(u[..NumberRun(u, skip)], skip), 10));
      if t[0] == skip {
        SkipFirst(t, skip);
      }
    }
  }

  lemma WrapZero()
    ensures Wrap(0) == 0
  {}

  lemma EvalIsFold(ds: seq<nat>)
    ensures Eval(ds, 10) == Fold(0, ds, 10)
  {}

  lemma SkipFirst(t: seq<Byte>, skip: Byte)
    requires t != [] && t[0] == skip
    ensures Accumulate(t, 0, skip) == Accumulate(t[1..], 0, skip)
  {}
}

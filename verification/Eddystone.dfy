/** libraries/BLE/EddystoneBeacon.cpp: the Eddystone-URL compressor, built on `String::replace`. */
module Eddystone {
  import opened Bytes
  import opened Matching
  import opened WString

  type Table = seq<seq<Byte>>

  function Ascii(s: string): (r: seq<Byte>)
    requires forall i :: 0 <= i < |s| ==> s[i] as int < 128
    ensures |r| == |s| && forall i :: 0 <= i < |s| ==> r[i] == s[i] as int
  {
    seq(|s|, i requires 0 <= i < |s| => s[i] as int)
  }

  const PREFIXES: Table := [
    Ascii("http://www."), Ascii("https://www."), Ascii("http://"), Ascii("https://"), Ascii("urn:uuid:")
  ]

  const SUFFIXES: Table := [
    Ascii(".com/"), Ascii(".org/"), Ascii(".edu/"), Ascii(".net/"), Ascii(".info/"), Ascii(".biz/"), Ascii(".gov/"),
    Ascii(".com"), Ascii(".org"), Ascii(".edu"), Ascii(".net"), Ascii(".info"), Ascii(".biz"), Ascii(".gov")
  ]

  predicate Printable(b: Byte) { 32 <= b < 127 }

  ghost predicate AllPrintable(s: seq<Byte>) { forall i :: 0 <= i < |s| ==> Printable(s[i]) }

  /** Printable text mixed with the codes 0x80 .. 0x80 + n - 1. */
  ghost predicate Coded(t: seq<Byte>, n: nat) {
    forall i :: 0 <= i < |t| ==> Printable(t[i]) || 128 <= t[i] < 128 + n
  }

  ghost predicate GoodTable(table: Table) {
    |table| <= 100 && forall i :: 0 <= i < |table| ==> 1 < |table[i]| && AllPrintable(table[i])
  }

  // ---- The code ---------------------------------------------------------------------------

  /** The text after the first `n` entries of `table` have been replaced by their codes. */
  function Phase(t: seq<Byte>, table: Table, n: nat): seq<Byte>
    requires n <= |table| <= 100
  {
    if n == 0 then t else Replaced(Phase(t, table, n - 1), table[n - 1], [128 + (n - 1)])
  }

  function Packed(uri: seq<Byte>): seq<Byte> {
    Phase(Phase(uri, PREFIXES, 5), SUFFIXES, 14)
  }

  function Mask(b: Byte): Byte { b % 128 }

  /** The bytes that go on the air: at most `size`, high bit cleared. */
  function Emitted(uri: seq<Byte>, size: nat): seq<Byte> {
    var u := Packed(uri);
    seq(if |u| <= size then |u| else size, i requires 0 <= i < |u| => Mask(u[i]))
  }

  method CompressURI(uri: seq<Byte>, compressedUri: array<Byte>, size: nat) returns (n: nat)
    requires NulFree(uri) && size <= compressedUri.Length && size < 256
    modifies compressedUri
    ensures n <= size && compressedUri[..n] == Emitted(uri, size)
    ensures compressedUri[n..] == old(compressedUri[n..])
  {
    TablesGood();
    hide Ascii, PREFIXES, SUFFIXES, Replaced, SubstLeft;
    var uriString := new ArduinoString(uri);
    for i := 0 to |PREFIXES|
      invariant uriString.Valid() && fresh(uriString) && fresh(uriString.buffer) && unchanged(compressedUri)
      invariant uriString.Text() == Phase(uri, PREFIXES, i)
    {
      uriString.Replace(PREFIXES[i], [128 + i]);
    }
    for i := 0 to |SUFFIXES|
      invariant uriString.Valid() && fresh(uriString) && fresh(uriString.buffer) && unchanged(compressedUri)
      invariant uriString.Text() == Phase(Phase(uri, PREFIXES, 5), SUFFIXES, i)
    {
      uriString.Replace(SUFFIXES[i], [128 + i]);
    }
    n := Emit(uriString, compressedUri, size);
    assert compressedUri[..n] == Emitted(uri, size);
  }

  /** The final loop of `compressURI`. */
  method Emit(uriString: ArduinoString, out: array<Byte>, size: nat) returns (n: nat)
    requires uriString.Valid() && uriString.buffer != out && size <= out.Length
    modifies out
    ensures n == if uriString.len <= size then uriString.len else size
    ensures forall j :: 0 <= j < n ==> out[j] == Mask(uriString.Text()[j])
    ensures out[n..] == old(out[n..])
  {
    n := 0;
    while n < uriString.len && n < size
      invariant n <= uriString.len && n <= size
      invariant forall j :: 0 <= j < n ==> out[j] == Mask(uriString.buffer[j])
      invariant forall j :: n <= j < out.Length ==> out[j] == old(out[j])
    {
      out[n] := Mask(uriString.buffer[n]);
      n := n + 1;
    }
  }

  // ---- The receiver -----------------------------------------------------------------------

  function TailPiece(b: Byte): seq<Byte> { if b < 14 then SUFFIXES[b] else [b] }

  function ExpandTail(s: seq<Byte>): seq<Byte> {
    if s == [] then [] else TailPiece(s[0]) + ExpandTail(s[1..])
  }

  /** Byte 0 by the prefix table (other values are reserved), later bytes by the suffix table. */
  function Expand(s: seq<Byte>): Option<seq<Byte>> {
    if s == [] || s[0] >= 5 then None else Some(PREFIXES[s[0]] + ExpandTail(s[1..]))
  }

  // ---- Facts about the two tables ---------------------------------------------------------

  lemma TablesGood()
    ensures GoodTable(PREFIXES) && GoodTable(SUFFIXES) && |PREFIXES| == 5 && |SUFFIXES| == 14
  {}

  lemma TableHeads(i: nat)
    ensures i < 5 ==> PREFIXES[i][0] == 104 || (PREFIXES[i][0] == 117 && PREFIXES[i][1] == 114)
    ensures i < 14 ==> SUFFIXES[i][0] == 46
  {}

  /** Past its first byte a listed prefix holds no 'h', and no 'u' followed by 'r'. */
  lemma PrefixInterior(k: nat, q: nat)
    requires k < 5 && 0 < q < |PREFIXES[k]|
    ensures PREFIXES[k][q] != 104
    ensures PREFIXES[k][q] == 117 ==> q + 1 < |PREFIXES[k]| && PREFIXES[k][q + 1] != 114
  {
    var p := PREFIXES[k];
    if k == 0 { assert p == Ascii("http://www."); }
    else if k == 1 { assert p == Ascii("https://www."); }
    else if k == 2 { assert p == Ascii("http://"); }
    else if k == 3 { assert p == Ascii("https://"); }
    else { assert p == Ascii("urn:uuid:"); }
  }

  /** No listed prefix can begin inside a listed prefix. */
  lemma PrefixesDoNotNest(k: nat, j: nat, rest: seq<Byte>, q: nat)
    requires k < 5 && j < 5 && 0 < q < |PREFIXES[k]|
    ensures !Occurs(PREFIXES[k] + rest, PREFIXES[j], q)
  {
    hide Ascii, PREFIXES, SUFFIXES;
    TablesGood();
    var p, s := PREFIXES[j], PREFIXES[k] + rest;
    PrefixInterior(k, q);
    TableHeads(j);
    if q + |p| <= |s| {
      assert s[q + 0] != p[0] || s[q + 1] != p[1];
    }
  }

  // ---- Decoding ---------------------------------------------------------------------------

  function Piece(b: Byte, table: Table): seq<Byte>
    requires b < 128 + |table|
  {
    if b < 128 then [b] else table[b - 128]
  }

  /** Undo the codes of `t` by one table. */
  function Decode(t: seq<Byte>, table: Table): seq<Byte>
    requires Coded(t, |table|)
  {
    if t == [] then [] else Piece(t[0], table) + Decode(t[1..], table)
  }

  lemma {:induction false} DecodeConcat(a: seq<Byte>, b: seq<Byte>, table: Table)
    requires Coded(a, |table|) && Coded(b, |table|)
    ensures Coded(a + b, |table|) && Decode(a + b, table) == Decode(a, table) + Decode(b, table)
  {
    if a == [] {
      assert a + b == b;
    } else {
      DecodeConcat(a[1..], b, table);
      assert (a + b)[1..] == a[1..] + b;
    }
  }

  lemma {:induction false} DecodePlain(t: seq<Byte>, table: Table)
    requires AllPrintable(t)
    ensures Coded(t, |table|) && Decode(t, table) == t
  {
    if t != [] {
      DecodePlain(t[1..], table);
    }
  }

  /** Replacing a printable entry by its code does not change what the text decodes to. */
  lemma {:induction false} SubstKeepsMeaning(t: seq<Byte>, table: Table, i: nat)
    requires GoodTable(table) && i < |table| && Coded(t, |table|)
    ensures var t' := SubstLeft(t, table[i], [128 + i]);
            Coded(t', |table|) && Decode(t', table) == Decode(t, table)
    decreases |t|
  {
    hide Decode, Find;
    var f, code := table[i], [128 + i];
    var p := Find(t, f);
    if p >= 0 {
      var head, tail := t[..p], t[p + |f|..];
      assert t == head + f + tail;
      SubstKeepsMeaning(tail, table, i);
      var tail' := SubstLeft(tail, f, code);
      DecodePlain(f, table);
      DecodeConcat(head + f, tail, table);
      DecodeConcat(head, f, table);
      DecodeConcat(head + code, tail', table);
      DecodeConcat(head, code, table);
      DecodeCode(table, i);
    }
  }

  lemma DecodeCode(table: Table, i: nat)
    requires i < |table| <= 100
    ensures Coded([128 + i], |table|) && Decode([128 + i], table) == table[i]
  {
    var c := [128 + i];
    assert c[1..] == [];
    assert Decode(c, table) == table[i] + Decode(c[1..], table);
  }

  lemma {:induction false} PhaseKeepsMeaning(t: seq<Byte>, table: Table, n: nat)
    requires GoodTable(table) && n <= |table| && Coded(t, |table|)
    ensures Coded(Phase(t, table, n), |table|)
    ensures Decode(Phase(t, table, n), table) == Decode(t, table)
  {
    hide SubstLeft, Decode;
    if n > 0 {
      PhaseKeepsMeaning(t, table, n - 1);
      ReplacedIsSubst(Phase(t, table, n - 1), table[n - 1], [128 + (n - 1)]);
      SubstKeepsMeaning(Phase(t, table, n - 1), table, n - 1);
    }
  }

  lemma ReplacedIsSubst(t: seq<Byte>, f: seq<Byte>, r: seq<Byte>)
    requires f != [] && |r| <= |f|
    ensures Replaced(t, f, r) == SubstLeft(t, f, r)
  {}

  // ---- What substitution does to printable matches --------------------------------------------

  lemma MatchByte(s: seq<Byte>, f: seq<Byte>, q: int, p: nat)
    requires Occurs(s, f, q)
    ensures q <= p < q + |f| ==> s[p] == f[p - q]
  {}

  /** A printable match in the output of a substitution was a match in its input, away from
      the entry just replaced. */
  lemma {:induction false} NoNewMatch(t: seq<Byte>, g: seq<Byte>, code: Byte, f: seq<Byte>, q: int)
    requires g != [] && f != [] && AllPrintable(f) && code >= 128
    requires Occurs(SubstLeft(t, g, [code]), f, q)
    ensures exists k :: Occurs(t, f, k)
    ensures f != g
    decreases |t|
  {
    hide Find;
    var p := Find(t, g);
    var out := SubstLeft(t, g, [code]);
    if p < 0 {
      assert Occurs(t, f, q);
    } else {
      var tail := t[p + |g|..];
      var tail' := SubstLeft(tail, g, [code]);
      SubstLeftUnfold(t, g, [code], p);
      hide SubstLeft;
      if q <= p {
        MatchBeforeCode(t, p, code, tail', f, q);
      } else {
        MatchAfterCode(t, p, code, tail', f, q);
        NoNewMatch(tail, g, code, f, q - p - 1);
        var k :| Occurs(tail, f, k);
        MatchInside(tail, f, k);
        assert tail == t[p + |g|..|t|];
        OccursInSlice(t, f, p + |g|, |t|, k);
      }
    }
  }

  /** A printable match that begins before the code ends before it. */
  lemma MatchBeforeCode(t: seq<Byte>, p: nat, code: Byte, tail: seq<Byte>, f: seq<Byte>, q: int)
    requires p <= |t| && code >= 128 && AllPrintable(f) && q <= p && Occurs(t[..p] + [code] + tail, f, q)
    ensures Occurs(t, f, q) && q + |f| <= p
  {
    var out := t[..p] + [code] + tail;
    MatchByte(out, f, q, p);
    assert out[p] == code;
    assert forall i :: 0 <= i < |f| ==> f[i] == out[q + i];
  }

  lemma MatchAfterCode(t: seq<Byte>, p: nat, code: Byte, tail: seq<Byte>, f: seq<Byte>, q: int)
    requires p <= |t| && q > p && Occurs(t[..p] + [code] + tail, f, q)
    ensures Occurs(tail, f, q - p - 1)
  {
    var out := t[..p] + [code] + tail;
    assert tail == out[p + 1..|out|];
    OccursInSlice(out, f, p + 1, |out|, q - p - 1);
  }

  /** After `n` entries none of them is left. */
  lemma {:induction false} PhaseClears(t: seq<Byte>, table: Table, n: nat, j: nat, q: int)
    requires GoodTable(table) && j < n <= |table|
    ensures !Occurs(Phase(t, table, n), table[j], q)
    decreases n
  {
    hide SubstLeft, Occurs;
    var t1, g := Phase(t, table, n - 1), table[n - 1];
    ReplacedIsSubst(t1, g, [128 + (n - 1)]);
    if Occurs(Phase(t, table, n), table[j], q) {
      NoNewMatch(t1, g, 128 + (n - 1), table[j], q);
      var k :| Occurs(t1, table[j], k);
      if j < n - 1 {
        PhaseClears(t, table, n - 1, j, k);
      }
      assert false;
    }
  }

  /** A phase brings no printable text into being. */
  lemma {:induction false} PhaseAddsNoMatch(t: seq<Byte>, table: Table, n: nat, f: seq<Byte>, q: int)
    requires GoodTable(table) && n <= |table| && f != [] && AllPrintable(f) && Occurs(Phase(t, table, n), f, q)
    ensures exists k :: Occurs(t, f, k)
    decreases n
  {
    hide SubstLeft, Occurs;
    if n > 0 {
      var t1, g := Phase(t, table, n - 1), table[n - 1];
      ReplacedIsSubst(t1, g, [128 + (n - 1)]);
      NoNewMatch(t1, g, 128 + (n - 1), f, q);
      var k :| Occurs(t1, f, k);
      PhaseAddsNoMatch(t, table, n - 1, f, k);
    }
  }

  /** Everything listed is compressed: no prefix and no suffix of the tables is left in the text. */
  lemma PackedIsFullyCoded(uri: seq<Byte>, q: int)
    ensures |PREFIXES| == 5 && |SUFFIXES| == 14
    ensures forall j :: 0 <= j < 5 ==> !Occurs(Packed(uri), PREFIXES[j], q)
    ensures forall j :: 0 <= j < 14 ==> !Occurs(Packed(uri), SUFFIXES[j], q)
  {
    TablesGood();
    hide Ascii, PREFIXES, SUFFIXES, Phase, Occurs;
    var t := Phase(uri, PREFIXES, 5);
    forall j | 0 <= j < 14 ensures !Occurs(Packed(uri), SUFFIXES[j], q) {
      PhaseClears(t, SUFFIXES, 14, j, q);
    }
    forall j | 0 <= j < 5 ensures !Occurs(Packed(uri), PREFIXES[j], q) {
      if Occurs(Packed(uri), PREFIXES[j], q) {
        PhaseAddsNoMatch(t, SUFFIXES, 14, PREFIXES[j], q);
        var k :| Occurs(t, PREFIXES[j], k);
        PhaseClears(uri, PREFIXES, 5, j, k);
      }
    }
  }

  lemma NoMatchNoChange(t: seq<Byte>, f: seq<Byte>, r: seq<Byte>)
    requires f != [] && |r| <= |f| && forall q :: !Occurs(t, f, q)
    ensures Replaced(t, f, r) == t
  {
    assert !Occurs(t, f, Find(t, f));
  }

  // ---- When the URI has the expected shape ------------------------------------------------------

  ghost predicate StartsWith(uri: seq<Byte>, k: nat)
    requires k < 5
  {
    Occurs(uri, PREFIXES[k], 0)
  }

  /** What a caller can check: a listed prefix at the front and none further on. */
  ghost predicate WellFormedUri(uri: seq<Byte>) {
    && (exists k :: 0 <= k < 5 && StartsWith(uri, k))
    && (forall j, q :: 0 <= j < 5 && 0 < q ==> !Occurs(uri, PREFIXES[j], q))
  }

  /** A code byte at the front is never touched by a later substitution. */
  lemma {:induction false} SubstBehindCode(c: Byte, x: seq<Byte>, f: seq<Byte>, r: seq<Byte>)
    requires c >= 128 && f != [] && AllPrintable(f)
    ensures SubstLeft([c] + x, f, r) == [c] + SubstLeft(x, f, r)
  {
    hide FirstFrom, Find, Occurs, SubstLeft;
    var t := [c] + x;
    var p := Find(x, f);
    MatchesBehindCode(c, x, f);
    if p >= 0 {
      assert Occurs(t, f, p + 1);
      FindIs(t, f, p + 1);
      MatchInside(x, f, p);
      SubstLeftUnfold(x, f, r, p);
      SubstLeftUnfold(t, f, r, p + 1);
      ShiftedParts(c, x, p, |f|);
      assert [c] + (x[..p] + r + SubstLeft(x[p + |f|..], f, r)) == [c] + x[..p] + r + SubstLeft(x[p + |f|..], f, r);
    } else {
      assert !Occurs(t, f, Find(t, f));
      NoMatchSame(x, f, r);
      NoMatchSame(t, f, r);
    }
  }

  lemma ShiftedParts(c: Byte, x: seq<Byte>, p: nat, m: nat)
    requires p + m <= |x|
    ensures ([c] + x)[..p + 1] == [c] + x[..p] && ([c] + x)[p + 1 + m..] == x[p + m..]
  {}

  lemma MatchesBehindCode(c: Byte, x: seq<Byte>, f: seq<Byte>)
    requires c >= 128 && f != [] && AllPrintable(f)
    ensures forall q :: Occurs([c] + x, f, q) <==> q > 0 && Occurs(x, f, q - 1)
    ensures forall q :: Occurs(x, f, q) ==> Occurs([c] + x, f, q + 1)
  {
    var t := [c] + x;
    forall q ensures Occurs(t, f, q) <==> q > 0 && Occurs(x, f, q - 1) {
      assert f[0] != t[0];
      if q > 0 {
        assert x == t[1..|t|];
        OccursInSlice(t, f, 1, |t|, q - 1);
      }
    }
    forall q | Occurs(x, f, q) ensures Occurs(t, f, q + 1) {
      assert Occurs(x, f, (q + 1) - 1);
    }
  }

  lemma {:induction false} PhaseBehindCode(c: Byte, x: seq<Byte>, table: Table, n: nat)
    requires c >= 128 && GoodTable(table) && n <= |table|
    ensures Phase([c] + x, table, n) == [c] + Phase(x, table, n)
  {
    hide SubstLeft;
    if n > 0 {
      PhaseBehindCode(c, x, table, n - 1);
      var x1, f, r := Phase(x, table, n - 1), table[n - 1], [128 + (n - 1)];
      SubstBehindCode(c, x1, f, r);
      ReplacedIsSubst(x1, f, r);
      ReplacedIsSubst([c] + x1, f, r);
    }
  }

  /** On a well-formed URI the prefix phase replaces the leading prefix and nothing else. */
  lemma {:induction false} WellFormedPhase(uri: seq<Byte>, k: nat, n: nat)
    requires AllPrintable(uri) && WellFormedUri(uri) && n <= 5
    requires k < 5 && StartsWith(uri, k) && forall i :: 0 <= i < k ==> !StartsWith(uri, i)
    ensures Phase(uri, PREFIXES, n) == if n <= k then uri else [128 + k] + uri[|PREFIXES[k]|..]
  {
    hide Ascii, PREFIXES, SUFFIXES, FirstFrom;
    TablesGood();
    if n > 0 {
      WellFormedPhase(uri, k, n - 1);
      var f, rest := PREFIXES[n - 1], uri[|PREFIXES[k]|..];
      if n - 1 < k {
        assert !StartsWith(uri, n - 1);
        NoMatchNoChange(uri, f, [128 + (n - 1)]);
      } else {
        NothingInRest(uri, |PREFIXES[k]|, f);
        NoMatchNoChange(rest, f, [128 + (n - 1)]);
        if n - 1 == k {
          FindIs(uri, f, 0);
          assert uri[..0] + [128 + k] + rest == [128 + k] + rest;
        } else {
          SubstBehindCode(128 + k, rest, f, [128 + (n - 1)]);
        }
      }
    }
  }

  lemma NothingInRest(uri: seq<Byte>, e: nat, f: seq<Byte>)
    requires 0 < e <= |uri| && forall q :: 0 < q ==> !Occurs(uri, f, q)
    ensures forall q :: !Occurs(uri[e..], f, q)
  {
    forall q ensures !Occurs(uri[e..], f, q) {
      assert uri[e..] == uri[e..|uri|];
      OccursInSlice(uri, f, e, |uri|, q);
    }
  }

  /** Codes read by the wrong table are seen: the two readings agree only on plain text, and only
      there does the one begin with the other. */
  lemma {:induction false} ReadingsAgreeIffPlain(x: seq<Byte>)
    requires Coded(x, 5)
    ensures |PREFIXES| == 5 && |SUFFIXES| == 14 && Coded(x, 14)
    ensures Decode(x, PREFIXES) == Decode(x, SUFFIXES) <==> AllPrintable(x)
    ensures Decode(x, PREFIXES) <= Decode(x, SUFFIXES) <==> AllPrintable(x)
  {
    hide Ascii, PREFIXES, SUFFIXES;
    TablesGood();
    if AllPrintable(x) {
      DecodePlain(x, PREFIXES);
      DecodePlain(x, SUFFIXES);
    } else if x[0] < 128 {
      ReadingsAgreeIffPlain(x[1..]);
      SameHead(x[0], Decode(x[1..], PREFIXES), Decode(x[1..], SUFFIXES));
    } else {
      TableHeads(x[0] - 128);
      assert Decode(x, PREFIXES)[0] != Decode(x, SUFFIXES)[0];
    }
  }

  lemma SameHead(b: Byte, y: seq<Byte>, z: seq<Byte>)
    ensures [b] + y <= [b] + z <==> y <= z
  {
    assert ([b] + y)[1..] == y && ([b] + z)[1..] == z;
    if [b] + y <= [b] + z {
      assert forall i :: 0 <= i < |y| ==> y[i] == ([b] + y)[i + 1] == ([b] + z)[i + 1] == z[i];
    }
  }

  lemma {:induction false} ExpandMasked(u: seq<Byte>, m: seq<Byte>)
    requires Coded(u, 14) && |m| == |u| && forall i :: 0 <= i < |u| ==> m[i] == Mask(u[i])
    ensures |SUFFIXES| == 14 && ExpandTail(m) == Decode(u, SUFFIXES)
  {
    hide Ascii, PREFIXES, SUFFIXES, ExpandTail, Decode;
    TablesGood();
    if u != [] {
      ExpandMasked(u[1..], m[1..]);
      PieceMasked(u[0]);
      ExpandTailUnfold(m);
      DecodeUnfold(u, SUFFIXES);
    } else {
      EmptyReadings(SUFFIXES);
    }
  }

  lemma PieceMasked(b: Byte)
    requires Printable(b) || 128 <= b < 142
    ensures |SUFFIXES| == 14 && TailPiece(Mask(b)) == Piece(b, SUFFIXES)
  {
    TablesGood();
    hide Ascii, SUFFIXES;
  }

  lemma ExpandTailUnfold(m: seq<Byte>)
    requires m != []
    ensures ExpandTail(m) == TailPiece(m[0]) + ExpandTail(m[1..])
  {}

  lemma DecodeUnfold(t: seq<Byte>, table: Table)
    requires t != [] && Coded(t, |table|)
    ensures Coded(t[1..], |table|) && Decode(t, table) == Piece(t[0], table) + Decode(t[1..], table)
  {}

  lemma EmptyReadings(table: Table)
    ensures ExpandTail([]) == [] && Decode([], table) == []
  {}

  // ---- Main results -----------------------------------------------------------------------------

  /** The packed text of any printable URI whose prefix phase left a code in front. */
  lemma PackedShape(uri: seq<Byte>, c: Byte, x: seq<Byte>)
    requires AllPrintable(uri) && Phase(uri, PREFIXES, 5) == [c] + x && c >= 128
    ensures |PREFIXES| == 5 && |SUFFIXES| == 14 && c < 133 && Coded(x, 5) && Coded(x, 14)
    ensures uri == PREFIXES[c - 128] + Decode(x, PREFIXES)
    ensures Packed(uri) == [c] + Phase(x, SUFFIXES, 14) && Coded(Phase(x, SUFFIXES, 14), 14)
    ensures Decode(Phase(x, SUFFIXES, 14), SUFFIXES) == Decode(x, SUFFIXES)
  {
    hide Ascii, PREFIXES, SUFFIXES, Phase;
    TablesGood();
    DecodePlain(uri, PREFIXES);
    PhaseKeepsMeaning(uri, PREFIXES, 5);
    var t := [c] + x;
    assert t[0] == c && t[1..] == x;
    PhaseBehindCode(c, x, SUFFIXES, 14);
    assert forall i :: 0 <= i < |x| ==> x[i] == t[i + 1];
    PhaseKeepsMeaning(x, SUFFIXES, 14);
  }

  /** A shorter text decodes to a shorter text. */
  lemma DecodePrefix(v: seq<Byte>, n: nat, table: Table)
    requires Coded(v, |table|) && n <= |v| && GoodTable(table)
    ensures Coded(v[..n], |table|) && Decode(v[..n], table) <= Decode(v, table)
    ensures n < |v| <==> Decode(v[..n], table) != Decode(v, table)
  {
    hide Decode;
    assert v == v[..n] + v[n..];
    DecodeConcat(v[..n], v[n..], table);
    if n < |v| {
      DecodeHead(v[n..], table);
    } else {
      assert v[..n] == v;
    }
  }

  /** The receiver reads back the URI exactly when no code was left past byte 0 and nothing was
      cut off. */
  lemma ExpandPacked(uri: seq<Byte>, c: Byte, x: seq<Byte>, m: seq<Byte>)
    requires AllPrintable(uri) && Phase(uri, PREFIXES, 5) == [c] + x && c >= 128
    requires |m| <= |Packed(uri)| && forall i :: 0 <= i < |m| ==> m[i] == Mask(Packed(uri)[i])
    ensures Expand(m) == Some(uri) <==> AllPrintable(x) && |m| == |Packed(uri)|
  {
    hide Ascii, PREFIXES, SUFFIXES, Phase, Decode, Packed;
    TablesGood();
    PackedShape(uri, c, x);
    if m != [] {
      var u, n := Phase(x, SUFFIXES, 14), |m| - 1;
      assert m[0] == c - 128;
      assert forall i :: 0 <= i < n ==> m[1..][i] == m[i + 1] && u[i] == ([c] + u)[i + 1];
      ExpandMasked(u[..n], m[1..]);
      DecodePrefix(u, n, SUFFIXES);
      ReadingsAgreeIffPlain(x);
      var p, a, b := PREFIXES[c - 128], Decode(x, PREFIXES), Decode(u[..n], SUFFIXES);
      assert (p + a)[|p|..] == a && (p + b)[|p|..] == b;
    }
  }

  lemma LeastPrefix(uri: seq<Byte>) returns (k: nat)
    requires exists i :: 0 <= i < 5 && StartsWith(uri, i)
    ensures k < 5 && StartsWith(uri, k) && forall i :: 0 <= i < k ==> !StartsWith(uri, i)
  {
    k := 0;
    while !StartsWith(uri, k)
      invariant k < 5 && forall i :: 0 <= i < k ==> !StartsWith(uri, i)
      decreases 5 - k
    {
      k := k + 1;
    }
  }

  /** No code past byte 0 means: the URI is its leading prefix and a rest free of prefixes. */
  lemma PlainTailIsWellFormed(uri: seq<Byte>, c: Byte, x: seq<Byte>)
    requires AllPrintable(uri) && Phase(uri, PREFIXES, 5) == [c] + x && c >= 128 && AllPrintable(x)
    ensures WellFormedUri(uri)
  {
    hide Ascii, PREFIXES, SUFFIXES, Phase, Decode;
    TablesGood();
    PackedShape(uri, c, x);
    DecodePlain(x, PREFIXES);
    var k := c - 128;
    var p := PREFIXES[k];
    assert StartsWith(uri, k);
    forall j, q | 0 <= j < 5 && 0 < q ensures !Occurs(uri, PREFIXES[j], q) {
      if q < |p| {
        PrefixesDoNotNest(k, j, x, q);
      } else {
        PhaseClears(uri, PREFIXES, 5, j, q - |p| + 1);
        MatchesBehindCode(c, x, PREFIXES[j]);
        assert uri[|p|..|uri|] == x;
        OccursInSlice(uri, PREFIXES[j], |p|, |uri|, q - |p|);
      }
    }
  }

  /** Without a leading prefix code the receiver cannot give the URI back. */
  lemma NoPrefixCodeNoRoundTrip(uri: seq<Byte>, m: seq<Byte>)
    requires AllPrintable(uri) && var t := Phase(uri, PREFIXES, 5); t == [] || t[0] < 128
    requires |m| <= |Packed(uri)| && forall i :: 0 <= i < |m| ==> m[i] == Mask(Packed(uri)[i])
    ensures Expand(m) != Some(uri)
  {
    hide Ascii, PREFIXES, SUFFIXES, Phase, ExpandTail, Decode;
    TablesGood();
    var t := Phase(uri, PREFIXES, 5);
    DecodePlain(uri, PREFIXES);
    PhaseKeepsMeaning(uri, PREFIXES, 5);
    PhaseKeepsMeaning(t, SUFFIXES, 14);
    var u := Packed(uri);
    if m != [] && u[0] >= 128 {
      TableHeads(u[0] - 128);
      TableHeads(m[0]);
      DecodeHead(u, SUFFIXES);
      if t == [] {
        EmptyReadings(SUFFIXES);
      } else {
        DecodeHead(t, SUFFIXES);
        DecodeHead(t, PREFIXES);
      }
    }
  }

  /** The first byte of a text decides the first byte of its decoding. */
  lemma DecodeHead(t: seq<Byte>, table: Table)
    requires t != [] && Coded(t, |table|) && GoodTable(table)
    ensures Decode(t, table) != []
    ensures Decode(t, table)[0] == if t[0] < 128 then t[0] else table[t[0] - 128][0]
  {}

  /** Exact condition for a compressed URI to be read back: it is well-formed and fits. */
  lemma RoundTripIffWellFormed(uri: seq<Byte>, size: nat)
    requires AllPrintable(uri)
    ensures Expand(Emitted(uri, size)) == Some(uri) <==> WellFormedUri(uri) && |Packed(uri)| <= size
  {
    hide Ascii, PREFIXES, SUFFIXES, Phase, Packed, Expand;
    TablesGood();
    var t, m := Phase(uri, PREFIXES, 5), Emitted(uri, size);
    if WellFormedUri(uri) {
      var k := LeastPrefix(uri);
      WellFormedPhase(uri, k, 5);
      var x := uri[|PREFIXES[k]|..];
      ExpandPacked(uri, 128 + k, x, m);
    } else if t == [] || t[0] < 128 {
      NoPrefixCodeNoRoundTrip(uri, m);
    } else {
      assert t == [t[0]] + t[1..];
      ExpandPacked(uri, t[0], t[1..], m);
      if AllPrintable(t[1..]) {
        PlainTailIsWellFormed(uri, t[0], t[1..]);
      }
    }
  }

  /** A buffer that is too small cuts the URI short but never changes it. */
  lemma TruncatedIsPrefix(uri: seq<Byte>, size: nat)
    requires AllPrintable(uri) && WellFormedUri(uri) && size >= 1
    ensures var e := Expand(Emitted(uri, size)); e.Some? && e.value <= uri
  {
    hide Ascii, PREFIXES, SUFFIXES, Phase, Packed, ExpandTail, Decode;
    TablesGood();
    var k := LeastPrefix(uri);
    WellFormedPhase(uri, k, 5);
    var x := uri[|PREFIXES[k]|..];
    PackedShape(uri, 128 + k, x);
    DecodePlain(x, PREFIXES);
    DecodePlain(x, SUFFIXES);
    var m, v := Emitted(uri, size), Phase(x, SUFFIXES, 14);
    var n := |m| - 1;
    EmittedHead(uri, size, 128 + k, v);
    ExpandMasked(v[..n], m[1..]);
    DecodePrefix(v, n, SUFFIXES);
    PrefixOfJoin(PREFIXES[k], Decode(v[..n], SUFFIXES), x);
  }

  lemma PrefixOfJoin(p: seq<Byte>, a: seq<Byte>, b: seq<Byte>)
    requires a <= b
    ensures p + a <= p + b
  {}

  /** The emitted bytes: the prefix code, then as much of the packed rest as fits. */
  lemma EmittedHead(uri: seq<Byte>, size: nat, c: Byte, v: seq<Byte>)
    requires size >= 1 && Packed(uri) == [c] + v && 128 <= c < 133 && Coded(v, 14)
    ensures var m := Emitted(uri, size);
            && 1 <= |m| <= |v| + 1 && m[0] == c - 128
            && Coded(v[..|m| - 1], 14)
            && forall i :: 0 <= i < |m| - 1 ==> m[1..][i] == Mask(v[..|m| - 1][i])
  {
    hide Packed;
    var m, u := Emitted(uri, size), [c] + v;
    assert forall i :: 0 <= i < |v| ==> v[i] == u[i + 1];
    assert forall i :: 0 <= i < |m| - 1 ==> m[1..][i] == m[i + 1] == Mask(u[i + 1]);
  }

  /** A later prefix is not read back: "http://www.http://www." is emitted as two zero bytes. */
  lemma LaterPrefixIsLost()
    ensures var uri := PREFIXES[0] + PREFIXES[0]; Expand(Emitted(uri, |Packed(uri)|)) != Some(uri)
  {
    hide Expand, Emitted, Packed;
    var uri := PREFIXES[0] + PREFIXES[0];
    TablesGood();
    assert Occurs(uri, PREFIXES[0], |PREFIXES[0]|);
    RoundTripIffWellFormed(uri, |Packed(uri)|);
  }
}

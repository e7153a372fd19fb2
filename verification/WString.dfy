/** cores/arduino/WString.cpp: the `String` buffer, `lastIndexOf` and `replace`.
    A string is a heap buffer with a length, a capacity and a NUL after the text. */
module WString {
  import opened Bytes
  import opened Matching
  import opened Memory
  import opened Rematching

  // ---- libc on one buffer, as values -------------------------------------------------------

  ghost predicate Terminated(s: seq<Byte>, from: nat) {
    exists i :: from <= i < |s| && s[i] == 0
  }

  function Terminator(s: seq<Byte>, from: nat): (n: nat)
    requires Terminated(s, from)
    ensures from <= n < |s| && s[n] == 0 && forall i :: from <= i < n ==> s[i] != 0
    decreases |s| - from
  {
    if s[from] == 0 then from else Terminator(s, from + 1)
  }

  /** `strstr(buf + from, f)`, as an offset from `buf + from`; -1 for NULL. */
  function StrStr(s: seq<Byte>, from: nat, f: seq<Byte>): int
    requires Terminated(s, from)
  {
    Find(s[from..Terminator(s, from)], f)
  }

  lemma StrStrIs(s: seq<Byte>, from: nat, n: nat, u: seq<Byte>, f: seq<Byte>)
    requires from <= n < |s| && s[n] == 0 && NulFree(u) && s[from..n] == u
    ensures Terminated(s, from) && Terminator(s, from) == n && StrStr(s, from, f) == Find(u, f)
  {
    assert forall i :: from <= i < n ==> s[i] == u[i - from];
  }

  /** `strcpy` inside one buffer to a lower address, terminator included. */
  method StrCpyDown(a: array<Byte>, dst: nat, src: nat)
    requires dst <= src && Terminated(a[..], src)
    modifies a
    ensures a[..] == Write(old(a[..]), dst, old(a[src..Terminator(a[..], src) + 1]))
  {
    hide Write, Terminator;
    ghost var n := Terminator(a[..], src);
    var i := 0;
    while a[src + i] != 0
      invariant src + i <= n
      invariant forall j :: 0 <= j < dst || dst + i <= j < a.Length ==> a[j] == old(a[j])
      invariant forall j :: dst <= j < dst + i ==> a[j] == old(a[j + (src - dst)])
      decreases n - i
    {
      a[dst + i] := a[src + i];
      i := i + 1;
    }
    a[dst + i] := 0;
    assert n == src + i;
    CopiedDown(old(a[..]), a[..], dst, src, i + 1);
  }

  // ---- The forward scan of the equal and shrinking branches, on values -----------------------

  /** Up to `writeTo` the buffer holds finished text; from `readFrom` it still holds the original. */
  ghost predicate Compacting(b: seq<Byte>, t: seq<Byte>, f: seq<Byte>, r: seq<Byte>, readFrom: nat, writeTo: nat)
    requires f != []
  {
    && writeTo <= readFrom <= |t| < |b|
    && b[readFrom..|t|] == t[readFrom..] && b[|t|] == 0
    && NulFree(b[..writeTo])
    && b[..writeTo] + SubstLeft(t[readFrom..], f, r) == SubstLeft(t, f, r)
  }

  lemma SubstLeftUnfold(u: seq<Byte>, f: seq<Byte>, r: seq<Byte>, p: int)
    requires f != [] && p == Find(u, f) >= 0
    ensures SubstLeft(u, f, r) == u[..p] + r + SubstLeft(u[p + |f|..], f, r)
  {}

  lemma SubstLeftStep(t: seq<Byte>, f: seq<Byte>, r: seq<Byte>, readFrom: nat, done: seq<Byte>, p: int)
    requires f != [] && readFrom <= |t| && p == Find(t[readFrom..], f) >= 0
    requires done + SubstLeft(t[readFrom..], f, r) == SubstLeft(t, f, r)
    ensures readFrom + p + |f| <= |t|
    ensures (done + t[readFrom..readFrom + p] + r) + SubstLeft(t[readFrom + p + |f|..], f, r) == SubstLeft(t, f, r)
  {
    hide SubstLeft, Find;
    var u := t[readFrom..];
    SubstLeftUnfold(u, f, r, p);
    assert u[..p] == t[readFrom..readFrom + p] && u[p + |f|..] == t[readFrom + p + |f|..];
    Associate(done, u[..p], r, SubstLeft(u[p + |f|..], f, r));
  }

  lemma Associate(x: seq<Byte>, y: seq<Byte>, z: seq<Byte>, w: seq<Byte>)
    ensures x + (y + z + w) == x + y + z + w
  {}

  /** The bytes after one pass: the moved gap, the replacement, and the unread rest. */
  lemma CompactBytes(b: seq<Byte>, t: seq<Byte>, r: seq<Byte>, m: nat, readFrom: nat, writeTo: nat, p: nat)
    requires writeTo <= readFrom && |r| <= m && readFrom + p + m <= |t| < |b| && b[readFrom..|t|] == t[readFrom..]
    ensures var b2 := Write(Write(b, writeTo, b[readFrom..readFrom + p]), writeTo + p, r);
            && b2[..writeTo + p + |r|] == b[..writeTo] + t[readFrom..readFrom + p] + r
            && b2[readFrom + p + m..|t|] == t[readFrom + p + m..]
            && b2[|t|] == b[|t|]
  {
    hide Write;
    forall i | readFrom <= i < |t| ensures b[i] == t[i] {
      assert b[i] == b[readFrom..|t|][i - readFrom];
    }
    var b1 := Write(b, writeTo, b[readFrom..readFrom + p]);
    var b2 := Write(b1, writeTo + p, r);
    assert forall i :: 0 <= i < writeTo ==> b2[i] == b[i];
    assert forall i :: writeTo <= i < writeTo + p ==> b2[i] == b[i - writeTo + readFrom];
    assert forall i :: writeTo + p <= i < writeTo + p + |r| ==> b2[i] == r[i - writeTo - p];
    assert forall i :: readFrom + p + m <= i < |b| ==> b2[i] == b[i];
    assert b2[..writeTo + p + |r|] == b[..writeTo] + t[readFrom..readFrom + p] + r;
  }

  lemma CompactStep(b: seq<Byte>, t: seq<Byte>, f: seq<Byte>, r: seq<Byte>, readFrom: nat, writeTo: nat, p: int)
    requires f != [] && |r| <= |f| && NulFree(t) && NulFree(r)
    requires Compacting(b, t, f, r, readFrom, writeTo) && p == Find(t[readFrom..], f) >= 0
    ensures readFrom + p + |f| <= |t|
    ensures var b1 := Write(b, writeTo, b[readFrom..readFrom + p]);
            Compacting(Write(b1, writeTo + p, r), t, f, r, readFrom + p + |f|, writeTo + p + |r|)
  {
    hide SubstLeft, Find, Write;
    SubstLeftStep(t, f, r, readFrom, b[..writeTo], p);
    CompactBytes(b, t, r, |f|, readFrom, writeTo, p);
  }

  lemma CompactingReads(b: seq<Byte>, t: seq<Byte>, f: seq<Byte>, r: seq<Byte>, readFrom: nat, writeTo: nat)
    requires f != [] && NulFree(t) && Compacting(b, t, f, r, readFrom, writeTo)
    ensures writeTo <= readFrom <= |t| < |b|
    ensures Terminated(b, readFrom) && Terminator(b, readFrom) == |t|
    ensures StrStr(b, readFrom, f) == Find(t[readFrom..], f)
  {
    hide SubstLeft, Find;
    StrStrIs(b, readFrom, |t|, t[readFrom..], f);
  }

  lemma CompactingStarts(b: seq<Byte>, t: seq<Byte>, f: seq<Byte>, r: seq<Byte>)
    requires f != [] && |t| < |b| && b[..|t|] == t && b[|t|] == 0
    ensures Compacting(b, t, f, r, 0, 0)
  {
    assert t[0..] == t && b[0..|t|] == t;
    assert b[..0] + SubstLeft(t, f, r) == SubstLeft(t, f, r);
  }

  lemma CompactingEnds(b: seq<Byte>, t: seq<Byte>, f: seq<Byte>, r: seq<Byte>, readFrom: nat, writeTo: nat)
    requires f != [] && NulFree(t) && Compacting(b, t, f, r, readFrom, writeTo) && Find(t[readFrom..], f) < 0
    ensures var b' := Write(b, writeTo, b[readFrom..|t| + 1]);
            var n := writeTo + |t| - readFrom;
            b'[..n] == SubstLeft(t, f, r) && b'[n] == 0 && NulFree(b'[..n])
  {
    hide Write, Find, NulFree;
    NoMatchSame(t[readFrom..], f, r);
    hide SubstLeft;
    MovedDown(b, t, readFrom, writeTo);
    NulFreeJoin(b[..writeTo], t, readFrom);
  }

  lemma MovedDown(b: seq<Byte>, t: seq<Byte>, readFrom: nat, writeTo: nat)
    requires writeTo <= readFrom <= |t| < |b| && b[readFrom..|t|] == t[readFrom..] && b[|t|] == 0
    ensures var b' := Write(b, writeTo, b[readFrom..|t| + 1]);
            var n := writeTo + |t| - readFrom;
            b'[..n] == b[..writeTo] + t[readFrom..] && b'[n] == 0
  {
    hide Write;
    forall i | readFrom <= i < |t| ensures b[i] == t[i] {
      assert b[i] == b[readFrom..|t|][i - readFrom];
    }
  }

  lemma NulFreeJoin(a: seq<Byte>, t: seq<Byte>, from: nat)
    requires NulFree(a) && NulFree(t) && from <= |t|
    ensures NulFree(a + t[from..])
  {}

  // ---- What String::replace computes, as a value ------------------------------------------

  function Replaced(t: seq<Byte>, f: seq<Byte>, r: seq<Byte>): seq<Byte> {
    if t == [] || f == [] then t
    else if |r| <= |f| then SubstLeft(t, f, r)
    else GrowLoop(t, f, r, |t| - 1)
  }

  /** An empty string, or an empty `find`, leaves everything as it is. */
  lemma NothingToReplace(t: seq<Byte>, f: seq<Byte>, r: seq<Byte>)
    ensures t == [] || f == [] ==> Replaced(t, f, r) == t
  {}

  /** The rewriting pass of the growing branch ends within the capacity the string had or the
      size its counting pass reserved; outside this the C++ writes past the allocation. */
  ghost predicate Fits(t: seq<Byte>, f: seq<Byte>, r: seq<Byte>, capacity: nat) {
    t != [] && 0 < |f| < |r| ==>
      var n := |GrowLoop(t, f, r, |t| - 1)|;
      n <= |SubstLeft(t, f, r)| || n <= capacity
  }

  lemma NoOverlapFits(t: seq<Byte>, f: seq<Byte>, r: seq<Byte>, capacity: nat)
    requires NoOverlap(f, r)
    ensures Fits(t, f, r, capacity)
    ensures t != [] && 0 < |f| < |r| ==> Replaced(t, f, r) == SubstRight(t, f, r)
  {
    if t != [] && 0 < |f| < |r| {
      NoOverlapGrowsCorrectly(t, f, r);
    }
  }

  /** Exact condition on the pair for the growing branch to stay inside its allocation on every
      text that fills its buffer. */
  lemma FitsIffNoOverlap(f: seq<Byte>, r: seq<Byte>)
    requires 0 < |f| < |r| && NulFree(f) && NulFree(r)
    ensures NoOverlap(f, r) <==> forall t :: NulFree(t) ==> Fits(t, f, r, |t|)
  {
    hide GrowLoop, SubstLeft, SubstRight;
    if NoOverlap(f, r) {
      forall t ensures Fits(t, f, r, |t|) {
        NoOverlapFits(t, f, r, |t|);
      }
    } else {
      var k :| 0 < k < |f| && f[k..] <= r;
      OverlapRematches(f, r, k);
      var t := f[..k] + f;
      assert NulFree(t) && !Fits(t, f, r, |t|);
    }
  }

  /** On one text, with `replace` longer than `find`: the result is the right-to-left substitution
      if and only if the scan is clean, and then it also fits. */
  lemma ReplacedIsSubstRightIff(t: seq<Byte>, f: seq<Byte>, r: seq<Byte>, capacity: nat)
    requires 0 < |f| < |r|
    ensures Replaced(t, f, r) == SubstRight(t, f, r) <==> CleanScan(t, f, r)
    ensures CleanScan(t, f, r) ==> Fits(t, f, r, capacity)
  {
    hide CleanScan, SubstLeft, SubstRight, GrowLoop;
    GrowsCorrectlyIffCleanScan(t, f, r);
    if t == [] {
      EmptyStaysEmpty(f, r);
    }
    SubstLeftLength(t, f, r);
    SubstRightLength(t, f, r);
    CountsAgree(t, f);
  }

  lemma EmptyStaysEmpty(f: seq<Byte>, r: seq<Byte>)
    requires f != []
    ensures SubstRight([], f, r) == [] == GrowLoop([], f, r, -1)
  {}

  /** With a `find` that does not overlap itself and no overlap into `replace`, all three branches
      are the one left-to-right substitution. */
  lemma ReplacedIsSubstLeft(t: seq<Byte>, f: seq<Byte>, r: seq<Byte>)
    requires f != [] && Unbordered(f) && NoOverlap(f, r)
    ensures Replaced(t, f, r) == SubstLeft(t, f, r)
  {
    NoOverlapFits(t, f, r, 0);
    ScansAgree(t, f, r);
  }

  class ArduinoString {
    var buffer: array<Byte>
    var len: nat
    var capacity: nat

    ghost predicate Valid()
      reads this, buffer
    {
      && buffer.Length == capacity + 1
      && len <= capacity
      && buffer[len] == 0
      && NulFree(buffer[..len])
    }

    ghost function Text(): seq<Byte>
      requires Valid()
      reads this, buffer
    {
      buffer[..len]
    }

    /** `String(const char*)`: copy into an exact buffer. */
    constructor (cstr: seq<Byte>)
      requires NulFree(cstr)
      ensures Valid() && fresh(buffer) && Text() == cstr && capacity == |cstr|
    {
      buffer := new Byte[|cstr| + 1](i requires 0 <= i <= |cstr| => if i < |cstr| then cstr[i] else 0);
      len, capacity := |cstr|, |cstr|;
      new;
      assert buffer[..len] == cstr;
    }

    /** `changeBuffer`: a successful `realloc`, which keeps what both blocks can hold. The text
        stays as long as the new block has room for it. */
    method ChangeBuffer(maxStrLen: nat)
      requires Valid()
      modifies this
      ensures fresh(buffer) && buffer.Length == maxStrLen + 1 && capacity == maxStrLen && len == old(len)
      ensures forall i :: 0 <= i <= maxStrLen && i <= old(capacity) ==> buffer[i] == old(buffer[i])
      ensures len <= maxStrLen ==> Valid() && Text() == old(Text())
    {
      var newBuffer := new Byte[maxStrLen + 1](_ => 0);
      var kept := if maxStrLen < capacity then maxStrLen + 1 else capacity + 1;
      CopyIn(newBuffer, 0, buffer[..kept]);
      assert forall i :: 0 <= i < kept ==> newBuffer[i] == buffer[i];
      buffer, capacity := newBuffer, maxStrLen;
      assert len <= maxStrLen ==> buffer[..len] == old(buffer[..len]);
    }

    /** `lastIndexOf(s2, fromIndex)`: repeated forward `strstr`, keeping the last hit. */
    method LastIndexOf(f: seq<Byte>, fromIndex: nat) returns (found: int)
      requires Valid()
      ensures found == if f == [] then -1 else LastUpTo(Text(), f, if fromIndex >= len then len - 1 else fromIndex)
    {
      if |f| == 0 || len == 0 || |f| > len {
        return -1;
      }
      hide StrStr, Terminated, Find, Occurs, NulFree;
      var from := if fromIndex >= len then len - 1 else fromIndex;
      ghost var t := Text();
      found := -1;
      var p := 0;
      while p <= from
        invariant 0 <= p <= len
        invariant -1 <= found < p
        invariant found == -1 || (found <= from && Occurs(t, f, found))
        invariant forall q :: found < q < p ==> q > from || !Occurs(t, f, q)
        decreases len - p
      {
        ReadsText(p);
        var step := StrStr(buffer[..], p, f);
        FindInRest(t, f, p);
        if step < 0 {
          break;
        }
        p := p + step;
        if p <= from {
          found := p;
        }
        p := p + 1;
      }
    }

    /** `replace`: equal length overwrites, shorter compacts forward, longer grows from the right. */
    method Replace(f: seq<Byte>, r: seq<Byte>)
      requires Valid() && NulFree(f) && NulFree(r) && Fits(Text(), f, r, capacity)
      modifies this, buffer
      ensures Valid() && (buffer == old(buffer) || fresh(buffer))
      ensures Text() == Replaced(old(Text()), f, r)
    {
      if len == 0 || |f| == 0 {
        return;
      }
      if |r| == |f| {
        ReplaceEqual(f, r);
      } else if |r| < |f| {
        ReplaceShrinking(f, r);
      } else {
        ReplaceGrowing(f, r);
      }
    }

    method ReplaceEqual(f: seq<Byte>, r: seq<Byte>)
      requires Valid() && NulFree(r) && |r| == |f| > 0
      modifies buffer
      ensures Valid() && Text() == SubstLeft(old(Text()), f, r)
    {
      hide SubstLeft, Find, Write, Compacting, StrStr, Terminated;
      ghost var t := Text();
      var readFrom := 0;
      CompactingStarts(buffer[..], t, f, r);
      CompactingReads(buffer[..], t, f, r, 0, 0);
      var foundAt := StrStr(buffer[..], 0, f);
      while foundAt >= 0
        invariant Compacting(buffer[..], t, f, r, readFrom, readFrom)
        invariant readFrom <= |t| && foundAt == Find(t[readFrom..], f)
        decreases len - readFrom
      {
        ghost var b := buffer[..];
        CompactStep(b, t, f, r, readFrom, readFrom, foundAt);
        WriteBack(b, readFrom, readFrom + foundAt);
        CopyIn(buffer, readFrom + foundAt, r);
        readFrom := readFrom + foundAt + |r|;
        CompactingReads(buffer[..], t, f, r, readFrom, readFrom);
        foundAt := StrStr(buffer[..], readFrom, f);
      }
      CompactingReads(buffer[..], t, f, r, readFrom, readFrom);
      CompactingEnds(buffer[..], t, f, r, readFrom, readFrom);
      WriteBack(buffer[..], readFrom, len + 1);
    }

    /** The two copies of one pass: the text up to the match moves down, the replacement follows. */
    method CompactOnce(f: seq<Byte>, r: seq<Byte>, ghost t: seq<Byte>, readFrom: nat, writeTo: nat, n: nat)
      requires f != [] && |r| <= |f| && NulFree(t) && NulFree(r)
      requires Compacting(buffer[..], t, f, r, readFrom, writeTo) && n == Find(t[readFrom..], f)
      modifies buffer
      ensures readFrom + n + |f| <= |t|
      ensures Compacting(buffer[..], t, f, r, readFrom + n + |f|, writeTo + n + |r|)
    {
      hide SubstLeft, Find, Write, Compacting;
      CompactingReads(buffer[..], t, f, r, readFrom, writeTo);
      CompactStep(buffer[..], t, f, r, readFrom, writeTo, n);
      CopyDown(buffer, writeTo, readFrom, n);
      CopyIn(buffer, writeTo + n, r);
    }

    method ReplaceShrinking(f: seq<Byte>, r: seq<Byte>)
      requires Valid() && NulFree(r) && |r| < |f|
      modifies this`len, buffer
      ensures Valid() && Text() == SubstLeft(old(Text()), f, r)
    {
      hide SubstLeft, Find, Write, Compacting, StrStr, Terminated, Terminator, NulFree;
      ghost var t := Text();
      var readFrom, writeTo: nat := 0, 0;
      CompactingStarts(buffer[..], t, f, r);
      CompactingReads(buffer[..], t, f, r, 0, 0);
      var foundAt := StrStr(buffer[..], 0, f);
      while foundAt >= 0
        invariant Compacting(buffer[..], t, f, r, readFrom, writeTo)
        invariant writeTo <= readFrom <= |t| && len == |t| - (readFrom - writeTo)
        invariant foundAt == Find(t[readFrom..], f)
        decreases |t| - readFrom
      {
        CompactOnce(f, r, t, readFrom, writeTo, foundAt);
        writeTo := writeTo + foundAt + |r|;
        readFrom := readFrom + foundAt + |f|;
        len := len + |r| - |f|;
        CompactingReads(buffer[..], t, f, r, readFrom, writeTo);
        foundAt := StrStr(buffer[..], readFrom, f);
      }
      CompactingReads(buffer[..], t, f, r, readFrom, writeTo);
      CompactingEnds(buffer[..], t, f, r, readFrom, writeTo);
      ghost var b := buffer[..];
      StrCpyDown(buffer, writeTo, readFrom);
      assert buffer[..] == Write(b, writeTo, b[readFrom..|t| + 1]);
    }

    /** `strstr` on an unmodified string searches the rest of its text. */
    lemma ReadsText(from: nat)
      requires Valid() && from <= len
      ensures Terminated(buffer[..], from)
      ensures forall f :: StrStr(buffer[..], from, f) == Find(Text()[from..], f)
    {
      assert buffer[..][from..len] == Text()[from..];
      forall f ensures Terminated(buffer[..], from) && StrStr(buffer[..], from, f) == Find(Text()[from..], f) {
        StrStrIs(buffer[..], from, len, Text()[from..], f);
      }
    }

    /** The counting pass: the size of the text once every match has grown. */
    method GrownSize(f: seq<Byte>, r: seq<Byte>) returns (size: nat)
      requires Valid() && 0 < |f| < |r|
      ensures size == |SubstLeft(Text(), f, r)| && len <= size
      ensures size == len + (|r| - |f|) * CountLeft(Text(), f)
    {
      hide SubstLeft, Find, StrStr, Terminated, NulFree;
      ghost var t := Text();
      size := len;
      var readFrom := 0;
      assert t[0..] == t;
      ReadsText(0);
      var foundAt := StrStr(buffer[..], 0, f);
      while foundAt >= 0
        invariant 0 <= readFrom <= len && size >= len
        invariant size + |SubstLeft(t[readFrom..], f, r)| == |SubstLeft(t, f, r)| + (len - readFrom)
        invariant foundAt == Find(t[readFrom..], f)
        decreases len - readFrom
      {
        SubstLeftGrowth(t, f, r, readFrom, foundAt);
        readFrom := readFrom + foundAt + |f|;
        size := size + |r| - |f|;
        ReadsText(readFrom);
        foundAt := StrStr(buffer[..], readFrom, f);
      }
      NoMatchSame(t[readFrom..], f, r);
      SubstLeftLength(t, f, r);
    }

    method ReplaceGrowing(f: seq<Byte>, r: seq<Byte>)
      requires Valid() && NulFree(f) && NulFree(r) && len > 0 && 0 < |f| < |r| && Fits(Text(), f, r, capacity)
      modifies this, buffer
      ensures Valid() && (buffer == old(buffer) || fresh(buffer))
      ensures Text() == GrowLoop(old(Text()), f, r, old(len) - 1)
      ensures old(capacity) <= capacity
      ensures capacity == old(capacity) || capacity == |SubstLeft(old(Text()), f, r)|
    {
      hide GrowLoop, SubstLeft, LastUpTo, Occurs, NulFree, CountLeft;
      ghost var result := GrowLoop(Text(), f, r, len - 1);
      var size := GrownSize(f, r);
      if size == len {
        NoMatchNoGrowth(Text(), f, r);
        return;
      }
      if size > capacity {
        ChangeBuffer(size);
      }
      var index := len - 1;
      while index >= 0
        invariant Valid() && |result| <= capacity && size <= capacity && -1 <= index < len
        invariant buffer == old(buffer) || fresh(buffer)
        invariant capacity == if size <= old(capacity) then old(capacity) else size
        invariant GrowLoop(Text(), f, r, index) == result
        decreases index + 1
      {
        ghost var cursor, t := index, Text();
        index := LastIndexOf(f, index);
        if index < 0 {
          GrowLoopStops(t, f, r, cursor);
          break;
        }
        GrowLoopStep(t, f, r, cursor);
        GrowLoopNeverShrinks(t[..index] + r + t[index + |f|..], f, r, index - 1);
        GrowOnce(f, r, index);
        index := index - 1;
      }
      if index < 0 {
        GrowLoopStops(Text(), f, r, index);
      }
    }

    /** One pass of the rewriting loop, once a match has been found at `index`. */
    method GrowOnce(f: seq<Byte>, r: seq<Byte>, index: nat)
      requires Valid() && NulFree(r) && 0 < |f| < |r| && Occurs(Text(), f, index)
      requires len + |r| - |f| <= capacity
      modifies this`len, buffer
      ensures Valid() && len == old(len) + |r| - |f|
      ensures Text() == old(Text())[..index] + r + old(Text())[index + |f|..]
    {
      hide Write, Occurs;
      MatchInside(Text(), f, index);
      var diff := |r| - |f|;
      var readFrom := index + |f|;
      ghost var t, b := Text(), buffer[..];
      MoveUp(buffer, readFrom + diff, readFrom, len - readFrom);
      len := len + diff;
      buffer[len] := 0;
      CopyIn(buffer, index, r);
      GrownBytes(b, t, index, |f|, r);
    }
  }

  /** The first match of the rest of a text is its first match from there on. */
  lemma FindInRest(t: seq<Byte>, f: seq<Byte>, p: nat)
    requires p <= |t| && f != []
    ensures var step := Find(t[p..], f);
            if step < 0 then step == -1 && forall q :: p <= q ==> !Occurs(t, f, q)
            else p + step < |t| && Occurs(t, f, p + step) && forall q :: p <= q < p + step ==> !Occurs(t, f, q)
  {
    hide Find;
    MatchesOfSlice(t, f, p, |t|);
    assert t[p..|t|] == t[p..];
    var step := Find(t[p..], f);
    if step >= 0 {
      MatchInside(t[p..], f, step);
    }
    forall q | p <= q && (step < 0 || q < p + step) ensures !Occurs(t, f, q) {
      OccursInSlice(t, f, p, |t|, q - p);
    }
  }

  lemma MatchInside(t: seq<Byte>, f: seq<Byte>, p: int)
    requires Occurs(t, f, p)
    ensures 0 <= p && p + |f| <= |t|
  {}

  /** The bytes after one growth: head, replacement, shifted tail, terminator. */
  lemma GrownBytes(b: seq<Byte>, t: seq<Byte>, index: nat, m: nat, r: seq<Byte>)
    requires index + m <= |t| && m < |r| && |t| + |r| - m < |b| && b[..|t|] == t && NulFree(t) && NulFree(r)
    ensures var n, e := |t| + |r| - m, index + m;
            var moved := Write(b, e + |r| - m, b[e..|t|]);
            var done := Write(moved[n := 0], index, r);
            done[..n] == t[..index] + r + t[e..] && done[n] == 0 && NulFree(done[..n])
  {
    hide Write, NulFree;
    assert forall i :: 0 <= i < |t| ==> b[i] == b[..|t|][i];
    NulFreeJoin(r, t, index + m);
    NulFreeSplice(t, r, index, m);
  }

  lemma NulFreeSplice(t: seq<Byte>, r: seq<Byte>, index: nat, m: nat)
    requires index + m <= |t| && NulFree(t) && NulFree(r)
    ensures NulFree(t[..index] + r + t[index + m..])
  {}

  lemma SubstLeftGrowth(t: seq<Byte>, f: seq<Byte>, r: seq<Byte>, readFrom: nat, p: int)
    requires f != [] && readFrom <= |t| && p == Find(t[readFrom..], f) >= 0
    ensures readFrom + p + |f| <= |t|
    ensures |SubstLeft(t[readFrom..], f, r)| == p + |r| + |SubstLeft(t[readFrom + p + |f|..], f, r)|
  {
    hide Find;
    assert t[readFrom..][p + |f|..] == t[readFrom + p + |f|..];
  }

  lemma NoMatchSame(t: seq<Byte>, f: seq<Byte>, r: seq<Byte>)
    requires f != [] && Find(t, f) < 0
    ensures SubstLeft(t, f, r) == t
  {}

  lemma GrowLoopStops(t: seq<Byte>, f: seq<Byte>, r: seq<Byte>, index: int)
    requires f != [] && (index < 0 || LastUpTo(t, f, index) < 0)
    ensures GrowLoop(t, f, r, index) == t
  {}

  lemma NoMatchNoGrowth(t: seq<Byte>, f: seq<Byte>, r: seq<Byte>)
    requires 0 < |f| < |r| && |SubstLeft(t, f, r)| == |t|
    ensures GrowLoop(t, f, r, |t| - 1) == t
  {
    hide SubstLeft, Find, LastUpTo;
    SubstLeftLength(t, f, r);
    if Find(t, f) >= 0 {
      CountsFirst(t, f);
      MulSucc(|r| - |f|, CountLeft(t, f) - 1);
    }
  }

  lemma CountsFirst(t: seq<Byte>, f: seq<Byte>)
    requires f != [] && Find(t, f) >= 0
    ensures CountLeft(t, f) >= 1
  {}
}

/** cores/arduino/Stream.cpp: `findUntil`, a one-state-per-character search with no fallback
    table. The stream is the bytes that arrive in time; past them `timedRead` times out. */
module StreamSearch {
  import opened Bytes
  import opened Matching

  datatype Result = Result(found: bool, consumed: nat)

  /** The match index after one more byte: on a mismatch only the first character is tried. */
  function NextIndex(target: seq<Byte>, index: nat, c: Byte): nat
    requires index < |target|
  {
    if c == target[index] then index + 1 else if c == target[0] then 1 else 0
  }

  /** The terminator index after one more byte: on a mismatch nothing is tried. */
  function NextTermIndex(term: seq<Byte>, index: nat, c: Byte): nat
    requires index < |term| || term == []
  {
    if term != [] && c == term[index] then index + 1 else 0
  }

  /** The rest of the search from position `pos` of stream `s`. */
  function Scan(s: seq<Byte>, pos: nat, target: seq<Byte>, index: nat, term: seq<Byte>, termIndex: nat): Result
    requires pos <= |s| && index < |target| && (termIndex < |term| || term == [])
    decreases |s| - pos
  {
    if pos == |s| then Result(false, pos)
    else if s[pos] == 0 then Result(false, pos + 1)
    else
      var i, t := NextIndex(target, index, s[pos]), NextTermIndex(term, termIndex, s[pos]);
      if i == |target| then Result(true, pos + 1)
      else if t == |term| && term != [] then Result(false, pos + 1)
      else Scan(s, pos + 1, target, i, term, t)
  }

  function Search(s: seq<Byte>, target: seq<Byte>, term: seq<Byte>): Result {
    if target == [] || target[0] == 0 then Result(true, 0) else Scan(s, 0, target, 0, term, 0)
  }

  class Stream {
    var input: seq<Byte>

    constructor (bytes: seq<Byte>)
      ensures input == bytes
    {
      input := bytes;
    }

    /** `timedRead`: the next byte, or -1 on timeout. */
    method TimedRead() returns (c: int)
      modifies this
      ensures if old(input) == [] then c == -1 && input == []
              else c == old(input)[0] && input == old(input)[1..]
    {
      if input == [] {
        return -1;
      }
      c := input[0];
      input := input[1..];
    }

    /** `timedPeek`. */
    method TimedPeek() returns (c: int)
      ensures c == if input == [] then -1 else input[0]
    {
      c := if input == [] then -1 else input[0];
    }

    method FindUntil(target: seq<Byte>, terminator: seq<Byte>) returns (found: bool)
      modifies this
      ensures var r := Search(old(input), target, terminator);
              r.consumed <= |old(input)| && found == r.found && input == old(input)[r.consumed..]
    {
      ghost var s := input;
      if target == [] || target[0] == 0 {
        return true;
      }
      var index, termIndex := 0, 0;
      ghost var pos := 0;
      var c := TimedRead();
      while c > 0
        invariant 0 <= pos <= |s| && 0 <= index < |target|
        invariant 0 <= termIndex && (termIndex < |terminator| || terminator == [])
        invariant if pos == |s| then c == -1 && input == [] else c == s[pos] && input == s[pos + 1..]
        invariant Scan(s, pos, target, index, terminator, termIndex) == Search(s, target, terminator)
        decreases |s| - pos
      {
        if c != target[index] {
          index := 0;
        }
        if c == target[index] {
          index := index + 1;
          if index >= |target| {
            return true;
          }
        }
        if |terminator| > 0 && c == terminator[termIndex] {
          termIndex := termIndex + 1;
          if termIndex >= |terminator| {
            return false;
          }
        } else {
          termIndex := 0;
        }
        pos := pos + 1;
        c := TimedRead();
      }
      return false;
    }
  }

  // ---- Soundness --------------------------------------------------------------------------

  /** The first `j` bytes of `p` are the last `j` bytes before position `pos`. */
  ghost predicate Trailing(s: seq<Byte>, pos: nat, p: seq<Byte>, j: nat) {
    j <= |p| && j <= pos <= |s| && forall x :: 0 <= x < j ==> p[x] == s[pos - j + x]
  }

  lemma {:induction false} ScanSound(s: seq<Byte>, pos: nat, target: seq<Byte>, index: nat,
                                     term: seq<Byte>, termIndex: nat)
    requires pos <= |s| && index < |target| && (termIndex < |term| || term == [])
    requires Trailing(s, pos, target, index) && (term != [] ==> Trailing(s, pos, term, termIndex))
    ensures var r := Scan(s, pos, target, index, term, termIndex);
            && pos <= r.consumed <= |s|
            && (r.found ==> Trailing(s, r.consumed, target, |target|))
            && (!r.found ==> r.consumed == |s| || (r.consumed > 0 && s[r.consumed - 1] == 0)
                             || (term != [] && Trailing(s, r.consumed, term, |term|)))
    decreases |s| - pos
  {
    if pos < |s| && s[pos] != 0 {
      var i, t := NextIndex(target, index, s[pos]), NextTermIndex(term, termIndex, s[pos]);
      assert Trailing(s, pos + 1, target, i);
      assert term != [] ==> Trailing(s, pos + 1, term, t);
      if i < |target| && !(t == |term| && term != []) {
        ScanSound(s, pos + 1, target, i, term, t);
      }
    }
  }

  /** `true` means the bytes read end with the target; `false` means the stream timed out, a NUL
      was read, or the bytes read end with the terminator. */
  lemma FindUntilSound(s: seq<Byte>, target: seq<Byte>, term: seq<Byte>)
    requires target != [] && target[0] != 0
    ensures var r := Search(s, target, term);
            && r.consumed <= |s|
            && (r.found ==> Trailing(s, r.consumed, target, |target|))
            && (!r.found ==> r.consumed == |s| || (r.consumed > 0 && s[r.consumed - 1] == 0)
                             || (term != [] && Trailing(s, r.consumed, term, |term|)))
  {
    NothingTrails(s, 0, target);
    NothingTrails(s, 0, term);
    ScanSound(s, 0, target, 0, term, 0);
  }

  /** An empty target is found at once, whatever the terminator. */
  lemma EmptyTargetIsFound(s: seq<Byte>, target: seq<Byte>, term: seq<Byte>)
    requires target != [] ==> target[0] == 0
    ensures Search(s, target, term) == Result(true, 0)
  {}

  // ---- Completeness -----------------------------------------------------------------------

  /** Whenever a proper prefix of the target also ends a longer prefix, both go on with the same
      character, so that falling back to it could never help. */
  ghost predicate NeedsNoFallback(target: seq<Byte>) {
    forall k, i :: Border(target, k, i) ==> target[k] == target[i]
  }

  /** The prefix of length `k` also ends the prefix of length `i`. */
  ghost predicate Border(target: seq<Byte>, k: int, i: int) {
    0 < k < i < |target| && target[..k] == target[i - k..i]
  }

  /** `index` is the longest match that ends at `pos`. */
  ghost predicate Longest(s: seq<Byte>, pos: nat, target: seq<Byte>, index: nat) {
    Trailing(s, pos, target, index) && forall j :: index < j <= |target| ==> !Trailing(s, pos, target, j)
  }

  lemma ShorterMatch(s: seq<Byte>, pos: nat, target: seq<Byte>, i: nat, j: nat)
    requires Trailing(s, pos, target, i) && Trailing(s, pos, target, j) && j < i
    ensures 0 < j && i < |target| ==> Border(target, j, i)
  {
    forall x | 0 <= x < j ensures target[x] == target[i - j..i][x] {
      assert target[i - j + x] == s[pos - i + (i - j + x)];
    }
  }

  lemma TrailingStep(s: seq<Byte>, pos: nat, target: seq<Byte>, j: nat)
    requires pos < |s| && j < |target|
    ensures Trailing(s, pos + 1, target, j + 1) <==> Trailing(s, pos, target, j) && target[j] == s[pos]
  {
    if Trailing(s, pos + 1, target, j + 1) {
      assert target[j] == s[pos + 1 - (j + 1) + j];
      forall x | 0 <= x < j ensures target[x] == s[pos - j + x] {
        assert target[x] == s[pos + 1 - (j + 1) + x];
      }
    }
  }

  lemma LongestStep(s: seq<Byte>, pos: nat, target: seq<Byte>, index: nat)
    requires NeedsNoFallback(target) && index < |target| && pos < |s| && Longest(s, pos, target, index)
    ensures Longest(s, pos + 1, target, NextIndex(target, index, s[pos]))
  {
    hide Trailing;
    var c, n := s[pos], NextIndex(target, index, s[pos]);
    forall j | 0 <= j < |target|
      ensures Trailing(s, pos + 1, target, j + 1) <==> Trailing(s, pos, target, j) && target[j] == c
    {
      TrailingStep(s, pos, target, j);
    }
    forall j: nat | n <= j < |target| ensures !(Trailing(s, pos, target, j) && target[j] == c) {
      if Trailing(s, pos, target, j) && 0 < j < index {
        ShorterMatch(s, pos, target, index, j);
      }
    }
    var pos' := pos + 1;
    forall j: nat | n < j <= |target| ensures !Trailing(s, pos', target, j) {
      TrailingStep(s, pos, target, j - 1);
      assert (j - 1) + 1 == j;
    }
    assert Trailing(s, pos + 1, target, n) by {
      if n == 0 { NothingTrails(s, pos + 1, target); }
      if n == 1 { NothingTrails(s, pos, target); }
    }
  }

  lemma NothingTrails(s: seq<Byte>, pos: nat, target: seq<Byte>)
    requires pos <= |s|
    ensures Trailing(s, pos, target, 0)
  {}

  lemma TrailingIsOccurrence(s: seq<Byte>, pos: nat, target: seq<Byte>)
    ensures Trailing(s, pos, target, |target|) <==> pos <= |s| && Occurs(s, target, pos - |target|)
  {}

  /** A terminator of one repeated character, or none at all. */
  ghost predicate Uniform(term: seq<Byte>) {
    forall x :: 0 <= x < |term| ==> term[x] == term[0]
  }

  lemma UniformNeedsNoFallback(term: seq<Byte>)
    requires Uniform(term)
    ensures NeedsNoFallback(term)
  {}

  /** The terminator index, which tries nothing on a mismatch, is still the longest match. */
  lemma TermLongestStep(s: seq<Byte>, pos: nat, term: seq<Byte>, termIndex: nat)
    requires Uniform(term) && termIndex < |term| && pos < |s| && Longest(s, pos, term, termIndex)
    ensures Longest(s, pos + 1, term, NextTermIndex(term, termIndex, s[pos]))
  {
    UniformNeedsNoFallback(term);
    hide Longest, NeedsNoFallback;
    LongestStep(s, pos, term, termIndex);
    assert term[termIndex] == term[0];
  }

  /** No occurrence of `f` ends at or before `pos`. */
  ghost predicate NoneBy(s: seq<Byte>, f: seq<Byte>, pos: nat) {
    forall q :: 0 <= q && q + |f| <= pos ==> !Occurs(s, f, q)
  }

  lemma NoneByStep(s: seq<Byte>, f: seq<Byte>, pos: nat, i: nat)
    requires f != [] && pos < |s| && NoneBy(s, f, pos) && Longest(s, pos + 1, f, i)
    ensures i < |f| ==> NoneBy(s, f, pos + 1)
    ensures i == |f| ==> 0 <= Find(s, f) == pos + 1 - |f|
  {
    hide Occurs, Longest;
    TrailingIsOccurrence(s, pos + 1, f);
    LongestMeans(s, pos + 1, f, i);
    if i == |f| {
      FindIs(s, f, pos + 1 - |f|);
    }
  }

  /** What a search should return: everything through whichever ends first, the first occurrence
      of the target or of the terminator, or everything. */
  function FirstOf(s: seq<Byte>, target: seq<Byte>, term: seq<Byte>): Result {
    var p, q := Find(s, target), if term == [] then -1 else Find(s, term);
    if p >= 0 && (q < 0 || p + |target| <= q + |term|) then Result(true, p + |target|)
    else if q >= 0 then Result(false, q + |term|)
    else Result(false, |s|)
  }

  lemma NotFoundBy(s: seq<Byte>, f: seq<Byte>, pos: nat)
    requires NoneBy(s, f, pos)
    ensures Find(s, f) == -1 || pos < Find(s, f) + |f|
    ensures pos == |s| ==> Find(s, f) == -1
  {}

  /** For such a target and such a terminator the scan stops at the first of them. */
  lemma {:induction false} ScanComplete(s: seq<Byte>, pos: nat, target: seq<Byte>, index: nat,
                                        term: seq<Byte>, termIndex: nat)
    requires pos <= |s| && NulFree(s) && index < |target| && (termIndex < |term| || term == [])
    requires NeedsNoFallback(target) && Longest(s, pos, target, index) && NoneBy(s, target, pos)
    requires term != [] ==> Uniform(term) && Longest(s, pos, term, termIndex) && NoneBy(s, term, pos)
    ensures Scan(s, pos, target, index, term, termIndex) == FirstOf(s, target, term)
    decreases |s| - pos
  {
    hide Find, Longest, NeedsNoFallback, Uniform, NoneBy;
    NotFoundBy(s, target, pos);
    if term != [] {
      NotFoundBy(s, term, pos);
    }
    if pos < |s| {
      var i, t := NextIndex(target, index, s[pos]), NextTermIndex(term, termIndex, s[pos]);
      LongestStep(s, pos, target, index);
      NoneByStep(s, target, pos, i);
      if i < |target| {
        NotFoundBy(s, target, pos + 1);
        if term != [] {
          TermLongestStep(s, pos, term, termIndex);
          NoneByStep(s, term, pos, t);
        }
        if t < |term| || term == [] {
          ScanComplete(s, pos + 1, target, i, term, t);
        }
      }
    }
  }

  lemma LongestMeans(s: seq<Byte>, pos: nat, target: seq<Byte>, i: nat)
    requires Longest(s, pos, target, i)
    ensures i <= |target| && (Trailing(s, pos, target, |target|) <==> i == |target|)
  {}

  /** From index `index`, fewer bytes than are missing cannot complete the target. */
  lemma {:induction false} TooShort(s: seq<Byte>, pos: nat, target: seq<Byte>, index: nat)
    requires pos <= |s| && index < |target| && |s| - pos < |target| - index && (index == 0 ==> |target| > 1)
    requires |s| - pos < |target| - 1
    ensures !Scan(s, pos, target, index, [], 0).found
    decreases |s| - pos
  {
    if pos < |s| && s[pos] != 0 {
      TooShort(s, pos + 1, target, NextIndex(target, index, s[pos]));
    }
  }

  /** Reading a prefix of the target from the start advances the index byte by byte. */
  lemma {:induction false} PrefixAdvances(s: seq<Byte>, target: seq<Byte>, i: nat, j: nat)
    requires j <= i < |target| && i <= |s| && s[..i] == target[..i] && NulFree(s)
    ensures Scan(s, 0, target, 0, [], 0) == Scan(s, j, target, j, [], 0)
  {
    if j > 0 {
      PrefixAdvances(s, target, i, j - 1);
      assert s[j - 1] == s[..i][j - 1] == target[..i][j - 1];
    }
  }

  /** Otherwise the target can hide behind its own beginning: the stream made of the longer
      prefix without the repeated part, then the target, is searched in vain. */
  lemma FallbackMissed(target: seq<Byte>, k: nat, i: nat)
    requires NulFree(target) && Border(target, k, i) && target[k] != target[i]
    ensures var s := target[..i - k] + target;
            && NulFree(s) && Occurs(s, target, i - k)
            && !Search(s, target, []).found
  {
    var s := target[..i - k] + target;
    SharedStart(target, k, i);
    PrefixAdvances(s, target, i, i);
    assert s[i] == target[k];
    TooShort(s, i + 1, target, NextIndex(target, i, s[i]));
  }

  lemma SharedStart(target: seq<Byte>, k: nat, i: nat)
    requires Border(target, k, i)
    ensures (target[..i - k] + target)[..i] == target[..i]
  {
    forall x | i - k <= x < i ensures target[x - (i - k)] == target[x] {
      assert target[x] == target[i - k..i][x - (i - k)] == target[..k][x - (i - k)];
    }
  }

  lemma SearchComplete(s: seq<Byte>, target: seq<Byte>, term: seq<Byte>)
    requires target != [] && target[0] != 0 && NulFree(s) && NeedsNoFallback(target) && Uniform(term)
    ensures Search(s, target, term) == FirstOf(s, target, term)
  {
    hide Scan, FirstOf;
    assert Longest(s, 0, target, 0);
    assert term != [] ==> Longest(s, 0, term, 0);
    assert NoneBy(s, target, 0) && (term != [] ==> NoneBy(s, term, 0));
    ScanComplete(s, 0, target, 0, term, 0);
  }

  lemma OccurrenceIsMatch(s: seq<Byte>, target: seq<Byte>, p: nat)
    requires Occurs(s, target, p)
    ensures FirstOf(s, target, []).found
  {}

  /** Exact condition on the target: `find` gets every stream right -- true with everything
      consumed through the first occurrence, false after the whole stream -- if and only if the
      target needs no fallback. */
  lemma FindCompleteIff(target: seq<Byte>)
    requires target != [] && NulFree(target)
    ensures NeedsNoFallback(target) <==> forall s :: NulFree(s) ==> Search(s, target, []) == FirstOf(s, target, [])
  {
    hide Search, FirstOf, NeedsNoFallback;
    if NeedsNoFallback(target) {
      forall s | NulFree(s) ensures Search(s, target, []) == FirstOf(s, target, []) {
        SearchComplete(s, target, []);
      }
    } else {
      var s := MissedStream(target);
    }
  }

  lemma FallbackNeeded(target: seq<Byte>) returns (k: nat, i: nat)
    requires !NeedsNoFallback(target)
    ensures Border(target, k, i) && k < i < |target| && target[k] != target[i]
  {
    k, i :| Border(target, k, i) && target[k] != target[i];
  }

  lemma MissedStream(target: seq<Byte>) returns (s: seq<Byte>)
    requires NulFree(target) && !NeedsNoFallback(target)
    ensures NulFree(s) && Search(s, target, []) != FirstOf(s, target, [])
  {
    hide Search, FirstOf, Occurs, NeedsNoFallback, Border;
    var k, i := FallbackNeeded(target);
    FallbackMissed(target, k, i);
    s := target[..i - k] + target;
    OccurrenceIsMatch(s, target, i - k);
  }

  // ---- The terminator -------------------------------------------------------------------------

  /** Wherever the terminator occurs, the search has ended by its last byte. */
  ghost predicate Honours(s: seq<Byte>, target: seq<Byte>, term: seq<Byte>) {
    forall q :: Occurs(s, term, q) ==> Search(s, target, term).consumed <= q + |term|
  }

  lemma {:induction false} ScanHonours(s: seq<Byte>, pos: nat, target: seq<Byte>, index: nat,
                                       term: seq<Byte>, termIndex: nat, q: nat)
    requires pos <= |s| && NulFree(s) && index < |target| && termIndex < |term|
    requires Uniform(term) && Longest(s, pos, term, termIndex) && Occurs(s, term, q) && pos < q + |term|
    ensures Scan(s, pos, target, index, term, termIndex).consumed <= q + |term|
    decreases |s| - pos
  {
    hide Longest, Uniform, Occurs;
    assert q + |term| <= |s| by { TrailingIsOccurrence(s, q + |term|, term); EndsInside(s, term, q); }
    var i, t := NextIndex(target, index, s[pos]), NextTermIndex(term, termIndex, s[pos]);
    TermLongestStep(s, pos, term, termIndex);
    LongestMeans(s, pos + 1, term, t);
    TrailingIsOccurrence(s, pos + 1, term);
    if i < |target| && t < |term| {
      assert pos + 1 != q + |term|;
      ScanHonours(s, pos + 1, target, i, term, t, q);
    }
  }

  lemma EndsInside(s: seq<Byte>, f: seq<Byte>, q: int)
    requires Occurs(s, f, q)
    ensures 0 <= q && q + |f| <= |s|
  {}

  /** From here on neither the target nor the terminator can be completed. */
  lemma {:induction false} NothingCompletes(s: seq<Byte>, pos: nat, target: seq<Byte>, index: nat,
                                            term: seq<Byte>, termIndex: nat)
    requires pos <= |s| && NulFree(s) && index < |target| && termIndex < |term|
    requires |s| - pos < |target| - index && |s| - pos < |term| - termIndex
    ensures Scan(s, pos, target, index, term, termIndex) == Result(false, |s|)
    decreases |s| - pos
  {
    if pos < |s| {
      NothingCompletes(s, pos + 1, target, NextIndex(target, index, s[pos]),
                       term, NextTermIndex(term, termIndex, s[pos]));
    }
  }

  /** While only `c` is read, both indices advance. */
  lemma {:induction false} RunUp(s: seq<Byte>, target: seq<Byte>, term: seq<Byte>, c: Byte, i: nat)
    requires NulFree(s) && i < |s| && i < |term| && i < |target|
    requires forall x :: 0 <= x < i ==> s[x] == c && term[x] == c && target[x] == c
    ensures Scan(s, 0, target, 0, term, 0) == Scan(s, i, target, i, term, i)
  {
    if i > 0 {
      RunUp(s, target, term, c, i - 1);
    }
  }

  /** A stream that holds the terminator from its second byte on and is read to the end. */
  function Hiding(term: seq<Byte>): seq<Byte>
    requires term != []
  {
    [term[0]] + term + [term[0]]
  }

  function Repeated(c: Byte, n: nat): (r: seq<Byte>)
    ensures |r| == n && forall x :: 0 <= x < n ==> r[x] == c
  {
    seq(n, _ => c)
  }

  /** The first character that differs from the first. */
  lemma FirstOther(term: seq<Byte>) returns (i: nat)
    requires !Uniform(term)
    ensures 0 < i < |term| && term[i] != term[0] && forall x :: 0 <= x < i ==> term[x] == term[0]
  {
    i := 1;
    while term[i] == term[0]
      invariant 0 < i < |term| && forall x :: 0 <= x < i ==> term[x] == term[0]
      decreases |term| - i
    {
      if i + 1 == |term| {
        assert Uniform(term);
      }
      i := i + 1;
    }
  }

  /** One character too many in front, and the terminator is not seen. */
  lemma TerminatorMissed(term: seq<Byte>)
    requires NulFree(term) && !Uniform(term)
    ensures var s := Hiding(term);
            && NulFree(s) && Occurs(s, term, 1)
            && Search(s, Repeated(term[0], |s| + 1), term) == Result(false, |s|)
  {
    var s, c := Hiding(term), term[0];
    var target := Repeated(c, |s| + 1);
    var i := FirstOther(term);
    assert s[0] == c && forall x :: 0 <= x < |term| ==> s[x + 1] == term[x];
    forall x | 0 <= x <= i ensures s[x] == c {
      assert x > 0 ==> s[x] == term[x - 1];
    }
    RunUp(s, target, term, c, i);
    assert s[i] == c && s[i + 1] == term[i];
    assert Scan(s, i, target, i, term, i) == Scan(s, i + 1, target, i + 1, term, 0);
    assert Scan(s, i + 1, target, i + 1, term, 0) == Scan(s, i + 2, target, 0, term, 0);
    NothingCompletes(s, i + 2, target, 0, term, 0);
  }

  lemma SearchHonours(s: seq<Byte>, target: seq<Byte>, term: seq<Byte>)
    requires term != [] && Uniform(term) && NulFree(s)
    ensures Honours(s, target, term)
  {
    hide Occurs, Scan;
    forall q | Occurs(s, term, q) ensures Search(s, target, term).consumed <= q + |term| {
      EndsInside(s, term, q);
      if target != [] && target[0] != 0 {
        assert Longest(s, 0, term, 0);
        ScanHonours(s, 0, target, 0, term, 0, q);
      }
    }
  }

  /** Exact condition on the terminator: no search reads past it, whatever the target, if and only
      if it repeats one character. */
  lemma TerminatorHonouredIff(term: seq<Byte>)
    requires term != [] && NulFree(term)
    ensures Uniform(term) <==> forall s, target :: NulFree(s) && NulFree(target) ==> Honours(s, target, term)
  {
    hide Search, Uniform, Hiding, Occurs;
    if Uniform(term) {
      forall s, target | NulFree(s) && NulFree(target) ensures Honours(s, target, term) {
        SearchHonours(s, target, term);
      }
    } else {
      TerminatorMissed(term);
      var s := Hiding(term);
      var target := Repeated(term[0], |s| + 1);
      assert |s| == |term| + 2 by { HidingLength(term); }
      assert NulFree(target) && !Honours(s, target, term);
    }
  }

  lemma HidingLength(term: seq<Byte>)
    requires term != []
    ensures |Hiding(term)| == |term| + 2
  {}

  /** Exact conditions for `findUntil` to stop at the first of target and terminator. A target works
      on every stream with every uniform terminator if and only if it needs no fallback; a
      terminator works on every stream with every such target if and only if it is uniform. */
  lemma FindUntilCompleteIff(target: seq<Byte>, term: seq<Byte>)
    requires target != [] && NulFree(target) && NulFree(term)
    ensures NeedsNoFallback(target) <==>
            forall s, other :: NulFree(s) && Uniform(other) ==> Search(s, target, other) == FirstOf(s, target, other)
    ensures Uniform(term) <==>
            forall s, other :: NulFree(s) && other != [] && NulFree(other) && NeedsNoFallback(other) ==>
              Search(s, other, term) == FirstOf(s, other, term)
  {
    hide Search, FirstOf, Uniform, NeedsNoFallback;
    forall s, t, u | NulFree(s) && t != [] && NulFree(t) && NeedsNoFallback(t) && Uniform(u)
      ensures Search(s, t, u) == FirstOf(s, t, u)
    {
      SearchComplete(s, t, u);
    }
    if !NeedsNoFallback(target) {
      var s := MissedStream(target);
      assert Uniform([]) by { NoneIsUniform(); }
    }
    if !Uniform(term) {
      var s, other := UnseenTerminator(term);
    }
  }

  lemma NoneIsUniform()
    ensures Uniform([])
  {}

  lemma UnseenTerminator(term: seq<Byte>) returns (s: seq<Byte>, target: seq<Byte>)
    requires NulFree(term) && !Uniform(term)
    ensures NulFree(s) && target != [] && NulFree(target) && NeedsNoFallback(target)
    ensures Search(s, target, term) != FirstOf(s, target, term)
  {
    hide Search, Hiding;
    assert term != [] by { NoneIsUniform(); }
    TerminatorMissed(term);
    HidingLength(term);
    s := Hiding(term);
    target := Repeated(term[0], |s| + 1);
    UniformNeedsNoFallback(target);
    StopsAtTerminator(s, target, term, 1);
  }

  lemma StopsAtTerminator(s: seq<Byte>, target: seq<Byte>, term: seq<Byte>, q: nat)
    requires term != [] && Occurs(s, term, q) && |target| > |s|
    ensures FirstOf(s, target, term).consumed <= q + |term|
  {}

  /** "aabx" holds the terminator "ab", and the search for "x" reads on behind it. */
  lemma TerminatorCounterexample()
    ensures var s, target, term: seq<Byte> := [97, 97, 98, 120], [120], [97, 98];
            && Search(s, target, term) == Result(true, 4)
            && Occurs(s, term, 1) && NeedsNoFallback(target) && FirstOf(s, target, term) == Result(false, 3)
  {
    var s, target, term: seq<Byte> := [97, 97, 98, 120], [120], [97, 98];
    assert Scan(s, 2, target, 0, term, 0) == Scan(s, 3, target, 0, term, 0) == Result(true, 4);
    assert Scan(s, 0, target, 0, term, 0) == Scan(s, 1, target, 0, term, 1) == Scan(s, 2, target, 0, term, 0);
    FindIs(s, term, 1);
    FindIs(s, target, 3);
  }

  /** In particular for a target whose first character does not recur. */
  lemma UniqueFirstCharacterIsEnough(target: seq<Byte>)
    requires forall x :: 0 < x < |target| ==> target[x] != target[0]
    ensures NeedsNoFallback(target)
  {
    forall k, i ensures !Border(target, k, i) {
      if 0 < k < i < |target| {
        assert target[..k][0] != target[i - k..i][0];
      }
    }
  }

  /** "aab" is not found in "aaab". */
  lemma FallbackCounterexample()
    ensures !Search([97, 97, 97, 98], [97, 97, 98], []).found && Occurs([97, 97, 97, 98], [97, 97, 98], 1)
  {
    var target: seq<Byte> := [97, 97, 98];
    FallbackMissed(target, 1, 2);
    assert target[..1] + target == [97, 97, 97, 98];
  }
}

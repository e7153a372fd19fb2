/** `findUntil` of cores/arduino/Stream.cpp, explained stream by stream: the loop that reads byte by
    byte is a search that goes from one attempted match to the next. */
module StreamAttempts {
  import opened Bytes
  import opened Matching
  import opened StreamSearch

  /** How many bytes of `f` follow position `a`, when `n` are known to. */
  function Agreeing(s: seq<Byte>, a: nat, f: seq<Byte>, n: nat): (l: nat)
    requires n <= |f| && a + n <= |s|
    ensures n <= l <= |f| && a + l <= |s|
    ensures forall x :: n <= x < l ==> s[a + x] == f[x]
    ensures l < |f| && a + l < |s| ==> s[a + l] != f[l]
    decreases |f| - n
  {
    if n == |f| || a + n == |s| || s[a + n] != f[n] then n else Agreeing(s, a, f, n + 1)
  }

  /** Where the first attempt at or after `a` succeeds, or -1. An attempt that fails is given up as a
      whole; the byte that broke it may begin the next attempt, unless it is dropped. */
  function Hit(s: seq<Byte>, f: seq<Byte>, a: nat, drop: bool): (p: int)
    requires f != [] && a <= |s|
    ensures p == -1 || (a <= p && Occurs(s, f, p))
    decreases |s| - a
  {
    if a == |s| then -1
    else
      var l := Agreeing(s, a, f, 0);
      if l == |f| then a
      else if a + l == |s| then -1
      else if l == 0 || drop then Hit(s, f, a + l + 1, drop)
      else Hit(s, f, a + l, drop)
  }

  /** The search, attempt by attempt, in the part of the stream before the first NUL. */
  function ByAttempts(s: seq<Byte>, target: seq<Byte>, term: seq<Byte>): Result
    requires target != []
  {
    var u := UpToNul(s);
    Ending(s, u, target, term, Hit(u, target, 0, false), if term == [] then -1 else Hit(u, term, 0, true))
  }

  /** The result when target and terminator are first hit at `p` and `q`: whichever ends first, or
      the end of what can be read, a NUL included. */
  function Ending(s: seq<Byte>, u: seq<Byte>, target: seq<Byte>, term: seq<Byte>, p: int, q: int): Result {
    if p >= 0 && (q < 0 || p + |target| <= q + |term|) then Result(true, p + |target|)
    else if q >= 0 then Result(false, q + |term|)
    else Result(false, if |u| < |s| then |u| + 1 else |s|)
  }

  // ---- One byte -----------------------------------------------------------------------------------

  lemma AgreeingIs(s: seq<Byte>, a: nat, f: seq<Byte>, l: nat)
    requires l <= |f| && a + l <= |s| && forall x :: 0 <= x < l ==> s[a + x] == f[x]
    requires l < |f| && a + l < |s| ==> s[a + l] != f[l]
    ensures Agreeing(s, a, f, 0) == l
  {
    var m := Agreeing(s, a, f, 0);
  }

  /** An attempt that began at `a` has agreed for `index` bytes. */
  ghost predicate Begun(s: seq<Byte>, a: nat, f: seq<Byte>, index: nat) {
    a + index < |s| && index < |f| && forall x :: 0 <= x < index ==> s[a + x] == f[x]
  }

  /** What becomes of it with the next byte. */
  lemma AttemptAt(s: seq<Byte>, a: nat, f: seq<Byte>, index: nat, drop: bool)
    requires Begun(s, a, f, index)
    ensures a + index < |s| && index < |f|
    ensures s[a + index] == f[index] && index + 1 == |f| ==> Hit(s, f, a, drop) == a
    ensures s[a + index] != f[index] && (index == 0 || drop) ==>
              Hit(s, f, a, drop) == Hit(s, f, a + index + 1, drop)
    ensures s[a + index] != f[index] && index > 0 && !drop ==> Hit(s, f, a, drop) == Hit(s, f, a + index, drop)
  {
    hide Occurs;
    if s[a + index] != f[index] {
      AgreeingIs(s, a, f, index);
    } else if index + 1 == |f| {
      AgreeingIs(s, a, f, |f|);
    }
  }

  lemma TrailingIsBegun(s: seq<Byte>, pos: nat, f: seq<Byte>, index: nat)
    requires pos < |s| && index < |f| && Trailing(s, pos, f, index)
    ensures index <= pos && Begun(s, pos - index, f, index) && Begun(s, pos, f, 0)
  {}

  lemma TargetTrails(s: seq<Byte>, pos: nat, f: seq<Byte>, index: nat)
    requires pos < |s| && index < |f| && Trailing(s, pos, f, index)
    ensures var i := NextIndex(f, index, s[pos]); i <= pos + 1 && Trailing(s, pos + 1, f, i)
  {
    assert index <= pos;
    hide Trailing;
    NothingTrails(s, pos, f);
    NothingTrails(s, pos + 1, f);
    TrailingStep(s, pos, f, index);
    TrailingStep(s, pos, f, 0);
  }

  /** One byte of the target's loop keeps the attempt it stands for. */
  lemma TargetStep(s: seq<Byte>, pos: nat, f: seq<Byte>, index: nat)
    requires pos < |s| && index < |f| && Trailing(s, pos, f, index)
    ensures var i := NextIndex(f, index, s[pos]);
            && i <= pos + 1 && Trailing(s, pos + 1, f, i)
            && Hit(s, f, pos - index, false) == if i == |f| then pos + 1 - |f| else Hit(s, f, pos + 1 - i, false)
  {
    hide Hit, Trailing, Occurs, Begun;
    TargetTrails(s, pos, f, index);
    TrailingIsBegun(s, pos, f, index);
    AttemptAt(s, pos - index, f, index, false);
    if s[pos] != f[index] && s[pos] != f[0] && index > 0 {
      AttemptAt(s, pos, f, 0, false);
    }
  }

  /** The same for the terminator's, which drops the byte that broke an attempt. */
  lemma TermStep(s: seq<Byte>, pos: nat, f: seq<Byte>, index: nat)
    requires pos < |s| && index < |f| && Trailing(s, pos, f, index)
    ensures var i := NextTermIndex(f, index, s[pos]);
            && i <= pos + 1 && Trailing(s, pos + 1, f, i)
            && Hit(s, f, pos - index, true) == if i == |f| then pos + 1 - |f| else Hit(s, f, pos + 1 - i, true)
  {
    hide Hit, Trailing, Occurs, Begun;
    TrailingStep(s, pos, f, index);
    NothingTrails(s, pos + 1, f);
    TrailingIsBegun(s, pos, f, index);
    AttemptAt(s, pos - index, f, index, true);
  }

  lemma NoHitAtEnd(s: seq<Byte>, f: seq<Byte>, index: nat, drop: bool)
    requires index < |f| && Trailing(s, |s|, f, index)
    ensures Hit(s, f, |s| - index, drop) == -1
  {
    AgreeingIs(s, |s| - index, f, index);
  }

  // ---- The whole loop -----------------------------------------------------------------------------

  /** `u` is what the loop can read: up to a NUL or the end. */
  ghost predicate Readable(s: seq<Byte>, u: seq<Byte>) { u <= s && NulFree(u) && (|u| < |s| ==> s[|u|] == 0) }

  lemma {:induction false} ScanByAttempts(s: seq<Byte>, u: seq<Byte>, pos: nat, target: seq<Byte>, index: nat,
                                          term: seq<Byte>, termIndex: nat)
    requires Readable(s, u) && pos <= |u| && index < |target| && (termIndex < |term| || term == [])
    requires Trailing(u, pos, target, index) && (term != [] ==> Trailing(u, pos, term, termIndex))
    ensures var p := Hit(u, target, pos - index, false);
            var q := if term == [] then -1 else Hit(u, term, pos - termIndex, true);
            Scan(s, pos, target, index, term, termIndex) == Ending(s, u, target, term, p, q)
    decreases |u| - pos
  {
    hide Hit, Trailing;
    if pos == |u| {
      NoHitAtEnd(u, target, index, false);
      if term != [] {
        NoHitAtEnd(u, term, termIndex, true);
      }
    } else {
      assert s[pos] == u[pos] != 0;
      var i, t := NextIndex(target, index, s[pos]), NextTermIndex(term, termIndex, s[pos]);
      TargetStep(u, pos, target, index);
      if term != [] {
        TermStep(u, pos, term, termIndex);
      }
      if i == |target| {
        LaterEnd(u, term, pos, termIndex);
      } else if t < |term| || term == [] {
        ScanByAttempts(s, u, pos + 1, target, i, term, t);
      } else {
        LaterEndOfTarget(u, target, pos, i);
      }
    }
  }

  /** A terminator that is not complete before `pos` ends no earlier than the byte at `pos`. */
  lemma LaterEnd(u: seq<Byte>, term: seq<Byte>, pos: nat, termIndex: nat)
    requires pos < |u| && (term != [] ==> termIndex < |term| && Trailing(u, pos, term, termIndex))
    ensures term != [] ==> var q := Hit(u, term, pos - termIndex, true); q < 0 || pos + 1 <= q + |term|
  {
    if term != [] {
      TermStep(u, pos, term, termIndex);
    }
  }

  lemma LaterEndOfTarget(u: seq<Byte>, target: seq<Byte>, pos: nat, i: nat)
    requires pos < |u| && i < |target| && Trailing(u, pos + 1, target, i)
    ensures i <= pos + 1 && var p := Hit(u, target, pos + 1 - i, false); p < 0 || pos + 1 < p + |target|
  {}

  /** For every stream, target and terminator: the loop searches attempt by attempt. */
  lemma SearchByAttempts(s: seq<Byte>, target: seq<Byte>, term: seq<Byte>)
    requires target != [] && target[0] != 0
    ensures Search(s, target, term) == ByAttempts(s, target, term)
  {
    hide Scan, Hit;
    var u := UpToNul(s);
    NothingTrails(u, 0, target);
    NothingTrails(u, 0, term);
    ScanByAttempts(s, u, 0, target, 0, term, 0);
  }

  // ---- When the first occurrence is seen ------------------------------------------------------------

  /** Nothing that looks like the beginning of `f` stands before its first occurrence. */
  ghost predicate FreshIn(s: seq<Byte>, f: seq<Byte>) {
    forall x :: 0 <= x < Find(s, f) ==> s[x] != f[0]
  }

  lemma {:induction false} FreshIsHit(s: seq<Byte>, f: seq<Byte>, a: nat, drop: bool)
    requires f != [] && FreshIn(s, f) && a <= |s| && (Find(s, f) >= 0 ==> a <= Find(s, f))
    ensures Hit(s, f, a, drop) == Find(s, f)
    decreases |s| - a
  {
    hide FirstFrom;
    var p := Find(s, f);
    if p < 0 {
      var h := Hit(s, f, a, drop);
    } else if a == p {
      assert forall x :: 0 <= x < |f| ==> s[a + x] == f[x];
      AgreeingIs(s, a, f, |f|);
    } else {
      AgreeingIs(s, a, f, 0);
      FreshIsHit(s, f, a + 1, drop);
    }
  }

  /** On such a stream any target and any terminator are honoured: the search stops at the first of
      the two. */
  lemma FreshStreamIsRight(s: seq<Byte>, target: seq<Byte>, term: seq<Byte>)
    requires NulFree(s) && target != [] && target[0] != 0
    requires FreshIn(s, target) && (term != [] ==> FreshIn(s, term))
    ensures Search(s, target, term) == FirstOf(s, target, term)
  {
    hide Search, Hit, Find, FreshIn;
    SearchByAttempts(s, target, term);
    UpToNulIs(s, |s|);
    assert s[..|s|] == s;
    FreshIsHit(s, target, 0, false);
    if term != [] {
      FreshIsHit(s, term, 0, true);
    }
  }

  /** The terminator alone: wherever it first occurs with its first character new, the search has
      ended by its last byte, whatever the target. */
  lemma FreshTerminatorIsHonoured(s: seq<Byte>, target: seq<Byte>, term: seq<Byte>)
    requires NulFree(s) && term != [] && FreshIn(s, term)
    ensures Honours(s, target, term)
  {
    hide Hit, FreshIn, Scan;
    if target != [] && target[0] != 0 {
      SearchByAttempts(s, target, term);
      UpToNulIs(s, |s|);
      assert s[..|s|] == s;
      FreshIsHit(s, term, 0, true);
    }
  }
}

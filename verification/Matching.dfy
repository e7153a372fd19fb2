/** Text search and substitution on values: the reference meaning of `strstr`,
    `String::lastIndexOf` and the three branches of `String::replace`. */
module Matching {
  import opened Bytes

  predicate Occurs(s: seq<Byte>, f: seq<Byte>, p: int) {
    0 <= p && p + |f| <= |s| && forall i :: 0 <= i < |f| ==> s[p + i] == f[i]
  }

  /** Least occurrence at or after `from`, or -1. */
  function FirstFrom(s: seq<Byte>, f: seq<Byte>, from: nat): (p: int)
    ensures p == -1 || (from <= p && Occurs(s, f, p))
    ensures forall q :: from <= q && (q < p || p == -1) ==> !Occurs(s, f, q)
    decreases |s| - from
  {
    if from + |f| > |s| then -1
    else if Occurs(s, f, from) then from
    else FirstFrom(s, f, from + 1)
  }

  function Find(s: seq<Byte>, f: seq<Byte>): (p: int)
    ensures p == -1 || Occurs(s, f, p)
    ensures forall q :: 0 <= q && (q < p || p == -1) ==> !Occurs(s, f, q)
  {
    FirstFrom(s, f, 0)
  }

  /** Greatest occurrence at or before `upTo`, or -1. */
  function LastUpTo(s: seq<Byte>, f: seq<Byte>, upTo: int): (p: int)
    ensures p == -1 || (p <= upTo && Occurs(s, f, p))
    ensures forall q :: p < q <= upTo ==> !Occurs(s, f, q)
    decreases upTo + 1
  {
    if upTo < 0 then -1
    else if Occurs(s, f, upTo) then upTo
    else LastUpTo(s, f, upTo - 1)
  }

  function FindLast(s: seq<Byte>, f: seq<Byte>): (p: int)
    ensures p == -1 || Occurs(s, f, p)
    ensures forall q :: p < q ==> !Occurs(s, f, q)
  {
    LastUpTo(s, f, |s|)
  }

  /** Replace the matches found by scanning left to right without overlap. */
  function SubstLeft(s: seq<Byte>, f: seq<Byte>, r: seq<Byte>): seq<Byte>
    requires f != []
    decreases |s|
  {
    var p := Find(s, f);
    if p < 0 then s else s[..p] + r + SubstLeft(s[p + |f|..], f, r)
  }

  /** Replace the matches found by scanning right to left without overlap. */
  function SubstRight(s: seq<Byte>, f: seq<Byte>, r: seq<Byte>): seq<Byte>
    requires f != []
    decreases |s|
  {
    var p := FindLast(s, f);
    if p < 0 then s else SubstRight(s[..p], f, r) + r + s[p + |f|..]
  }

  function CountLeft(s: seq<Byte>, f: seq<Byte>): nat
    requires f != []
    decreases |s|
  {
    var p := Find(s, f);
    if p < 0 then 0 else 1 + CountLeft(s[p + |f|..], f)
  }

  function CountRight(s: seq<Byte>, f: seq<Byte>): nat
    requires f != []
    decreases |s|
  {
    var p := FindLast(s, f);
    if p < 0 then 0 else 1 + CountRight(s[..p], f)
  }

  lemma OccursInSlice(s: seq<Byte>, f: seq<Byte>, lo: nat, hi: nat, q: int)
    requires lo <= hi <= |s|
    ensures Occurs(s[lo..hi], f, q) <==> 0 <= q && lo + q + |f| <= hi && Occurs(s, f, lo + q)
  {
    if 0 <= q && lo + q + |f| <= hi {
      assert forall i :: 0 <= i < |f| ==> (f[i] == s[lo..hi][q + i] <==> f[i] == s[lo + q + i]);
    }
  }

  lemma FindIs(s: seq<Byte>, f: seq<Byte>, p: int)
    requires Occurs(s, f, p) && forall q :: 0 <= q < p ==> !Occurs(s, f, q)
    ensures Find(s, f) == p
  {}

  lemma FindLastIs(s: seq<Byte>, f: seq<Byte>, p: int)
    requires Occurs(s, f, p) && forall q :: p < q ==> !Occurs(s, f, q)
    ensures FindLast(s, f) == p
  {}

  /** The matches of a slice are the matches of the text that lie inside it. */
  lemma MatchesOfSlice(s: seq<Byte>, f: seq<Byte>, lo: nat, hi: nat)
    requires lo <= hi <= |s|
    ensures forall q :: Occurs(s[lo..hi], f, q) ==> 0 <= q && lo + q + |f| <= hi && Occurs(s, f, lo + q)
    ensures forall q :: lo <= q && q + |f| <= hi && Occurs(s, f, q) ==> Occurs(s[lo..hi], f, q - lo)
  {
    forall q | Occurs(s[lo..hi], f, q)
      ensures 0 <= q && lo + q + |f| <= hi && Occurs(s, f, lo + q)
    {
      OccursInSlice(s, f, lo, hi, q);
    }
    forall q | lo <= q && q + |f| <= hi && Occurs(s, f, q) ensures Occurs(s[lo..hi], f, q - lo) {
      OccursInSlice(s, f, lo, hi, q - lo);
    }
  }

  lemma FindInTail(s: seq<Byte>, f: seq<Byte>, e: nat, p: int)
    requires e <= p && p == FindLast(s, f)
    ensures FindLast(s[e..], f) == p - e
  {
    MatchesOfSlice(s, f, e, |s|);
    assert s[e..|s|] == s[e..];
    assert Occurs(s[e..], f, p - e);
    FindLastIs(s[e..], f, p - e);
  }

  lemma FindInHead(s: seq<Byte>, f: seq<Byte>, q: int, p: nat)
    requires q >= 0 && q == Find(s, f) && q + |f| <= p <= |s|
    ensures Find(s[..p], f) == q
  {
    MatchesOfSlice(s, f, 0, p);
    assert s[0..p] == s[..p];
    assert Occurs(s[..p], f, q - 0);
    FindIs(s[..p], f, q);
  }

  /** Where the first and the last match overlap, nothing is left around them. */
  lemma FirstMeetsLast(s: seq<Byte>, f: seq<Byte>, q: int, p: int)
    requires f != [] && 0 <= q && q == Find(s, f) && p == FindLast(s, f) && q <= p < q + |f|
    ensures Find(s[..p], f) == -1 && Find(s[q + |f|..], f) == -1
  {
    MatchesOfSlice(s, f, 0, p);
    MatchesOfSlice(s, f, q + |f|, |s|);
    assert s[0..p] == s[..p] && s[q + |f|..|s|] == s[q + |f|..];
  }

  lemma SliceOfSlice(s: seq<Byte>, e: nat, p: nat)
    requires e <= p <= |s|
    ensures s[e..][..p - e] == s[..p][e..]
  {}

  /** Removing everything from the last match on costs the left-to-right scan exactly one match. */
  lemma {:induction false} CountLeftDropLast(s: seq<Byte>, f: seq<Byte>, p: int)
    requires f != [] && p >= 0 && p == FindLast(s, f)
    ensures CountLeft(s, f) == 1 + CountLeft(s[..p], f)
    decreases |s|
  {
    hide FirstFrom, LastUpTo, Find, FindLast;
    var q := Find(s, f);
    var e := q + |f|;
    assert 0 <= q <= p by { assert Occurs(s, f, p); }
    assert CountLeft(s, f) == 1 + CountLeft(s[e..], f);
    if e > p {
      FirstMeetsLast(s, f, q, p);
    } else {
      FindInTail(s, f, e, p);
      CountLeftDropLast(s[e..], f, p - e);
      FindInHead(s, f, q, p);
      SliceOfSlice(s, e, p);
    }
  }

  /** Both scans find the same number of matches, even when `f` overlaps itself. */
  lemma {:induction false} CountsAgree(s: seq<Byte>, f: seq<Byte>)
    requires f != []
    ensures CountLeft(s, f) == CountRight(s, f)
    decreases |s|
  {
    var p := FindLast(s, f);
    if p < 0 {
      assert !Occurs(s, f, Find(s, f));
    } else {
      CountLeftDropLast(s, f, p);
      CountsAgree(s[..p], f);
    }
  }

  lemma MulSucc(d: int, n: int)
    ensures d * (1 + n) == d + d * n
  {}

  lemma {:induction false} SubstLeftLength(s: seq<Byte>, f: seq<Byte>, r: seq<Byte>)
    requires f != []
    ensures |SubstLeft(s, f, r)| == |s| + (|r| - |f|) * CountLeft(s, f)
    decreases |s|
  {
    hide Find;
    var p := Find(s, f);
    if p >= 0 {
      var rest := s[p + |f|..];
      SubstLeftLength(rest, f, r);
      MulSucc(|r| - |f|, CountLeft(rest, f));
    }
  }

  lemma {:induction false} SubstRightLength(s: seq<Byte>, f: seq<Byte>, r: seq<Byte>)
    requires f != []
    ensures |SubstRight(s, f, r)| == |s| + (|r| - |f|) * CountRight(s, f)
    decreases |s|
  {
    hide FindLast;
    var p := FindLast(s, f);
    if p >= 0 {
      SubstRightLength(s[..p], f, r);
      MulSucc(|r| - |f|, CountRight(s[..p], f));
    }
  }

  // ---- The growing loop of String::replace, on values -------------------------------------

  /** One run of the rewriting loop from cursor `index`: each match found at or before the
      cursor is replaced in the text that is being searched. */
  function GrowLoop(s: seq<Byte>, f: seq<Byte>, r: seq<Byte>, index: int): seq<Byte>
    requires f != []
    decreases index + 1
  {
    var p := LastUpTo(s, f, index);
    if index < 0 || p < 0 then s else GrowLoop(s[..p] + r + s[p + |f|..], f, r, p - 1)
  }

  /** No non-empty proper suffix of `f` is a prefix of `r`. */
  ghost predicate NoOverlap(f: seq<Byte>, r: seq<Byte>) {
    forall k :: 0 < k < |f| ==> !(f[k..] <= r)
  }

  lemma {:induction false} GrowLoopNeverShrinks(s: seq<Byte>, f: seq<Byte>, r: seq<Byte>, index: int)
    requires f != [] && |r| >= |f|
    ensures |GrowLoop(s, f, r, index)| >= |s|
    decreases index + 1
  {
    var p := LastUpTo(s, f, index);
    if index >= 0 && p >= 0 {
      GrowLoopNeverShrinks(s[..p] + r + s[p + |f|..], f, r, p - 1);
    }
  }

  /** A match that begins in `a` and runs into `done` shows how a suffix of `f` starts `r`. */
  lemma CrossingSuffix(a: seq<Byte>, done: seq<Byte>, f: seq<Byte>, r: seq<Byte>, q: int)
    requires |f| < |r| && (done == [] || r <= done)
    requires q < |a| < q + |f| && Occurs(a + done, f, q)
    ensures f[|a| - q..] <= r
  {
    var k := |a| - q;
    forall i | 0 <= i < |f| - k ensures f[k..][i] == r[i] {
      assert f[k + i] == (a + done)[q + (k + i)];
    }
  }

  /** A match that begins in `a` ends in `a`: it cannot run into replaced text. */
  lemma NoMatchAcross(a: seq<Byte>, done: seq<Byte>, f: seq<Byte>, r: seq<Byte>, q: int)
    requires |f| < |r| && NoOverlap(f, r) && (done == [] || r <= done)
    requires q < |a|
    ensures Occurs(a + done, f, q) <==> Occurs(a, f, q)
  {
    if Occurs(a + done, f, q) && q + |f| > |a| {
      CrossingSuffix(a, done, f, r, q);
    }
  }

  /** The last match of `a` is the match the loop takes next in `a + done`. */
  lemma NextMatch(a: seq<Byte>, done: seq<Byte>, f: seq<Byte>, r: seq<Byte>)
    requires 0 < |f| < |r| && NoOverlap(f, r) && (done == [] || r <= done)
    ensures LastUpTo(a + done, f, |a| - 1) == FindLast(a, f)
  {
    forall q | q < |a| ensures Occurs(a + done, f, q) <==> Occurs(a, f, q) {
      NoMatchAcross(a, done, f, r, q);
    }
  }

  lemma SpliceAssociates(a: seq<Byte>, done: seq<Byte>, m: nat, r: seq<Byte>, p: nat)
    requires p + m <= |a|
    ensures var s := a + done; s[..p] + r + s[p + m..] == a[..p] + (r + (a[p + m..] + done))
  {
    var s := a + done;
    assert s[..p] == a[..p];
    assert s[p + m..] == a[p + m..] + done;
  }

  lemma Regroup(x: seq<Byte>, r: seq<Byte>, y: seq<Byte>, z: seq<Byte>)
    ensures x + (r + (y + z)) == (x + r + y) + z
  {}

  /** Under NoOverlap, rewriting in place agrees with the right-to-left scan of the original. */
  lemma {:induction false} GrowLoopIsSubstRight(a: seq<Byte>, done: seq<Byte>, f: seq<Byte>, r: seq<Byte>)
    requires 0 < |f| < |r| && NoOverlap(f, r) && (done == [] || r <= done)
    ensures GrowLoop(a + done, f, r, |a| - 1) == SubstRight(a, f, r) + done
    decreases |a|
  {
    hide FirstFrom, LastUpTo, FindLast;
    var s, p := a + done, FindLast(a, f);
    NextMatch(a, done, f, r);
    if p >= 0 {
      var rest := r + (a[p + |f|..] + done);
      calc {
        GrowLoop(s, f, r, |a| - 1);
        GrowLoop(s[..p] + r + s[p + |f|..], f, r, p - 1);
        { SpliceAssociates(a, done, |f|, r, p); }
        GrowLoop(a[..p] + rest, f, r, p - 1);
        { GrowLoopIsSubstRight(a[..p], rest, f, r); }
        SubstRight(a[..p], f, r) + rest;
        { Regroup(SubstRight(a[..p], f, r), r, a[p + |f|..], done); }
        (SubstRight(a[..p], f, r) + r + a[p + |f|..]) + done;
        SubstRight(a, f, r) + done;
      }
    }
  }

  /** The text `f[..k] + f` holds one match, and its last match is at `k`. */
  lemma OneMatch(f: seq<Byte>, k: int)
    requires 0 < k < |f|
    ensures var t := f[..k] + f;
            && LastUpTo(t, f, |t| - 1) == k && FindLast(t, f) == k
            && CountLeft(t, f) == CountRight(t, f) == 1
  {
    var t := f[..k] + f;
    assert Occurs(t, f, k);
    assert t[..k] == f[..k];
    assert FindLast(t, f) == k;
    assert FindLast(f[..k], f) == -1;
    CountsAgree(t, f);
  }

  lemma GrowLoopStep(s: seq<Byte>, f: seq<Byte>, r: seq<Byte>, index: nat)
    requires f != [] && |r| >= |f| && LastUpTo(s, f, index) >= 0
    ensures var p := LastUpTo(s, f, index);
            var s' := s[..p] + r + s[p + |f|..];
            GrowLoop(s, f, r, index) == GrowLoop(s', f, r, p - 1) && |s'| == |s| + |r| - |f|
  {}

  /** When a proper suffix `f[k..]` starts `r`, the text `f[..k] + f` is rewritten twice
      although it holds one match: the result outgrows the size the first pass computed. */
  lemma {:induction false} OverlapRematches(f: seq<Byte>, r: seq<Byte>, k: int)
    requires 0 < k < |f| < |r| && f[k..] <= r
    ensures |SubstLeft(f[..k] + f, f, r)| == k + |r|
    ensures |GrowLoop(f[..k] + f, f, r, k + |f| - 1)| > k + |r|
  {
    hide FirstFrom, LastUpTo, GrowLoop, SubstLeft;
    var t := f[..k] + f;
    OneMatch(f, k);
    SubstLeftLength(t, f, r);
    GrowLoopStep(t, f, r, |t| - 1);
    var s := t[..k] + r + t[k + |f|..];
    assert Occurs(s, f, 0) by {
      assert s == f[..k] + r;
      assert forall i :: k <= i < |f| ==> f[i] == f[k..][i - k];
    }
    var p := LastUpTo(s, f, k - 1);
    GrowLoopStep(s, f, r, k - 1);
    GrowLoopNeverShrinks(s[..p] + r + s[p + |f|..], f, r, p - 1);
  }

  /** The rewriting loop, started at the end of the text, does what was asked of it. */
  ghost predicate GrowsCorrectly(t: seq<Byte>, f: seq<Byte>, r: seq<Byte>)
    requires f != []
  {
    && GrowLoop(t, f, r, |t| - 1) == SubstRight(t, f, r)
    && |GrowLoop(t, f, r, |t| - 1)| == |SubstLeft(t, f, r)|
  }

  lemma NoOverlapGrowsCorrectly(t: seq<Byte>, f: seq<Byte>, r: seq<Byte>)
    requires 0 < |f| < |r| && NoOverlap(f, r)
    ensures GrowsCorrectly(t, f, r)
  {
    GrowLoopIsSubstRight(t, [], f, r);
    assert t + [] == t && SubstRight(t, f, r) + [] == SubstRight(t, f, r);
    CountsAgree(t, f);
    SubstLeftLength(t, f, r);
    SubstRightLength(t, f, r);
  }

  /** Exact condition on the pair (find, replace) for the growing branch to be right on
      every text: no proper suffix of `find` may start `replace`. */
  lemma GrowCorrectIffNoOverlap(f: seq<Byte>, r: seq<Byte>)
    requires 0 < |f| < |r| && NulFree(f) && NulFree(r)
    ensures NoOverlap(f, r) <==> forall t :: NulFree(t) ==> GrowsCorrectly(t, f, r)
  {
    hide GrowLoop, SubstLeft, SubstRight;
    if NoOverlap(f, r) {
      forall t ensures GrowsCorrectly(t, f, r) {
        NoOverlapGrowsCorrectly(t, f, r);
      }
    } else {
      var k :| 0 < k < |f| && f[k..] <= r;
      OverlapRematches(f, r, k);
      var t := f[..k] + f;
      assert NulFree(t) && !GrowsCorrectly(t, f, r);
    }
  }

  /** The failing family is not empty: "aab" with "ab" -> "bbb". */
  lemma GrowCounterexample()
    ensures var t, f, r: seq<Byte> := [97, 97, 98], [97, 98], [98, 98, 98];
            |SubstLeft(t, f, r)| == 4 && |GrowLoop(t, f, r, 2)| >= 5
  {
    var t, f, r: seq<Byte> := [97, 97, 98], [97, 98], [98, 98, 98];
    assert f[1..] == [98] && [98] <= r;
    assert f[..1] + f == t;
    OverlapRematches(f, r, 1);
  }

  // ---- When the two scans agree -----------------------------------------------------------------

  /** No proper prefix of `f` is also a suffix of it, so matches never overlap. */
  ghost predicate Unbordered(f: seq<Byte>) {
    forall k :: 0 < k < |f| ==> f[..|f| - k] != f[k..]
  }

  lemma MatchesApart(s: seq<Byte>, f: seq<Byte>, q: int, p: int)
    requires Unbordered(f) && Occurs(s, f, q) && Occurs(s, f, p) && q < p
    ensures q + |f| <= p
  {
    var k := p - q;
    if k < |f| {
      SharedBytes(s, f, q, p);
    }
  }

  lemma SharedBytes(s: seq<Byte>, f: seq<Byte>, q: int, p: int)
    requires Occurs(s, f, q) && Occurs(s, f, p) && q < p < q + |f|
    ensures f[..|f| - (p - q)] == f[p - q..]
  {
    var k := p - q;
    forall i | 0 <= i < |f| - k ensures f[i] == f[k + i] {
      assert s[p + i] == s[q + (k + i)];
    }
  }

  /** The left-to-right scan may treat the last match last. */
  lemma {:induction false} SubstLeftFromLast(s: seq<Byte>, f: seq<Byte>, r: seq<Byte>, p: int)
    requires f != [] && Unbordered(f) && p >= 0 && p == FindLast(s, f)
    ensures SubstLeft(s, f, r) == SubstLeft(s[..p], f, r) + r + s[p + |f|..]
    decreases |s|
  {
    hide FirstFrom, LastUpTo, Find, FindLast, Unbordered;
    var q := Find(s, f);
    var e := q + |f|;
    assert 0 <= q <= p by { assert Occurs(s, f, p); }
    if q == p {
      FirstMeetsLast(s, f, q, p);
    } else {
      MatchesApart(s, f, q, p);
      FindInTail(s, f, e, p);
      SubstLeftFromLast(s[e..], f, r, p - e);
      FindInHead(s, f, q, p);
      SliceOfSlice(s, e, p);
      SubstLeftJoin(s, f, r, q, p);
    }
  }

  lemma SubstLeftJoin(s: seq<Byte>, f: seq<Byte>, r: seq<Byte>, q: int, p: int)
    requires f != [] && 0 <= q == Find(s, f) && q + |f| <= p && p + |f| <= |s| && Find(s[..p], f) == q
    requires var e := q + |f|;
             SubstLeft(s[e..], f, r) == SubstLeft(s[..p][e..], f, r) + r + s[e..][p - e + |f|..]
    ensures SubstLeft(s, f, r) == SubstLeft(s[..p], f, r) + r + s[p + |f|..]
  {
    hide Find;
    var e := q + |f|;
    var x := SubstLeft(s[..p][e..], f, r);
    assert SubstLeft(s, f, r) == s[..q] + r + SubstLeft(s[e..], f, r);
    assert SubstLeft(s[..p], f, r) == s[..p][..q] + r + x;
    hide SubstLeft;
    assert s[..p][..q] == s[..q] && s[e..][p - e + |f|..] == s[p + |f|..];
    JoinFive(s[..q], r, x, r, s[p + |f|..]);
  }

  lemma JoinFive(a: seq<Byte>, b: seq<Byte>, c: seq<Byte>, d: seq<Byte>, e: seq<Byte>)
    ensures a + b + (c + d + e) == (a + b + c) + d + e
  {}

  /** For a `find` that does not overlap itself, both scans give the same text. */
  lemma {:induction false} ScansAgree(s: seq<Byte>, f: seq<Byte>, r: seq<Byte>)
    requires f != [] && Unbordered(f)
    ensures SubstLeft(s, f, r) == SubstRight(s, f, r)
    decreases |s|
  {
    hide FirstFrom, LastUpTo, Find, FindLast, Unbordered;
    var p := FindLast(s, f);
    if p >= 0 {
      SubstLeftFromLast(s, f, r, p);
      ScansAgree(s[..p], f, r);
    } else {
      assert !Occurs(s, f, Find(s, f));
    }
  }
}

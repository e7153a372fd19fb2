/** When the growing branch of `String::replace` (cores/arduino/WString.cpp) is right on one given
    text: its loop must never find a match that runs into text it has already replaced. */
module Rematching {
  import opened Bytes
  import opened Matching

  /** `a` ends with the first `k` bytes of `f`, and `r` begins with the others. */
  ghost predicate Joins(a: seq<Byte>, f: seq<Byte>, r: seq<Byte>, k: nat) {
    0 < k < |f| && k <= |a| && a[|a| - k..] == f[..k] && f[k..] <= r
  }

  /** Followed by `r`, the text `a` shows a match that is not its own. */
  ghost predicate RunsInto(a: seq<Byte>, f: seq<Byte>, r: seq<Byte>) { exists k :: Joins(a, f, r, k) }

  /** The matches of the right-to-left scan without overlap, in ascending order. */
  function RightScan(t: seq<Byte>, f: seq<Byte>): (ps: seq<nat>)
    requires f != []
    ensures forall p :: p in ps ==> p + |f| <= |t|
    decreases |t|
  {
    var p := FindLast(t, f);
    if p < 0 then [] else RightScan(t[..p], f) + [p]
  }

  /** In front of no match of the scan does the text run into the replacement. */
  ghost predicate CleanScan(t: seq<Byte>, f: seq<Byte>, r: seq<Byte>)
    requires f != []
  {
    forall p :: p in RightScan(t, f) ==> !RunsInto(t[..p], f, r)
  }

  // ---- Lower bounds on the number of rewrites -----------------------------------------------------

  lemma {:induction false} CountRightGrows(a: seq<Byte>, f: seq<Byte>, m: nat)
    requires f != [] && m <= |a|
    ensures CountRight(a[..m], f) <= CountRight(a, f)
    decreases |a|
  {
    hide FindLast;
    var p, p' := FindLast(a, f), FindLast(a[..m], f);
    if p' >= 0 {
      OccursInSlice(a, f, 0, m, p');
      assert a[0..m] == a[..m];
      CountRightGrows(a[..p], f, p');
      assert a[..p][..p'] == a[..p'] == a[..m][..p'];
    }
  }

  /** The loop after its next match, at `q`: the text before `q` and everything behind it. */
  function Done(a: seq<Byte>, done: seq<Byte>, f: seq<Byte>, r: seq<Byte>, q: nat): seq<Byte>
    requires q + |f| <= |a + done|
  {
    r + (a + done)[q + |f|..]
  }

  lemma LoopStep(a: seq<Byte>, done: seq<Byte>, f: seq<Byte>, r: seq<Byte>, q: int)
    requires f != [] && 0 <= q == LastUpTo(a + done, f, |a| - 1)
    ensures q < |a| && q + |f| <= |a + done|
    ensures GrowLoop(a + done, f, r, |a| - 1) == GrowLoop(a[..q] + Done(a, done, f, r, q), f, r, q - 1)
  {
    hide LastUpTo;
    var s := a + done;
    assert s[..q] == a[..q];
    assert s[..q] + r + s[q + |f|..] == a[..q] + Done(a, done, f, r, q);
  }

  /** The loop's next match is no earlier than the last match of the text in front of the cursor. */
  lemma NoEarlier(a: seq<Byte>, done: seq<Byte>, f: seq<Byte>, m: nat)
    requires f != [] && m <= |a|
    ensures LastUpTo(a + done, f, |a| - 1) >= FindLast(a[..m], f)
  {
    hide LastUpTo, FindLast;
    var p := FindLast(a[..m], f);
    if p >= 0 {
      OccursInSlice(a + done, f, 0, m, p);
      assert (a + done)[0..m] == a[..m];
    }
  }

  lemma {:induction false} RewritesAtLeast(a: seq<Byte>, done: seq<Byte>, f: seq<Byte>, r: seq<Byte>)
    requires 0 < |f| < |r|
    ensures |GrowLoop(a + done, f, r, |a| - 1)| >= |a| + |done| + (|r| - |f|) * CountRight(a, f)
    decreases |a|
  {
    hide LastUpTo, FindLast, GrowLoop;
    var p := FindLast(a, f);
    if p < 0 {
      GrowLoopNeverShrinks(a + done, f, r, |a| - 1);
    } else {
      NoEarlier(a, done, f, |a|);
      assert a[..|a|] == a;
      MulSucc(|r| - |f|, CountRight(a[..p], f));
      OneMoreRewrite(a, done, f, r, p);
    }
  }

  lemma {:induction false} OneMoreRewrite(a: seq<Byte>, done: seq<Byte>, f: seq<Byte>, r: seq<Byte>, m: nat)
    requires 0 < |f| < |r| && m <= LastUpTo(a + done, f, |a| - 1)
    ensures m <= |a|
    ensures |GrowLoop(a + done, f, r, |a| - 1)| >= |a| + |done| + (|r| - |f|) * (1 + CountRight(a[..m], f))
    decreases |a|, 0
  {
    hide LastUpTo, GrowLoop, CountRight;
    var q := LastUpTo(a + done, f, |a| - 1);
    LoopStep(a, done, f, r, q);
    RewritesAtLeast(a[..q], Done(a, done, f, r, q), f, r);
    CountRightGrows(a[..q], f, m);
    assert a[..q][..m] == a[..m];
    MulGrows(|r| - |f|, CountRight(a[..m], f), CountRight(a[..q], f));
    MulSucc(|r| - |f|, CountRight(a[..m], f));
  }

  lemma MulGrows(d: nat, m: nat, n: nat)
    requires m <= n
    ensures d * m <= d * n
  {}

  // ---- Once the loop has gone astray, it cannot come back -----------------------------------------

  /** The loop stands at `u + done` and the scan of the original at `u[..p] + tail`; they have
      parted: their finished parts differ, or the loop took a later match that overlaps the scan's. */
  ghost predicate Parted(u: seq<Byte>, p: nat, done: seq<Byte>, tail: seq<Byte>, f: seq<Byte>, r: seq<Byte>) {
    && Level(u, p, done, tail, r)
    && if p == |u| then done != tail
       else |u| - p < |f| && u[p..] == f[..|u| - p] && f[|u| - p..] <= f
  }

  ghost predicate Level(u: seq<Byte>, p: nat, done: seq<Byte>, tail: seq<Byte>, r: seq<Byte>) {
    p <= |u| && r <= done && r <= tail && p + |tail| <= |u| + |done|
  }

  /** Two texts with the same period and the same first period agree. */
  lemma {:induction false} SamePeriod(f: seq<Byte>, r: seq<Byte>, d: nat, n: nat)
    requires 0 < d < |f| <= |r| && n <= |f|
    requires forall i :: 0 <= i < d ==> f[i] == r[i]
    requires forall i :: d <= i < |f| ==> f[i] == f[i - d] && r[i] == r[i - d]
    ensures forall i :: 0 <= i < n ==> f[i] == r[i]
  {
    if n > 0 {
      SamePeriod(f, r, d, n - 1);
      if n - 1 >= d {
        assert f[n - 1] == f[n - 1 - d] && r[n - 1] == r[n - 1 - d];
      }
    }
  }

  /** A match that runs from `a` into replaced text is a joint, and the other way round. */
  lemma CrossingIffJoins(a: seq<Byte>, done: seq<Byte>, f: seq<Byte>, r: seq<Byte>, k: nat)
    requires |f| < |r| && r <= done && 0 < k < |f| && k <= |a|
    ensures Occurs(a + done, f, |a| - k) <==> Joins(a, f, r, k)
  {
    var q := |a| - k;
    if Joins(a, f, r, k) {
      forall i | 0 <= i < |f| ensures (a + done)[q + i] == f[i] {
        if i < k {
          assert a[q..][i] == f[..k][i];
        } else {
          assert (a + done)[q + i] == done[i - k] == r[i - k] == f[k..][i - k];
        }
      }
    }
    if Occurs(a + done, f, q) {
      CrossingSuffix(a, done, f, r, q);
      assert a[q..] == f[..k] by {
        assert forall i :: 0 <= i < k ==> a[q..][i] == (a + done)[q + i] == f[i];
      }
    }
  }

  lemma PeriodJoins(f: seq<Byte>, r: seq<Byte>, done: seq<Byte>, d: nat)
    requires 0 < d < |f| < |r| && r <= done && r <= f[..d] + done && f[d..] <= f
    ensures f[d..] <= r
  {
    assert forall i :: 0 <= i < |r| ==> r[i] == (f[..d] + done)[i];
    forall i | d <= i < |f| ensures f[i] == f[i - d] && r[i] == r[i - d] {
      assert f[d..][i - d] == f[i];
    }
    SamePeriod(f, r, d, |f|);
    assert forall i :: 0 <= i < |f| - d ==> f[d..][i] == f[i];
  }

  /** Parted texts differ, unless the loop is about to rewrite once more than the scan. */
  lemma PartedDiffer(u: seq<Byte>, p: nat, done: seq<Byte>, tail: seq<Byte>, f: seq<Byte>, r: seq<Byte>)
    requires 0 < |f| < |r| && Parted(u, p, done, tail, f, r)
    ensures u[p..] + done != tail || (p < |u| && Occurs(u + done, f, p))
  {
    hide Occurs;
    var d := |u| - p;
    if d > 0 && u[p..] + done == tail {
      PeriodJoins(f, r, done, d);
      CrossingIffJoins(u, done, f, r, d);
    }
  }

  lemma SubstRightUnfold(u: seq<Byte>, p: nat, tail: seq<Byte>, f: seq<Byte>, r: seq<Byte>, p': int)
    requires f != [] && p <= |u| && 0 <= p' == FindLast(u[..p], f)
    ensures p' + |f| <= p && Occurs(u, f, p') && CountRight(u[..p], f) == 1 + CountRight(u[..p'], f)
    ensures SubstRight(u[..p], f, r) + tail == SubstRight(u[..p'], f, r) + (r + (u[p' + |f|..p] + tail))
  {
    hide FindLast, LastUpTo;
    OccursInSlice(u, f, 0, p, p');
    assert u[0..p] == u[..p] && u[..p][..p'] == u[..p'] && u[..p][p' + |f|..] == u[p' + |f|..p];
    assert SubstRight(u[..p], f, r) == SubstRight(u[..p'], f, r) + r + u[p' + |f|..p];
    hide SubstRight;
    Regroup(SubstRight(u[..p'], f, r), r, u[p' + |f|..p], tail);
  }

  lemma CountThroughMatch(u: seq<Byte>, f: seq<Byte>, p: nat)
    requires f != [] && Occurs(u, f, p)
    ensures CountRight(u[..p + |f|], f) == 1 + CountRight(u[..p], f)
  {
    var a := u[..p + |f|];
    assert Occurs(a, f, p);
    FindLastIs(a, f, p);
    assert a[..p] == u[..p];
  }

  /** More rewrites than the scan has matches: the result is too long. */
  lemma TooLong(u: seq<Byte>, p: nat, done: seq<Byte>, tail: seq<Byte>, f: seq<Byte>, r: seq<Byte>, m: nat)
    requires 0 < |f| < |r| && Level(u, p, done, tail, r)
    requires m <= LastUpTo(u + done, f, |u| - 1) && m <= |u| && CountRight(u[..p], f) <= CountRight(u[..m], f)
    ensures GrowLoop(u + done, f, r, |u| - 1) != SubstRight(u[..p], f, r) + tail
  {
    hide LastUpTo, GrowLoop, CountRight, SubstRight;
    OneMoreRewrite(u, done, f, r, m);
    SubstRightLength(u[..p], f, r);
    MulGrows(|r| - |f|, CountRight(u[..p], f), CountRight(u[..m], f));
    MulSucc(|r| - |f|, CountRight(u[..m], f));
  }

  /** The loop takes a later match than the scan: it ends up with a different text. */
  lemma {:induction false} LaterMatchShows(u: seq<Byte>, p: nat, done: seq<Byte>, tail: seq<Byte>,
                                           f: seq<Byte>, r: seq<Byte>)
    requires 0 < |f| < |r| && Level(u, p, done, tail, r)
    requires LastUpTo(u + done, f, |u| - 1) > FindLast(u[..p], f)
    ensures GrowLoop(u + done, f, r, |u| - 1) != SubstRight(u[..p], f, r) + tail
    decreases |u|, 0
  {
    hide LastUpTo, FindLast, GrowLoop, SubstRight, CountRight;
    var q, p' := LastUpTo(u + done, f, |u| - 1), FindLast(u[..p], f);
    if p' < 0 {
      NoneCounted(u[..p], f);
      TooLong(u, p, done, tail, f, r, 0);
    } else {
      SubstRightUnfold(u, p, tail, f, r, p');
      LoopStep(u, done, f, r, q);
      if q >= p' + |f| {
        CountThroughMatch(u, f, p');
        TooLong(u, p, done, tail, f, r, p' + |f|);
      } else {
        StillParted(u, p, done, tail, f, r, q, p');
        PartedShows(u[..q], p', Done(u, done, f, r, q), r + (u[p' + |f|..p] + tail), f, r);
        assert u[..q][..p'] == u[..p'];
      }
    }
  }

  lemma NoneCounted(a: seq<Byte>, f: seq<Byte>)
    requires f != [] && FindLast(a, f) < 0
    ensures CountRight(a, f) == 0
  {}

  lemma StillParted(u: seq<Byte>, p: nat, done: seq<Byte>, tail: seq<Byte>, f: seq<Byte>, r: seq<Byte>,
                    q: nat, p': nat)
    requires 0 < |f| < |r| && Level(u, p, done, tail, r)
    requires p' < q < p' + |f| <= p && q < |u| && Occurs(u, f, p') && Occurs(u + done, f, q)
    ensures Parted(u[..q], p', Done(u, done, f, r, q), r + (u[p' + |f|..p] + tail), f, r)
  {
    assert (u + done)[0..|u|] == u;
    OccursInSlice(u + done, f, 0, |u|, p');
    SharedBytes(u + done, f, p', q);
    var d := q - p';
    assert f[d..] == f[..|f| - d] <= f;
    assert u[..q][p'..] == f[..d] by {
      assert forall i :: 0 <= i < d ==> u[..q][p'..][i] == u[p' + i] == f[i];
    }
  }

  /** Parted once, different for good. */
  lemma {:induction false} PartedShows(u: seq<Byte>, p: nat, done: seq<Byte>, tail: seq<Byte>,
                                       f: seq<Byte>, r: seq<Byte>)
    requires 0 < |f| < |r| && Parted(u, p, done, tail, f, r)
    ensures GrowLoop(u + done, f, r, |u| - 1) != SubstRight(u[..p], f, r) + tail
    decreases |u|, 1
  {
    hide LastUpTo, FindLast, GrowLoop, SubstRight, Occurs;
    var q, p' := LastUpTo(u + done, f, |u| - 1), FindLast(u[..p], f);
    PartedDiffer(u, p, done, tail, f, r);
    NoEarlier(u, done, f, p);
    if p < |u| && Occurs(u + done, f, p) {
      assert q >= p;
      TooLong(u, p, done, tail, f, r, p);
    } else if q > p' {
      LaterMatchShows(u, p, done, tail, f, r);
    } else if q < 0 {
      NothingLeft(u, p, done, tail, f, r);
    } else {
      SubstRightUnfold(u, p, tail, f, r, p');
      LoopStep(u, done, f, r, q);
      SameMatchStillDiffers(u, p, done, tail, f, r, q);
      PartedShows(u[..q], q, Done(u, done, f, r, q), r + (u[q + |f|..p] + tail), f, r);
      assert u[..q][..q] == u[..q];
    }
  }

  lemma NothingLeft(u: seq<Byte>, p: nat, done: seq<Byte>, tail: seq<Byte>, f: seq<Byte>, r: seq<Byte>)
    requires f != [] && p <= |u| && u[p..] + done != tail
    requires LastUpTo(u + done, f, |u| - 1) < 0 && FindLast(u[..p], f) < 0
    ensures GrowLoop(u + done, f, r, |u| - 1) != SubstRight(u[..p], f, r) + tail
  {
    hide LastUpTo, FindLast;
    assert u + done == u[..p] + (u[p..] + done);
    DropSame(u[..p], u[p..] + done, tail);
  }

  lemma DropSame(a: seq<Byte>, b: seq<Byte>, c: seq<Byte>)
    requires b != c
    ensures a + b != a + c
  {
    assert (a + b)[|a|..] == b && (a + c)[|a|..] == c;
  }

  lemma SameMatchStillDiffers(u: seq<Byte>, p: nat, done: seq<Byte>, tail: seq<Byte>,
                              f: seq<Byte>, r: seq<Byte>, q: nat)
    requires Level(u, p, done, tail, r) && q + |f| <= p && u[p..] + done != tail && 0 < |f| < |r|
    ensures Parted(u[..q], q, Done(u, done, f, r, q), r + (u[q + |f|..p] + tail), f, r)
  {
    var e := q + |f|;
    assert (u + done)[e..] == u[e..p] + (u[p..] + done);
    DropSame(u[e..p], u[p..] + done, tail);
    DropSame(r, (u + done)[e..], u[e..p] + tail);
  }

  // ---- The exact condition ------------------------------------------------------------------------

  lemma NextMatchUnlessRunsInto(a: seq<Byte>, done: seq<Byte>, f: seq<Byte>, r: seq<Byte>)
    requires 0 < |f| < |r| && (done == [] || r <= done)
    ensures if done != [] && RunsInto(a, f, r) then LastUpTo(a + done, f, |a| - 1) > FindLast(a, f)
            else LastUpTo(a + done, f, |a| - 1) == FindLast(a, f)
  {
    hide LastUpTo, FindLast, Joins;
    var q, p := LastUpTo(a + done, f, |a| - 1), FindLast(a, f);
    assert a[..|a|] == a == (a + done)[0..|a|];
    NoEarlier(a, done, f, |a|);
    if done != [] && RunsInto(a, f, r) {
      var k: nat :| Joins(a, f, r, k);
      assert 0 < k < |f| && k <= |a| by { JoinsInside(a, f, r, k); }
      CrossingIffJoins(a, done, f, r, k);
      assert q >= |a| - k;
    } else if q > p {
      if q + |f| <= |a| {
        OccursInSlice(a + done, f, 0, |a|, q);
      } else {
        CrossingIffJoins(a, done, f, r, |a| - q);
      }
    }
  }

  lemma JoinsInside(a: seq<Byte>, f: seq<Byte>, r: seq<Byte>, k: nat)
    requires Joins(a, f, r, k)
    ensures 0 < k < |f| && k <= |a|
  {}

  lemma CleanScanUnfold(a: seq<Byte>, f: seq<Byte>, r: seq<Byte>, p: int)
    requires f != [] && p == FindLast(a, f)
    ensures p < 0 ==> CleanScan(a, f, r)
    ensures p >= 0 ==> (CleanScan(a, f, r) <==> !RunsInto(a[..p], f, r) && CleanScan(a[..p], f, r))
  {
    hide FindLast, RunsInto;
    if p >= 0 {
      var ps := RightScan(a[..p], f);
      assert RightScan(a, f) == ps + [p];
      forall q | q in ps ensures a[..p][..q] == a[..q] {}
      assert p in RightScan(a, f) && forall q :: q in ps ==> q in RightScan(a, f);
    }
  }

  /** From any point of the loop: it finishes as the scan does if and only if no match in front of
      the cursor, nor the cursor itself, has a joint before it. */
  lemma {:induction false} LoopMatchesScanIff(a: seq<Byte>, done: seq<Byte>, f: seq<Byte>, r: seq<Byte>)
    requires 0 < |f| < |r| && (done == [] || r <= done)
    ensures GrowLoop(a + done, f, r, |a| - 1) == SubstRight(a, f, r) + done <==>
            CleanScan(a, f, r) && (done == [] || !RunsInto(a, f, r))
    decreases |a|
  {
    hide LastUpTo, FindLast, GrowLoop, SubstRight, CleanScan, RunsInto;
    var p := FindLast(a, f);
    assert a[..|a|] == a;
    NextMatchUnlessRunsInto(a, done, f, r);
    CleanScanUnfold(a, f, r, p);
    if done != [] && RunsInto(a, f, r) {
      LaterMatchShows(a, |a|, done, done, f, r);
    } else if p < 0 {
      NoMatchBothSame(a, done, f, r);
    } else {
      SubstRightUnfold(a, |a|, done, f, r, p);
      LoopStep(a, done, f, r, p);
      var rest := r + (a[p + |f|..|a|] + done);
      assert Done(a, done, f, r, p) == rest;
      LoopMatchesScanIff(a[..p], rest, f, r);
    }
  }

  lemma NoMatchBothSame(a: seq<Byte>, done: seq<Byte>, f: seq<Byte>, r: seq<Byte>)
    requires f != [] && FindLast(a, f) < 0 && LastUpTo(a + done, f, |a| - 1) < 0
    ensures GrowLoop(a + done, f, r, |a| - 1) == SubstRight(a, f, r) + done
  {}

  /** Exact condition on one text: the growing branch is right on `t` if and only if in front of
      no match of the right-to-left scan the text runs into the replacement. */
  lemma GrowsCorrectlyIffCleanScan(t: seq<Byte>, f: seq<Byte>, r: seq<Byte>)
    requires 0 < |f| < |r|
    ensures GrowsCorrectly(t, f, r) <==> CleanScan(t, f, r)
  {
    hide GrowLoop, SubstRight, SubstLeft, CleanScan;
    LoopMatchesScanIff(t, [], f, r);
    assert t + [] == t && SubstRight(t, f, r) + [] == SubstRight(t, f, r);
    CountsAgree(t, f);
    SubstLeftLength(t, f, r);
    SubstRightLength(t, f, r);
  }
}

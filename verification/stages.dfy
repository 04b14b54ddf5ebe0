/** The two solving stages of the double-stub script and its final report.
    The root finder (`scipy.optimize.fsolve` on the stage residuals) is a
    parameter: it maps an initial guess and a tolerance to the value the
    script reads as `sol[0]`. */
module Stages {
  import opened Results
  import opened PyList
  import opened Duplicates

  /** A stub length is kept only strictly inside (0, 0.5) wavelengths. */
  predicate InWindow(x: real) {
    0.0 < x < 0.5
  }

  /** `range(1, 500)`: the number of starting guesses per scan. */
  const StartCount: nat := 499

  /** The tolerance stage 2 passes to the root finder, whatever `precision` is. */
  const Stage2Tolerance: real := 0.00000001

  /** Stage-1 root finder: (initial guess, xtol) to the returned stub-1 length. */
  type StubOneFinder = (real, real) -> real

  /** Stage-2 root finder: (fixed stub-1 length, initial guess, xtol) to the
      returned stub-2 length. */
  type StubTwoFinder = (real, real, real) -> real

  /** The starting guesses `0.001 * i` for `i` in `1 .. 499`. */
  function Guesses(): (g: seq<real>)
    ensures |g| == StartCount
    ensures forall k :: 0 <= k < |g| ==> InWindow(g[k])
    ensures forall i, j :: 0 <= i < j < |g| ==> g[i] < g[j]
  {
    seq(StartCount, k requires 0 <= k < StartCount => 0.001 * (k + 1) as real)
  }

  // ---------------------------------------------------------------------------
  // Stage 1
  // ---------------------------------------------------------------------------

  /** The values the stage-1 scan hands to the accept filter, one per guess,
      each found with `xtol = precision`. */
  function StubOneCandidates(find: StubOneFinder, precision: real): (c: seq<real>)
    ensures |c| == StartCount
    ensures forall k :: 0 <= k < |c| ==> c[k] == find(0.001 * (k + 1) as real, precision)
  {
    var g := Guesses();
    seq(StartCount, k requires 0 <= k < StartCount => find(g[k], precision))
  }

  /** The stage-1 accept test: inside the window and more than `precision`
      away from the value kept last. */
  predicate AcceptsAfter(x: real, last: real, precision: real) {
    InWindow(x) && Abs(x - last) > precision
  }

  /** Each entry differs from the one before it by more than `precision`. */
  ghost predicate NeighboursApart(z: seq<real>, precision: real) {
    forall i, j :: 0 <= i < j < |z| && j == i + 1 ==> Abs(z[j] - z[i]) > precision
  }

  /** Dropping the head keeps neighbours apart; with a `0.0` head, the new
      head exceeds `precision`. */
  lemma NeighboursApartTail(z: seq<real>, precision: real)
    requires |z| > 0 && z[0] == 0.0 && NeighboursApart(z, precision)
    requires forall k :: 1 <= k < |z| ==> InWindow(z[k])
    ensures NeighboursApart(z[1..], precision)
    ensures |z| > 1 ==> z[1] > precision
  {
    forall i, j | 0 <= i < j < |z[1..]| && j == i + 1
      ensures Abs(z[1..][j] - z[1..][i]) > precision
    {
      assert z[1..][j] == z[j + 1] && z[1..][i] == z[i + 1];
    }
    if |z| > 1 {
      assert Abs(z[1] - z[0]) > precision;
    }
  }

  /** The list `z` after the stage-1 scan over `cands`: the sentinel `0.0`
      followed by each candidate the accept test let through, at most one
      value per candidate. */
  function CollectStubOne(cands: seq<real>, precision: real): (z: seq<real>)
    ensures |z| >= 1 && z[0] == 0.0
    ensures |z| <= |cands| + 1
    decreases |cands|
  {
    if |cands| == 0 then [0.0]
    else
      var z := CollectStubOne(cands[..|cands| - 1], precision);
      var x := cands[|cands| - 1];
      if AcceptsAfter(x, z[|z| - 1], precision) then z + [x] else z
  }

  /** One candidate more: it is appended exactly when the accept test passes. */
  lemma CollectStubOneStep(cands: seq<real>, precision: real)
    requires |cands| > 0
    ensures var z := CollectStubOne(cands[..|cands| - 1], precision);
      var x := cands[|cands| - 1];
      CollectStubOne(cands, precision) == if AcceptsAfter(x, z[|z| - 1], precision) then z + [x] else z
  {
  }

  /** Everything kept after the sentinel lies in the window, neighbours differ
      by more than `precision`, and the kept values appear among the
      candidates in the order found. */
  lemma CollectStubOneFacts(cands: seq<real>, precision: real)
    ensures var z := CollectStubOne(cands, precision);
      && (forall k :: 1 <= k < |z| ==> InWindow(z[k]))
      && NeighboursApart(z, precision)
      && IsSubsequence(z[1..], cands)
  {
    CollectStubOneInWindow(cands, precision);
    CollectStubOneApart(cands, precision);
    CollectStubOneSubsequence(cands, precision);
  }

  lemma {:induction false} CollectStubOneInWindow(cands: seq<real>, precision: real)
    ensures var z := CollectStubOne(cands, precision);
      forall k :: 1 <= k < |z| ==> InWindow(z[k])
    decreases |cands|
  {
    if |cands| > 0 {
      CollectStubOneInWindow(cands[..|cands| - 1], precision);
      CollectStubOneStep(cands, precision);
    }
  }

  lemma {:induction false} CollectStubOneApart(cands: seq<real>, precision: real)
    ensures NeighboursApart(CollectStubOne(cands, precision), precision)
    decreases |cands|
  {
    if |cands| > 0 {
      var zf := CollectStubOne(cands[..|cands| - 1], precision);
      var x := cands[|cands| - 1];
      CollectStubOneApart(cands[..|cands| - 1], precision);
      CollectStubOneStep(cands, precision);
      if AcceptsAfter(x, zf[|zf| - 1], precision) {
        ApartAppend(zf, x, precision);
      }
    }
  }

  /** Appending a value far enough from the last one keeps neighbours apart. */
  lemma ApartAppend(zf: seq<real>, x: real, precision: real)
    requires |zf| > 0 && NeighboursApart(zf, precision)
    requires Abs(x - zf[|zf| - 1]) > precision
    ensures NeighboursApart(zf + [x], precision)
  {
    var z := zf + [x];
    forall i, j | 0 <= i < j < |z| && j == i + 1
      ensures Abs(z[j] - z[i]) > precision
    {
      if j < |zf| {
        assert z[j] == zf[j] && z[i] == zf[i];
      } else {
        assert z[j] == x && z[i] == zf[|zf| - 1];
      }
    }
  }

  lemma {:induction false} CollectStubOneSubsequence(cands: seq<real>, precision: real)
    ensures IsSubsequence(CollectStubOne(cands, precision)[1..], cands)
    decreases |cands|
  {
    if |cands| > 0 {
      var front := cands[..|cands| - 1];
      var zf := CollectStubOne(front, precision);
      var x := cands[|cands| - 1];
      CollectStubOneSubsequence(front, precision);
      CollectStubOneStep(cands, precision);
      assert cands == front + [x];
      var z := CollectStubOne(cands, precision);
      if AcceptsAfter(x, zf[|zf| - 1], precision) {
        assert z[1..] == zf[1..] + [x];
        SubsequenceAppendBoth(zf[1..], front, x);
      } else {
        SubsequenceAppendRight(zf[1..], front, x);
      }
    } else {
      assert CollectStubOne(cands, precision)[1..] == [];
    }
  }

  /** `x` was kept in `z`, or lies within `precision` of a value kept in `z`. */
  predicate Covered(x: real, z: seq<real>, precision: real) {
    exists k :: 0 <= k < |z| && (z[k] == x || Abs(x - z[k]) <= precision)
  }

  /** The accept test turns away an in-window candidate only when it is
      within `precision` of the value kept just before it: every in-window
      candidate ends up kept or covered by a kept value. */
  lemma {:induction false} CollectStubOneCovers(cands: seq<real>, precision: real)
    ensures var z := CollectStubOne(cands, precision);
      forall i :: 0 <= i < |cands| && InWindow(cands[i]) ==> Covered(cands[i], z, precision)
    decreases |cands|
  {
    if |cands| > 0 {
      var n := |cands| - 1;
      var front := cands[..n];
      var zf := CollectStubOne(front, precision);
      var z := CollectStubOne(cands, precision);
      var x := cands[n];
      CollectStubOneCovers(front, precision);
      var accepted := AcceptsAfter(x, zf[|zf| - 1], precision);
      CollectStubOneStep(cands, precision);
      CoveredGrows(zf, z, precision);
      forall i | 0 <= i < |cands| && InWindow(cands[i])
        ensures Covered(cands[i], z, precision)
      {
        if i < n {
          assert front[i] == cands[i];
          assert Covered(front[i], zf, precision);
        } else if accepted {
          assert z[|z| - 1] == x;
        } else {
          assert z[|zf| - 1] == zf[|zf| - 1];
        }
      }
    }
  }

  /** A value covered by a list stays covered by any extension of it. */
  lemma CoveredGrows(zf: seq<real>, z: seq<real>, precision: real)
    requires |zf| <= |z| && z[..|zf|] == zf
    ensures forall x :: Covered(x, zf, precision) ==> Covered(x, z, precision)
  {
    forall x | Covered(x, zf, precision)
      ensures Covered(x, z, precision)
    {
      var k :| 0 <= k < |zf| && (zf[k] == x || Abs(x - zf[k]) <= precision);
      assert z[k] == zf[k];
    }
  }

  /** `z` after `z.pop(0)`: the accepted stage-1 roots without the sentinel.
      Each lies in the window, the first exceeds `precision` and neighbours
      differ by more than `precision`. */
  function AcceptedStubOne(cands: seq<real>, precision: real): (z: seq<real>)
    ensures forall k :: 0 <= k < |z| ==> InWindow(z[k])
    ensures |z| > 0 ==> z[0] > precision
    ensures NeighboursApart(z, precision)
    ensures IsSubsequence(z, cands)
  {
    var collected := CollectStubOne(cands, precision);
    PopEnds(collected);
    AcceptedFacts(collected, cands, precision);
    Pop(collected, 0).value
  }

  /** What dropping the sentinel leaves of a collected stage-1 list. */
  lemma AcceptedFacts(collected: seq<real>, cands: seq<real>, precision: real)
    requires collected == CollectStubOne(cands, precision)
    ensures var z := collected[1..];
      && (forall k :: 0 <= k < |z| ==> InWindow(z[k]))
      && (|z| > 0 ==> z[0] > precision)
      && NeighboursApart(z, precision)
      && IsSubsequence(z, cands)
  {
    CollectStubOneFacts(cands, precision);
    NeighboursApartTail(collected, precision);
    forall k | 0 <= k < |collected[1..]|
      ensures InWindow(collected[1..][k])
    {
      assert collected[1..][k] == collected[k + 1];
    }
  }

  /** What survives `z.pop(0)`: every in-window candidate is covered by an
      accepted root, or else lies at most `precision` above zero, where only
      the sentinel covered it. Such a small root is lost. */
  lemma AcceptedStubOneCovers(cands: seq<real>, precision: real)
    ensures var z := AcceptedStubOne(cands, precision);
      forall i :: 0 <= i < |cands| && InWindow(cands[i]) ==>
        Covered(cands[i], z, precision) || cands[i] <= precision
  {
    var collected := CollectStubOne(cands, precision);
    PopEnds(collected);
    CollectStubOneCovers(cands, precision);
    forall i | 0 <= i < |cands| && InWindow(cands[i]) && cands[i] > precision
      ensures Covered(cands[i], collected[1..], precision)
    {
      CoveredPastSentinel(cands[i], collected, precision);
    }
  }

  /** A positive value above `precision` that a list headed by `0.0` covers is covered
      by the rest of the list. */
  lemma CoveredPastSentinel(x: real, z: seq<real>, precision: real)
    requires |z| > 0 && z[0] == 0.0 && x > 0.0 && x > precision
    requires Covered(x, z, precision)
    ensures Covered(x, z[1..], precision)
  {
    var k :| 0 <= k < |z| && (z[k] == x || Abs(x - z[k]) <= precision);
    if k == 0 {
      assert false;
    }
    assert z[1..][k - 1] == z[k];
  }

  /** The sentinel `0.0` takes part in the accept test, so a root in
      (0, `precision`] is turned away before `z.pop(0)` removes the sentinel. */
  lemma SmallRootLost(c: seq<real>)
    requires c == [0.005]
    ensures AcceptedStubOne(c, 0.01) == []
  {
    assert c[..0] == [];
    CollectStubOneStep(c, 0.01);
    assert CollectStubOne(c, 0.01) == [0.0];
    PopEnds([0.0]);
  }

  /** The stage-1 stub lengths `z` after both removal passes. */
  function StubOneRoots(cands: seq<real>, precision: real): (z: seq<real>)
    ensures forall k :: 0 <= k < |z| ==> InWindow(z[k])
    ensures |z| > 0 ==> z[0] > precision
    ensures forall m :: 0 < m < |z| ==> !SameRoot(z[0], z[m], precision)
    ensures forall m :: 1 < m < |z| ==> !SameRoot(z[1], z[m], precision)
    ensures IsSubsequence(z, cands)
  {
    var accepted := AcceptedStubOne(cands, precision);
    DedupOfWindowValues(accepted, cands, precision);
    Dedup(accepted, precision)
  }

  /** Removing repeats from window values that form a subsequence of the
      candidates leaves window values that still do. */
  lemma DedupOfWindowValues(accepted: seq<real>, cands: seq<real>, precision: real)
    requires forall k :: 0 <= k < |accepted| ==> InWindow(accepted[k])
    requires IsSubsequence(accepted, cands)
    ensures var z := Dedup(accepted, precision);
      && (forall k :: 0 <= k < |z| ==> InWindow(z[k]))
      && IsSubsequence(z, cands)
  {
    var z := Dedup(accepted, precision);
    SubsequenceTransitive(z, accepted, cands);
    AllInWindowSubsequence(z, accepted);
  }

  /** The accept test compares only with the value kept last, so a root found
      again later passes it; the first removal pass then drops the repeat. */
  lemma StubOneRepeatRemoved()
    ensures AcceptedStubOne([0.1, 0.2, 0.1], 0.01) == [0.1, 0.2, 0.1]
    ensures StubOneRoots([0.1, 0.2, 0.1], 0.01) == [0.1, 0.2]
  {
    var c := [0.1, 0.2, 0.1];
    CollectRepeat(c);
    PopEnds([0.0, 0.1, 0.2, 0.1]);
    assert [0.0, 0.1, 0.2, 0.1][1..] == c;
    FirstPassDropsRepeat(c);
  }

  lemma CollectRepeat(c: seq<real>)
    requires c == [0.1, 0.2, 0.1]
    ensures CollectStubOne(c, 0.01) == [0.0, 0.1, 0.2, 0.1]
  {
    CollectFirstTwo(c[..2]);
    assert c[..2] == [0.1, 0.2];
    CollectStubOneStep(c, 0.01);
  }

  lemma CollectFirstTwo(c: seq<real>)
    requires c == [0.1, 0.2]
    ensures CollectStubOne(c, 0.01) == [0.0, 0.1, 0.2]
  {
    assert c[..1] == [0.1] && [0.1][..0] == [];
    CollectStubOneStep([0.1], 0.01);
    CollectStubOneStep(c, 0.01);
  }

  lemma FirstPassDropsRepeat(z: seq<real>)
    requires z == [0.1, 0.2, 0.1]
    ensures DedupPass(z, 0, 0.01) == [0.1, 0.2]
  {
    assert !SameRoot(0.1, 0.2, 0.01) && SameRoot(0.1, 0.1, 0.01);
    assert NearSet(z, 0, 0.01) == {2} by {
      forall k
        ensures k in NearSet(z, 0, 0.01) <==> k == 2
      {
        if k == 1 {
          assert z[1] == 0.2;
        } else if k == 2 {
          assert z[2] == 0.1;
        }
      }
    }
    WithoutDropsSuffix(z, {2}, 2);
    WithoutNothing(z[..2], {2});
    assert DedupPass(z, 0, 0.01) == [0.1, 0.2];
  }

  // ---------------------------------------------------------------------------
  // Stage 2
  // ---------------------------------------------------------------------------

  /** The values the stage-2 scan produces: for each stage-1 root in turn, one
      per guess, each found with the fixed tolerance `Stage2Tolerance`. */
  function StubTwoCandidates(z: seq<real>, find: StubTwoFinder): (c: seq<real>)
    ensures |c| == |z| * StartCount
    ensures forall i, k :: 0 <= i < |z| && 0 <= k < StartCount ==>
              c[i * StartCount + k] == find(z[i], Guesses()[k], Stage2Tolerance)
    decreases |z|
  {
    if |z| == 0 then []
    else
      var g := Guesses();
      var front := StubTwoCandidates(z[..|z| - 1], find);
      var block := seq(StartCount, k requires 0 <= k < StartCount => find(z[|z| - 1], g[k], Stage2Tolerance));
      var c := front + block;
      assert forall i, k :: 0 <= i < |z| && 0 <= k < StartCount ==>
               c[i * StartCount + k] == find(z[i], g[k], Stage2Tolerance) by {
        forall i, k | 0 <= i < |z| && 0 <= k < StartCount
          ensures c[i * StartCount + k] == find(z[i], g[k], Stage2Tolerance)
        {
          if i < |z| - 1 {
            assert i * StartCount + k < (|z| - 1) * StartCount;
            assert c[i * StartCount + k] == front[i * StartCount + k];
            assert z[..|z| - 1][i] == z[i];
          } else {
            assert i * StartCount + k == |front| + k;
          }
        }
      }
      c
  }

  /** The list `w` after the stage-2 scan: the sentinel `0.0` followed by every
      candidate inside the window, with no adjacency test; at most one value
      per candidate. */
  function CollectStubTwo(cands: seq<real>): (w: seq<real>)
    ensures |w| >= 1 && w[0] == 0.0
    ensures |w| <= |cands| + 1
    decreases |cands|
  {
    if |cands| == 0 then [0.0]
    else
      var w := CollectStubTwo(cands[..|cands| - 1]);
      var x := cands[|cands| - 1];
      if InWindow(x) then w + [x] else w
  }

  /** One candidate more: it is appended exactly when it lies in the window. */
  lemma CollectStubTwoAppend(cands: seq<real>)
    requires |cands| > 0
    ensures var w := CollectStubTwo(cands[..|cands| - 1]);
      var x := cands[|cands| - 1];
      CollectStubTwo(cands) == if InWindow(x) then w + [x] else w
  {
  }

  /** Everything kept after the sentinel lies in the window and appears among
      the candidates in the order found. */
  lemma CollectStubTwoFacts(cands: seq<real>)
    ensures var w := CollectStubTwo(cands);
      && (forall k :: 1 <= k < |w| ==> InWindow(w[k]))
      && IsSubsequence(w[1..], cands)
  {
    CollectStubTwoInWindow(cands);
    CollectStubTwoSubsequence(cands);
  }

  lemma {:induction false} CollectStubTwoInWindow(cands: seq<real>)
    ensures var w := CollectStubTwo(cands);
      forall k :: 1 <= k < |w| ==> InWindow(w[k])
    decreases |cands|
  {
    if |cands| > 0 {
      CollectStubTwoInWindow(cands[..|cands| - 1]);
      CollectStubTwoAppend(cands);
    }
  }

  lemma {:induction false} CollectStubTwoSubsequence(cands: seq<real>)
    ensures IsSubsequence(CollectStubTwo(cands)[1..], cands)
    decreases |cands|
  {
    if |cands| > 0 {
      var front := cands[..|cands| - 1];
      var wf := CollectStubTwo(front);
      var x := cands[|cands| - 1];
      CollectStubTwoSubsequence(front);
      CollectStubTwoAppend(cands);
      assert cands == front + [x];
      var w := CollectStubTwo(cands);
      if InWindow(x) {
        assert w[1..] == wf[1..] + [x];
        SubsequenceAppendBoth(wf[1..], front, x);
      } else {
        SubsequenceAppendRight(wf[1..], front, x);
      }
    } else {
      assert CollectStubTwo(cands)[1..] == [];
    }
  }

  /** Nothing in the window is lost and nothing outside it is let in: after
      the sentinel, `w` holds each window value exactly as often as the
      candidates do. */
  lemma {:induction false} CollectStubTwoKeepsWindow(cands: seq<real>)
    ensures var w := CollectStubTwo(cands);
      forall x :: multiset(w[1..])[x] == if InWindow(x) then multiset(cands)[x] else 0
    decreases |cands|
  {
    if |cands| > 0 {
      var n := |cands| - 1;
      var front := cands[..n];
      var wf := CollectStubTwo(front);
      var w := CollectStubTwo(cands);
      var y := cands[n];
      CollectStubTwoKeepsWindow(front);
      CollectStubTwoAppend(cands);
      assert cands == front + [y];
      if InWindow(y) {
        assert w[1..] == wf[1..] + [y];
      } else {
        assert w[1..] == wf[1..];
      }
      WindowCountsStep(front, y, wf[1..]);
    }
  }

  /** One candidate more keeps the window counts exact. */
  lemma WindowCountsStep(front: seq<real>, y: real, kept: seq<real>)
    requires forall x :: multiset(kept)[x] == if InWindow(x) then multiset(front)[x] else 0
    ensures var next := if InWindow(y) then kept + [y] else kept;
      forall x :: multiset(next)[x] == if InWindow(x) then multiset(front + [y])[x] else 0
  {
    assert multiset(front + [y]) == multiset(front) + multiset{y};
    if InWindow(y) {
      assert multiset(kept + [y]) == multiset(kept) + multiset{y};
    }
  }

  /** Some candidate lies inside the window. */
  predicate HasInWindow(cands: seq<real>) {
    exists i :: 0 <= i < |cands| && InWindow(cands[i])
  }

  /** Two candidates, at different positions, lie inside the window. */
  predicate HasTwoInWindow(cands: seq<real>) {
    exists i, j :: 0 <= i < j < |cands| && InWindow(cands[i]) && InWindow(cands[j])
  }

  /** A window value among the candidates is the last one or an earlier one. */
  lemma HasInWindowStep(cands: seq<real>)
    requires |cands| > 0
    ensures HasInWindow(cands) <==>
      HasInWindow(cands[..|cands| - 1]) || InWindow(cands[|cands| - 1])
  {
    var n := |cands| - 1;
    var front := cands[..n];
    if HasInWindow(front) {
      var i :| 0 <= i < |front| && InWindow(front[i]);
      assert cands[i] == front[i];
    }
    if HasInWindow(cands) {
      var i :| 0 <= i < |cands| && InWindow(cands[i]);
      if i < n {
        assert front[i] == cands[i];
      }
    }
  }

  /** Two window values among the candidates are both earlier ones, or an
      earlier one and the last. */
  lemma HasTwoInWindowStep(cands: seq<real>)
    requires |cands| > 0
    ensures HasTwoInWindow(cands) <==>
      HasTwoInWindow(cands[..|cands| - 1])
      || (HasInWindow(cands[..|cands| - 1]) && InWindow(cands[|cands| - 1]))
  {
    var n := |cands| - 1;
    var front := cands[..n];
    if HasTwoInWindow(front) {
      var i, j :| 0 <= i < j < |front| && InWindow(front[i]) && InWindow(front[j]);
      assert cands[i] == front[i] && cands[j] == front[j];
    }
    if HasInWindow(front) && InWindow(cands[n]) {
      var i :| 0 <= i < |front| && InWindow(front[i]);
      assert cands[i] == front[i];
    }
    if HasTwoInWindow(cands) {
      var i, j :| 0 <= i < j < |cands| && InWindow(cands[i]) && InWindow(cands[j]);
      assert front[i] == cands[i];
      if j < n {
        assert front[j] == cands[j];
      }
    }
  }

  /** The stage-2 scan keeps a candidate exactly when some candidate lies in the window. */
  lemma {:induction false} CollectStubTwoNonEmpty(cands: seq<real>)
    ensures |CollectStubTwo(cands)| >= 2 <==> HasInWindow(cands)
    decreases |cands|
  {
    if |cands| > 0 {
      CollectStubTwoNonEmpty(cands[..|cands| - 1]);
      CollectStubTwoAppend(cands);
      HasInWindowStep(cands);
    }
  }

  /** The stage-2 scan keeps two candidates exactly when two candidates lie in the window. */
  lemma {:induction false} CollectStubTwoPair(cands: seq<real>)
    ensures |CollectStubTwo(cands)| >= 3 <==> HasTwoInWindow(cands)
    decreases |cands|
  {
    if |cands| > 0 {
      var front := cands[..|cands| - 1];
      CollectStubTwoPair(front);
      CollectStubTwoNonEmpty(front);
      CollectStubTwoAppend(cands);
      HasTwoInWindowStep(cands);
    }
  }

  /** `w.pop(0)`, `w.pop(0)`, `w.pop(-1)`: drop the sentinel, the first and the
      last accepted candidate. The third `pop` needs two accepted candidates. */
  function TrimStubTwo(w: seq<real>): (r: Result<seq<real>>)
    ensures r.Ok? <==> |w| >= 3
    ensures r.Ok? ==> r.value == w[2..|w| - 1]
    ensures !r.Ok? ==> r.error == PopFromEmptyList
  {
    match Pop(w, 0)
    case Fail(e) => Fail(e)
    case Ok(w1) =>
      PopEnds(w);
      match Pop(w1, 0)
      case Fail(e) => Fail(e)
      case Ok(w2) =>
        PopEnds(w1);
        if |w2| > 0 then
          PopEnds(w2);
          assert w2[..|w2| - 1] == w[2..|w| - 1];
          Pop(w2, -1)
        else
          Pop(w2, -1)
  }

  /** Where a failing trim raises: with only the sentinel, the second
      `pop(0)` finds the list empty; with one value after it, `pop(-1)` does. */
  lemma TrimFailingPop(w: seq<real>)
    requires 1 <= |w| <= 2
    ensures |w| == 1 ==> Pop(Pop(w, 0).value, 0) == Fail(PopFromEmptyList)
    ensures |w| == 2 ==> var w2 := Pop(Pop(w, 0).value, 0);
      w2.Ok? && Pop(w2.value, -1) == Fail(PopFromEmptyList)
  {
  }

  /** The trim loses nothing but its ends: each window value occurs in the
      trimmed list as often as among the candidates, less one for the first
      accepted value `w[1]` and one for the last accepted value. */
  lemma TrimKeepsMiddle(cands: seq<real>)
    requires HasTwoInWindow(cands)
    ensures var w := CollectStubTwo(cands);
      var trimmed := TrimStubTwo(w);
      && trimmed.Ok?
      && forall x :: multiset(trimmed.value)[x]
                       + (if x == w[1] then 1 else 0) + (if x == w[|w| - 1] then 1 else 0)
                     == if InWindow(x) then multiset(cands)[x] else 0
  {
    var w := CollectStubTwo(cands);
    CollectStubTwoPair(cands);
    var mid := TrimStubTwo(w).value;
    assert mid == w[2..|w| - 1];
    CollectStubTwoKeepsWindow(cands);
    TrimCounts(w);
    forall x
      ensures multiset(mid)[x] + (if x == w[1] then 1 else 0) + (if x == w[|w| - 1] then 1 else 0)
              == if InWindow(x) then multiset(cands)[x] else 0
    {
      assert multiset(w[1..])[x] == if InWindow(x) then multiset(cands)[x] else 0;
    }
  }

  /** Counting what `w[2..|w| - 1]` loses of `w[1..]`. */
  lemma TrimCounts(w: seq<real>)
    requires |w| >= 3
    ensures forall x :: multiset(w[2..|w| - 1])[x]
                          + (if x == w[1] then 1 else 0) + (if x == w[|w| - 1] then 1 else 0)
                        == multiset(w[1..])[x]
  {
    var mid := w[2..|w| - 1];
    assert w[1..] == [w[1]] + mid + [w[|w| - 1]];
    assert multiset(w[1..]) == multiset{w[1]} + multiset(mid) + multiset{w[|w| - 1]};
  }

  /** The stage-2 stub lengths `w` after trimming and both removal passes.
      The run fails exactly when fewer than two candidates lie in the window. */
  function StubTwoRoots(cands: seq<real>, precision: real): (r: Result<seq<real>>)
    ensures r.Ok? <==> HasTwoInWindow(cands)
    ensures !r.Ok? ==> r.error == PopFromEmptyList
    ensures r.Ok? ==> forall k :: 0 <= k < |r.value| ==> InWindow(r.value[k])
    ensures r.Ok? ==> forall m :: 0 < m < |r.value| ==> !SameRoot(r.value[0], r.value[m], precision)
    ensures r.Ok? ==> forall m :: 1 < m < |r.value| ==> !SameRoot(r.value[1], r.value[m], precision)
    ensures r.Ok? ==> IsSubsequence(r.value, cands)
  {
    var trimmed := TrimStubTwo(CollectStubTwo(cands));
    StubTwoFacts(cands, precision);
    if trimmed.Fail? then Fail(trimmed.error) else Ok(Dedup(trimmed.value, precision))
  }

  /** The trim succeeds exactly when two candidates lie in the window, and
      what the removal passes then leave lies in the window and appears among
      the candidates. */
  lemma StubTwoFacts(cands: seq<real>, precision: real)
    ensures var trimmed := TrimStubTwo(CollectStubTwo(cands));
      && (trimmed.Ok? <==> HasTwoInWindow(cands))
      && (trimmed.Ok? ==> var roots := Dedup(trimmed.value, precision);
            && (forall k :: 0 <= k < |roots| ==> InWindow(roots[k]))
            && IsSubsequence(roots, cands))
  {
    var w := CollectStubTwo(cands);
    CollectStubTwoPair(cands);
    CollectStubTwoFacts(cands);
    if |w| >= 3 {
      TrimmedRootsFacts(w, cands, precision);
    }
  }

  /** What the removal passes leave of a trimmed stage-2 list `w[2..|w| - 1]`. */
  lemma TrimmedRootsFacts(w: seq<real>, cands: seq<real>, precision: real)
    requires |w| >= 3
    requires forall k :: 1 <= k < |w| ==> InWindow(w[k])
    requires IsSubsequence(w[1..], cands)
    ensures var roots := Dedup(w[2..|w| - 1], precision);
      && (forall k :: 0 <= k < |roots| ==> InWindow(roots[k]))
      && IsSubsequence(roots, cands)
  {
    var t := w[2..|w| - 1];
    var roots := Dedup(t, precision);
    TrimmedIsSubsequence(w);
    SubsequenceTransitive(t, w[1..], cands);
    SubsequenceTransitive(roots, t, cands);
    MiddleInWindow(w, t);
    AllInWindowSubsequence(roots, t);
  }

  /** The trimmed middle of a list whose entries after the sentinel are
      window values holds only window values. */
  lemma MiddleInWindow(w: seq<real>, t: seq<real>)
    requires |w| >= 3 && t == w[2..|w| - 1]
    requires forall k :: 1 <= k < |w| ==> InWindow(w[k])
    ensures forall k :: 0 <= k < |t| ==> InWindow(t[k])
  {
    forall k | 0 <= k < |t|
      ensures InWindow(t[k])
    {
      assert t[k] == w[k + 2];
    }
  }

  /** A subsequence of window values holds only window values. */
  lemma AllInWindowSubsequence(a: seq<real>, b: seq<real>)
    requires IsSubsequence(a, b)
    requires forall k :: 0 <= k < |b| ==> InWindow(b[k])
    ensures forall k :: 0 <= k < |a| ==> InWindow(a[k])
  {
    SubsequenceMembers(a, b);
    forall k | 0 <= k < |a|
      ensures InWindow(a[k])
    {
      assert a[k] in a;
      var j :| 0 <= j < |b| && b[j] == a[k];
    }
  }

  /** Dropping the sentinel, the first and the last entry keeps a subsequence. */
  lemma TrimmedIsSubsequence(w: seq<real>)
    requires |w| >= 3
    ensures IsSubsequence(w[2..|w| - 1], w[1..])
  {
    var mid := w[2..|w| - 1];
    SubsequenceReflexive(mid);
    assert w[1..][..|w| - 2] == w[1..|w| - 1];
    TailIsSubsequence(w[1..|w| - 1]);
    assert w[1..|w| - 1][1..] == mid;
    assert IsSubsequence(mid, w[1..][..|w| - 2]);
  }

  /** A tail of a list is a subsequence of it. */
  lemma {:induction false} TailIsSubsequence(s: seq<real>)
    requires |s| > 0
    ensures IsSubsequence(s[1..], s)
    decreases |s|
  {
    if |s| > 1 {
      TailIsSubsequence(s[..|s| - 1]);
      assert s[1..][..|s| - 2] == s[..|s| - 1][1..];
    }
  }

  /** The trim discards the first and the last accepted stage-2 value along
      with the sentinel, whatever they are. */
  lemma StubTwoDropsEnds()
    ensures StubTwoRoots([0.1, 0.2, 0.3], 0.01) == Ok([0.2])
    ensures StubTwoRoots([0.1, 0.7], 0.01) == Fail(PopFromEmptyList)
  {
    ThreeLeaveMiddle([0.1, 0.2, 0.3]);
    OneInWindowFails([0.1, 0.7]);
  }

  lemma ThreeLeaveMiddle(c: seq<real>)
    requires c == [0.1, 0.2, 0.3]
    ensures StubTwoRoots(c, 0.01) == Ok([0.2])
  {
    CollectThree(c);
    var w := [0.0, 0.1, 0.2, 0.3];
    assert w[2..|w| - 1] == [0.2];
    assert Dedup([0.2], 0.01) == [0.2];
  }

  lemma OneInWindowFails(d: seq<real>)
    requires d == [0.1, 0.7]
    ensures StubTwoRoots(d, 0.01) == Fail(PopFromEmptyList)
  {
    CollectInAndOut(d);
  }

  lemma CollectThree(c: seq<real>)
    requires c == [0.1, 0.2, 0.3]
    ensures CollectStubTwo(c) == [0.0, 0.1, 0.2, 0.3]
  {
    assert c[..2][..1] == [0.1] && c[..2] == [0.1, 0.2] && [0.1][..0] == [];
    CollectStubTwoAppend([0.1]);
    CollectStubTwoAppend([0.1, 0.2]);
    CollectStubTwoAppend(c);
  }

  lemma CollectInAndOut(d: seq<real>)
    requires d == [0.1, 0.7]
    ensures CollectStubTwo(d) == [0.0, 0.1]
  {
    assert d[..1] == [0.1] && [0.1][..0] == [];
    CollectStubTwoAppend([0.1]);
    CollectStubTwoAppend(d);
  }

  // ---------------------------------------------------------------------------
  // Report
  // ---------------------------------------------------------------------------

  /** One matching solution: the lengths of stub 1 and stub 2, in wavelengths. */
  datatype StubLengths = StubLengths(l1: real, l2: real)

  /** The two cases the script prints. */
  datatype Report = Report(case1: StubLengths, case2: StubLengths)

  /** Reading `z[0], w[0]` and then `z[1], w[1]` for the printout: an
      `IndexError` unless both lists hold two entries. */
  function Reported(z: seq<real>, w: seq<real>): (r: Result<Report>)
    ensures r.Ok? <==> |z| >= 2 && |w| >= 2
    ensures r.Ok? ==> r.value.case1 == StubLengths(z[0], w[0])
    ensures r.Ok? ==> r.value.case2 == StubLengths(z[1], w[1])
    ensures !r.Ok? ==> r.error == ListIndexOutOfRange
  {
    match (Get(z, 0), Get(w, 0), Get(z, 1), Get(w, 1))
    case (Ok(a), Ok(b), Ok(c), Ok(d)) => Ok(Report(StubLengths(a, b), StubLengths(c, d)))
    case _ => Fail(ListIndexOutOfRange)
  }

  /** The whole script for given root finders. A report it produces holds
      window lengths, a first stub-1 length above `precision` and two cases
      whose stub-1 lengths, and whose stub-2 lengths, are not the same root.
      The removal passes never raise, so the only failures are the stage-2
      trim and the final indexing. */
  function Run(find1: StubOneFinder, find2: StubTwoFinder, precision: real): (r: Result<Report>)
    ensures r.Ok? ==> var rep := r.value;
      && InWindow(rep.case1.l1) && InWindow(rep.case2.l1)
      && InWindow(rep.case1.l2) && InWindow(rep.case2.l2)
      && rep.case1.l1 > precision
      && !SameRoot(rep.case1.l1, rep.case2.l1, precision)
      && !SameRoot(rep.case1.l2, rep.case2.l2, precision)
    ensures !r.Ok? ==> r.error != PopIndexOutOfRange
  {
    var z := StubOneRoots(StubOneCandidates(find1, precision), precision);
    match StubTwoRoots(StubTwoCandidates(z, find2), precision)
    case Fail(e) => Fail(e)
    case Ok(w) => Reported(z, w)
  }
}

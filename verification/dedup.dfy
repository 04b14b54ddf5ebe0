/** Removal of repeated roots: the two passes that drop every later entry
    lying within `precision` of the first, then of the second, retained root. */
module Duplicates {
  import opened Results
  import opened PyList

  function Abs(x: real): real {
    if x < 0.0 then -x else x
  }

  /** `np.abs(a - b) < precision`: the two values are taken to be the same root. */
  predicate SameRoot(a: real, b: real, precision: real) {
    Abs(a - b) < precision
  }

  /** The positions after `p` whose entry is the same root as `z[p]`. */
  function NearSet(z: seq<real>, p: nat, precision: real): set<int> {
    set k | p < k < |z| && SameRoot(z[p], z[k], precision)
  }

  /** The index loop from position `from` on, appending each position whose
      entry is the same root as `z[p]`. */
  function ScanFrom(z: seq<real>, p: nat, from: nat, precision: real): (idx: seq<int>)
    requires p < from
    ensures StrictlyAscending(idx)
    ensures forall k :: k in idx <==> from <= k < |z| && SameRoot(z[p], z[k], precision)
    decreases |z| - from
  {
    if |z| <= from then []
    else
      var rest := ScanFrom(z, p, from + 1, precision);
      assert forall j :: 0 <= j < |rest| ==> from < rest[j] by {
        forall j | 0 <= j < |rest|
          ensures from < rest[j]
        {
          assert rest[j] in rest;
        }
      }
      (if SameRoot(z[p], z[from], precision) then [from] else []) + rest
  }

  /** `index` as collected by `for j in range(p + 1, len(z))`: the positions of
      `NearSet`, ascending. */
  function NearIndices(z: seq<real>, p: nat, precision: real): (idx: seq<int>)
    ensures StrictlyAscending(idx)
    ensures forall k :: 0 <= k < |idx| ==> p < idx[k] < |z|
    ensures (set k | k in idx) == NearSet(z, p, precision)
  {
    var idx := ScanFrom(z, p, p + 1, precision);
    assert forall k :: 0 <= k < |idx| ==> p < idx[k] < |z| by {
      forall k | 0 <= k < |idx|
        ensures p < idx[k] < |z|
      {
        assert idx[k] in idx;
      }
    }
    idx
  }

  /** What filtering out the positions of `NearSet` guarantees. */
  lemma FilterNearFacts(z: seq<real>, p: nat, precision: real)
    ensures var r := Without(z, NearSet(z, p, precision));
      && IsSubsequence(r, z)
      && |r| <= |z|
      && (|z| <= p + 1 ==> r == z)
      && (p < |z| ==> p < |r| && r[..p + 1] == z[..p + 1])
      && (forall m :: p < m < |r| ==> !SameRoot(r[p], r[m], precision))
  {
    var drop := NearSet(z, p, precision);
    var r := Without(z, drop);
    WithoutIsSubsequence(z, drop);
    if |z| <= p + 1 {
      WithoutNothing(z, drop);
    }
    if p < |z| {
      WithoutKeepsPrefix(z, drop, p + 1);
      forall m | p < m < |r|
        ensures !SameRoot(r[p], r[m], precision)
      {
        var k := WithoutOrigin(z, drop, m);
        assert r[p] == r[..p + 1][p] == z[p];
      }
    }
  }

  /** Popping the collected positions in reverse-sorted order removes exactly
      the positions of `NearSet`, and no `pop` raises. */
  lemma PopNearIsFilter(z: seq<real>, p: nat, precision: real)
    ensures PopAll(z, SortDescending(NearIndices(z, p, precision)))
         == Ok(Without(z, NearSet(z, p, precision)))
  {
    var idx := NearIndices(z, p, precision);
    var order := SortDescending(idx);
    SortedIndices(idx, |z|);
    PopAllDescending(z, order);
  }

  /** One removal pass: collect the positions after `p` holding the same root
      as `z[p]`, sort them in reverse and pop each one. It keeps `z[..p + 1]`,
      leaves nothing after position `p` within `precision` of `z[p]`, and
      removes exactly the positions of `NearSet`. */
  function DedupPass(z: seq<real>, p: nat, precision: real): (r: seq<real>)
    ensures r == Without(z, NearSet(z, p, precision))
    ensures IsSubsequence(r, z) && |r| <= |z|
    ensures |z| <= p + 1 ==> r == z
    ensures p < |z| ==> p < |r| && r[..p + 1] == z[..p + 1]
    ensures forall m :: p < m < |r| ==> !SameRoot(r[p], r[m], precision)
  {
    PopNearIsFilter(z, p, precision);
    FilterNearFacts(z, p, precision);
    PopAll(z, SortDescending(NearIndices(z, p, precision))).value
  }

  /** Both passes: `double_stub.py` lines 103-109 with `p = 0`, then lines
      110-116 with `p = 1`. */
  function Dedup(z: seq<real>, precision: real): (r: seq<real>)
    ensures IsSubsequence(r, z) && |r| <= |z|
    ensures |z| > 0 ==> |r| > 0 && r[0] == z[0]
    ensures forall m :: 0 < m < |r| ==> !SameRoot(r[0], r[m], precision)
    ensures forall m :: 1 < m < |r| ==> !SameRoot(r[1], r[m], precision)
  {
    DedupFacts(z, precision);
    DedupPass(DedupPass(z, 0, precision), 1, precision)
  }

  lemma DedupFacts(z: seq<real>, precision: real)
    ensures var r := DedupPass(DedupPass(z, 0, precision), 1, precision);
      && IsSubsequence(r, z) && |r| <= |z|
      && (|z| > 0 ==> |r| > 0 && r[0] == z[0])
      && (forall m :: 0 < m < |r| ==> !SameRoot(r[0], r[m], precision))
      && (forall m :: 1 < m < |r| ==> !SameRoot(r[1], r[m], precision))
  {
    var once := DedupPass(z, 0, precision);
    var twice := DedupPass(once, 1, precision);
    SubsequenceTransitive(twice, once, z);
    if |z| > 0 {
      PassesKeepHead(z, precision);
    }
    SecondPassKeepsFirst(once, precision);
  }

  /** Neither pass removes the head. */
  lemma PassesKeepHead(z: seq<real>, precision: real)
    requires |z| > 0
    ensures var r := DedupPass(DedupPass(z, 0, precision), 1, precision);
      |r| > 0 && r[0] == z[0]
  {
    var once := DedupPass(z, 0, precision);
    var twice := DedupPass(once, 1, precision);
    assert once[0] == once[..1][0] == z[..1][0] == z[0];
    if |once| > 1 {
      assert twice[0] == twice[..2][0] == once[..2][0];
    }
  }

  /** The second pass keeps the guarantee of the first: its survivors after
      position 0 all stood after position 0 before it. */
  lemma SecondPassKeepsFirst(z: seq<real>, precision: real)
    requires forall m :: 0 < m < |z| ==> !SameRoot(z[0], z[m], precision)
    ensures var r := DedupPass(z, 1, precision);
      forall m :: 0 < m < |r| ==> !SameRoot(r[0], r[m], precision)
  {
    var drop := NearSet(z, 1, precision);
    var r := DedupPass(z, 1, precision);
    forall m | 0 < m < |r|
      ensures !SameRoot(r[0], r[m], precision)
    {
      var k := WithoutOrigin(z, drop, m);
      assert r[0] == r[..2][0] == z[0];
    }
  }

  /** What the two passes keep. Let `z[j]` be the first entry after the head
      that is not the same root as the head; the first pass moves it to
      position 1. Every later entry that is the same root as neither the head
      nor `z[j]` survives both passes. */
  lemma DedupKeepsFar(z: seq<real>, precision: real, j: nat, k: nat)
    requires 0 < j <= k < |z|
    requires forall m :: 0 < m < j ==> SameRoot(z[0], z[m], precision)
    requires !SameRoot(z[0], z[j], precision)
    requires !SameRoot(z[0], z[k], precision)
    requires k == j || !SameRoot(z[j], z[k], precision)
    ensures z[k] in Dedup(z, precision)
  {
    var d0 := NearSet(z, 0, precision);
    var once := DedupPass(z, 0, precision);
    SecondInPlace(z, precision, j);
    var m: nat;
    if k == j {
      m := 1;
    } else {
      WithoutKeeps(z, d0, k);
      m :| 0 <= m < |once| && once[m] == z[k];
    }
    assert m !in NearSet(once, 1, precision);
    WithoutKeeps(once, NearSet(once, 1, precision), m);
  }

  /** The first pass leaves `z[0], z[j]` at the front when `z[j]` is the first
      entry after the head that is not the same root as it. */
  lemma SecondInPlace(z: seq<real>, precision: real, j: nat)
    requires 0 < j < |z|
    requires forall m :: 0 < m < j ==> SameRoot(z[0], z[m], precision)
    requires !SameRoot(z[0], z[j], precision)
    ensures var once := DedupPass(z, 0, precision);
      |once| > 1 && once[0] == z[0] && once[1] == z[j]
  {
    var d0 := NearSet(z, 0, precision);
    HeadThenSecond(z, precision, j);
    WithoutPrefix(z, d0, j + 1);
    var once := Without(z, d0);
    assert once[..2] == [z[0], z[j]];
    assert once[0] == once[..2][0] && once[1] == once[..2][1];
  }

  /** Up to `z[j]`, the first pass keeps the head and `z[j]`. */
  lemma HeadThenSecond(z: seq<real>, precision: real, j: nat)
    requires 0 < j < |z|
    requires forall m :: 0 < m < j ==> SameRoot(z[0], z[m], precision)
    requires !SameRoot(z[0], z[j], precision)
    ensures Without(z[..j + 1], NearSet(z, 0, precision)) == [z[0], z[j]]
  {
    var d0 := NearSet(z, 0, precision);
    var front := z[..j + 1];
    HeadBeforeSecond(z, precision, j);
    assert front[..|front| - 1] == z[..j];
    assert j !in d0;
  }

  /** Before `z[j]`, the first pass keeps only the head. */
  lemma HeadBeforeSecond(z: seq<real>, precision: real, j: nat)
    requires 0 < j < |z|
    requires forall m :: 0 < m < j ==> SameRoot(z[0], z[m], precision)
    ensures Without(z[..j], NearSet(z, 0, precision)) == [z[0]]
  {
    var d0 := NearSet(z, 0, precision);
    WithoutDropsSuffix(z[..j], d0, 1);
    assert z[..j][..1] == z[..1];
    WithoutNothing(z[..1], d0);
  }

  /** A cluster of values that are all the same root as the first collapses to
      that single value. */
  lemma DedupCollapsesCluster(z: seq<real>, precision: real)
    requires |z| > 0
    requires forall k :: 0 < k < |z| ==> SameRoot(z[0], z[k], precision)
    ensures Dedup(z, precision) == [z[0]]
  {
    var drop := NearSet(z, 0, precision);
    WithoutDropsSuffix(z, drop, 1);
    WithoutNothing(z[..1], drop);
    assert DedupPass(z, 0, precision) == [z[0]];
  }

  /** Values that are pairwise farther apart than the tolerance all survive, in order. */
  lemma DedupKeepsDistinct(z: seq<real>, precision: real)
    requires forall i, j :: 0 <= i < j < |z| ==> !SameRoot(z[i], z[j], precision)
    ensures Dedup(z, precision) == z
  {
    assert NearSet(z, 0, precision) == {};
    WithoutNothing(z, {});
    assert NearSet(z, 1, precision) == {};
  }

  /** Only the first two retained roots are compared against: two copies of a
      third root both survive, so the result is not limited to two roots. */
  lemma LaterDuplicatesSurvive()
    ensures Dedup([0.1, 0.2, 0.3, 0.3], 0.01) == [0.1, 0.2, 0.3, 0.3]
  {
    var z := [0.1, 0.2, 0.3, 0.3];
    assert NearSet(z, 0, 0.01) == {} by {
      forall k | 0 < k < |z|
        ensures !SameRoot(z[0], z[k], 0.01)
      {
      }
    }
    WithoutNothing(z, {});
    assert NearSet(z, 1, 0.01) == {} by {
      forall k | 1 < k < |z|
        ensures !SameRoot(z[1], z[k], 0.01)
      {
      }
    }
  }
}

/** The Python list operations the script relies on: `pop`, indexing and
    `sort(reverse=True)`, together with the position filter `Without` that a
    run of pops in descending index order amounts to. */
module PyList {
  import opened Results

  // ---------------------------------------------------------------------------
  // Orderings and subsequences
  // ---------------------------------------------------------------------------

  predicate StrictlyAscending(s: seq<int>) {
    forall i, j :: 0 <= i < j < |s| ==> s[i] < s[j]
  }

  predicate StrictlyDescending(s: seq<int>) {
    forall i, j :: 0 <= i < j < |s| ==> s[i] > s[j]
  }

  predicate NonIncreasing(s: seq<int>) {
    forall i, j :: 0 <= i < j < |s| ==> s[i] >= s[j]
  }

  /** `a` is obtained from `b` by deleting elements, keeping the order of the rest. */
  predicate IsSubsequence<T(==)>(a: seq<T>, b: seq<T>)
    decreases |b|
  {
    if |a| == 0 then true
    else if |b| == 0 then false
    else
      || (a[|a| - 1] == b[|b| - 1] && IsSubsequence(a[..|a| - 1], b[..|b| - 1]))
      || IsSubsequence(a, b[..|b| - 1])
  }

  lemma {:induction false} SubsequenceReflexive<T>(a: seq<T>)
    ensures IsSubsequence(a, a)
    decreases |a|
  {
    if |a| > 0 {
      SubsequenceReflexive(a[..|a| - 1]);
    }
  }

  /** Appending the same element to both lists keeps a subsequence. */
  lemma SubsequenceAppendBoth<T>(a: seq<T>, b: seq<T>, x: T)
    requires IsSubsequence(a, b)
    ensures IsSubsequence(a + [x], b + [x])
  {
    assert (a + [x])[..|a|] == a && (b + [x])[..|b|] == b;
  }

  /** Appending an element to the longer list keeps a subsequence. */
  lemma SubsequenceAppendRight<T>(a: seq<T>, b: seq<T>, x: T)
    requires IsSubsequence(a, b)
    ensures IsSubsequence(a, b + [x])
  {
    assert (b + [x])[..|b|] == b;
  }

  lemma {:induction false} SubsequenceShorter<T>(a: seq<T>, b: seq<T>)
    requires IsSubsequence(a, b)
    ensures |a| <= |b|
    decreases |b|
  {
    if |a| > 0 {
      if a[|a| - 1] == b[|b| - 1] && IsSubsequence(a[..|a| - 1], b[..|b| - 1]) {
        SubsequenceShorter(a[..|a| - 1], b[..|b| - 1]);
      } else {
        SubsequenceShorter(a, b[..|b| - 1]);
      }
    }
  }

  /** Every element of a subsequence occurs in the sequence it was taken from. */
  lemma {:induction false} SubsequenceMembers<T>(a: seq<T>, b: seq<T>)
    requires IsSubsequence(a, b)
    ensures forall x :: x in a ==> x in b
    decreases |b|
  {
    if |a| > 0 {
      var a', b' := a[..|a| - 1], b[..|b| - 1];
      assert a == a' + [a[|a| - 1]];
      assert b == b' + [b[|b| - 1]];
      if a[|a| - 1] == b[|b| - 1] && IsSubsequence(a', b') {
        SubsequenceMembers(a', b');
      } else {
        SubsequenceMembers(a, b');
      }
    }
  }

  /** Deleting elements twice is deleting elements once. */
  lemma {:induction false} SubsequenceTransitive<T>(a: seq<T>, b: seq<T>, c: seq<T>)
    requires IsSubsequence(a, b) && IsSubsequence(b, c)
    ensures IsSubsequence(a, c)
    decreases |c|
  {
    if |a| > 0 {
      SubsequenceShorter(a, b);
      SubsequenceShorter(b, c);
      var a', b', c' := a[..|a| - 1], b[..|b| - 1], c[..|c| - 1];
      if b[|b| - 1] == c[|c| - 1] && IsSubsequence(b', c') {
        if a[|a| - 1] == b[|b| - 1] && IsSubsequence(a', b') {
          SubsequenceTransitive(a', b', c');
        } else {
          SubsequenceTransitive(a, b', c');
        }
      } else {
        SubsequenceTransitive(a, b, c');
      }
    }
  }

  // ---------------------------------------------------------------------------
  // pop and indexing
  // ---------------------------------------------------------------------------

  /** The list without position `i`. */
  function RemoveAt<T>(s: seq<T>, i: nat): (r: seq<T>)
    requires i < |s|
    ensures |r| == |s| - 1
    ensures forall k :: 0 <= k < i ==> r[k] == s[k]
    ensures forall k :: i <= k < |r| ==> r[k] == s[k + 1]
  {
    s[..i] + s[i + 1..]
  }

  /** Python's `s.pop(i)`, keeping only the list it leaves behind; a negative
      `i` counts from the end. */
  function Pop<T>(s: seq<T>, i: int): (r: Result<seq<T>>)
    ensures r.Ok? <==> -|s| <= i < |s|
    ensures r.Ok? ==> r.value == RemoveAt(s, if i < 0 then i + |s| else i)
    ensures |s| == 0 ==> r == Fail(PopFromEmptyList)
    ensures |s| > 0 && !r.Ok? ==> r.error == PopIndexOutOfRange
  {
    if |s| == 0 then Fail(PopFromEmptyList)
    else if i < -|s| || |s| <= i then Fail(PopIndexOutOfRange)
    else Ok(RemoveAt(s, if i < 0 then i + |s| else i))
  }

  /** `pop(0)` drops the head and `pop(-1)` drops the last element. */
  lemma PopEnds<T>(s: seq<T>)
    requires |s| > 0
    ensures Pop(s, 0) == Ok(s[1..])
    ensures Pop(s, -1) == Ok(s[..|s| - 1])
  {
    assert RemoveAt(s, 0) == s[1..];
    assert RemoveAt(s, |s| - 1) == s[..|s| - 1];
  }

  /** Python's `s[i]`; a negative `i` counts from the end. */
  function Get<T>(s: seq<T>, i: int): (r: Result<T>)
    ensures r.Ok? <==> -|s| <= i < |s|
    ensures r.Ok? ==> r.value == s[if i < 0 then i + |s| else i]
    ensures !r.Ok? ==> r.error == ListIndexOutOfRange
  {
    if -|s| <= i < |s| then Ok(s[if i < 0 then i + |s| else i]) else Fail(ListIndexOutOfRange)
  }

  /** `for i in idx: s.pop(i)`, stopping at the first `IndexError`. A run
      that raises nothing leaves one element fewer per index. */
  function PopAll<T>(s: seq<T>, idx: seq<int>): (r: Result<seq<T>>)
    ensures |idx| == 0 ==> r == Ok(s)
    ensures r.Ok? ==> |r.value| + |idx| == |s|
    ensures !r.Ok? ==> r.error == PopFromEmptyList || r.error == PopIndexOutOfRange
    decreases |idx|
  {
    if |idx| == 0 then Ok(s)
    else
      match Pop(s, idx[0])
      case Fail(e) => Fail(e)
      case Ok(rest) => PopAll(rest, idx[1..])
  }

  // ---------------------------------------------------------------------------
  // sort(reverse=True)
  // ---------------------------------------------------------------------------

  function Insert(x: int, s: seq<int>): (r: seq<int>)
    requires NonIncreasing(s)
    ensures NonIncreasing(r)
    ensures multiset(r) == multiset(s) + multiset{x}
    decreases |s|
  {
    if |s| == 0 || s[0] <= x then [x] + s
    else
      var tail := Insert(x, s[1..]);
      assert s == [s[0]] + s[1..];
      BoundedByHead(x, s, tail);
      [s[0]] + tail
  }

  /** Inserting `x` below the head of `s` into its tail keeps every entry at
      most that head. */
  lemma BoundedByHead(x: int, s: seq<int>, tail: seq<int>)
    requires NonIncreasing(s) && |s| > 0 && x < s[0]
    requires NonIncreasing(tail)
    requires multiset(tail) == multiset(s[1..]) + multiset{x}
    ensures forall j :: 0 <= j < |tail| ==> tail[j] <= s[0]
  {
    if |tail| > 0 {
      assert tail[0] in multiset(tail);
      if tail[0] != x {
        assert tail[0] in multiset(s[1..]);
        var k :| 0 <= k < |s[1..]| && s[1..][k] == tail[0];
        assert s[k + 1] == tail[0];
      }
    }
  }

  /** Python's `list.sort(reverse=True)` on integers: a non-increasing
      rearrangement of the same elements. */
  function SortDescending(s: seq<int>): (r: seq<int>)
    ensures NonIncreasing(r)
    ensures multiset(r) == multiset(s)
    decreases |s|
  {
    if |s| == 0 then []
    else
      assert s == [s[0]] + s[1..];
      Insert(s[0], SortDescending(s[1..]))
  }

  /** The head of a non-increasing list is its largest element. */
  lemma HeadIsLargest(a: seq<int>, x: int)
    requires NonIncreasing(a)
    requires x in multiset(a)
    ensures |a| > 0 && x <= a[0]
  {
    var k :| 0 <= k < |a| && a[k] == x;
  }

  /** There is only one non-increasing arrangement of a multiset of integers. */
  lemma {:induction false} NonIncreasingUnique(a: seq<int>, b: seq<int>)
    requires NonIncreasing(a) && NonIncreasing(b)
    requires multiset(a) == multiset(b)
    ensures a == b
    decreases |a|
  {
    if |a| == 0 {
      assert |b| == |multiset(b)| == 0;
    } else {
      assert a[0] in multiset(a);
      HeadIsLargest(b, a[0]);
      assert b[0] in multiset(b);
      HeadIsLargest(a, b[0]);
      assert a[0] == b[0];
      assert a == [a[0]] + a[1..];
      assert b == [b[0]] + b[1..];
      assert multiset(a) == multiset{a[0]} + multiset(a[1..]);
      assert multiset(b) == multiset{b[0]} + multiset(b[1..]);
      assert multiset(a[1..]) == multiset(a) - multiset{a[0]};
      assert multiset(b[1..]) == multiset(b) - multiset{b[0]};
      NonIncreasingUnique(a[1..], b[1..]);
    }
  }

  function Reverse<T>(s: seq<T>): (r: seq<T>)
    ensures |r| == |s|
    ensures forall k :: 0 <= k < |s| ==> r[k] == s[|s| - 1 - k]
    ensures multiset(r) == multiset(s)
    decreases |s|
  {
    if |s| == 0 then []
    else
      assert s == [s[0]] + s[1..];
      Reverse(s[1..]) + [s[0]]
  }

  /** Sorting a strictly ascending index list in reverse order reverses it,
      so the sorted list is strictly descending. */
  lemma SortOfAscendingIsReverse(s: seq<int>)
    requires StrictlyAscending(s)
    ensures SortDescending(s) == Reverse(s)
    ensures StrictlyDescending(SortDescending(s))
  {
    NonIncreasingUnique(SortDescending(s), Reverse(s));
  }

  /** Reverse-sorting ascending positions below `n` gives strictly descending
      positions below `n`, the same ones. */
  lemma SortedIndices(idx: seq<int>, n: int)
    requires StrictlyAscending(idx)
    requires forall k :: 0 <= k < |idx| ==> 0 <= idx[k] < n
    ensures var order := SortDescending(idx);
      && StrictlyDescending(order)
      && (forall k :: 0 <= k < |order| ==> 0 <= order[k] < n)
      && (set k | k in order) == (set k | k in idx)
  {
    var order := SortDescending(idx);
    SortOfAscendingIsReverse(idx);
    forall k | 0 <= k < |order|
      ensures 0 <= order[k] < n
    {
      assert order[k] == idx[|idx| - 1 - k];
    }
    forall k
      ensures k in order <==> k in idx
    {
      assert k in order <==> k in multiset(order);
      assert k in idx <==> k in multiset(idx);
    }
  }

  // ---------------------------------------------------------------------------
  // Filtering by position
  // ---------------------------------------------------------------------------

  /** The elements of `s` whose positions are not in `drop`, in their original order. */
  function Without<T>(s: seq<T>, drop: set<int>): (r: seq<T>)
    decreases |s|
  {
    if |s| == 0 then []
    else Without(s[..|s| - 1], drop) + (if |s| - 1 in drop then [] else [s[|s| - 1]])
  }

  /** Filtering by position keeps a subsequence. */
  lemma {:induction false} WithoutIsSubsequence<T>(s: seq<T>, drop: set<int>)
    ensures IsSubsequence(Without(s, drop), s)
    ensures |Without(s, drop)| <= |s|
    decreases |s|
  {
    if |s| > 0 {
      var p := s[..|s| - 1];
      WithoutIsSubsequence(p, drop);
      var r := Without(s, drop);
      if |s| - 1 !in drop {
        assert r[..|r| - 1] == Without(p, drop);
        assert r[|r| - 1] == s[|s| - 1];
      } else {
        assert r == Without(p, drop);
        if |r| > 0 {
          assert IsSubsequence(r, s[..|s| - 1]);
        }
      }
      assert IsSubsequence(r, s);
    }
    SubsequenceShorter(Without(s, drop), s);
  }

  /** An element at a position outside `drop` survives the filter. */
  lemma {:induction false} WithoutKeeps<T>(s: seq<T>, drop: set<int>, k: nat)
    requires k < |s| && k !in drop
    ensures s[k] in Without(s, drop)
    decreases |s|
  {
    if k < |s| - 1 {
      WithoutKeeps(s[..|s| - 1], drop, k);
      assert s[..|s| - 1][k] == s[k];
    }
  }

  /** Filtering a prefix gives a prefix of the filtered list. */
  lemma {:induction false} WithoutPrefix<T>(s: seq<T>, drop: set<int>, n: nat)
    requires n <= |s|
    ensures |Without(s[..n], drop)| <= |Without(s, drop)|
    ensures Without(s, drop)[..|Without(s[..n], drop)|] == Without(s[..n], drop)
    decreases |s| - n
  {
    if n < |s| {
      WithoutPrefix(s, drop, n + 1);
      assert s[..n + 1][..n] == s[..n];
    } else {
      assert s[..n] == s;
    }
  }

  /** Positions outside the list do not matter. */
  lemma {:induction false} WithoutAgree<T>(s: seq<T>, d1: set<int>, d2: set<int>)
    requires forall k :: 0 <= k < |s| ==> (k in d1 <==> k in d2)
    ensures Without(s, d1) == Without(s, d2)
    decreases |s|
  {
    if |s| > 0 {
      WithoutAgree(s[..|s| - 1], d1, d2);
    }
  }

  /** Dropping no position of the list leaves it unchanged. */
  lemma {:induction false} WithoutNothing<T>(s: seq<T>, drop: set<int>)
    requires forall k :: 0 <= k < |s| ==> k !in drop
    ensures Without(s, drop) == s
    decreases |s|
  {
    if |s| > 0 {
      WithoutNothing(s[..|s| - 1], drop);
      assert s == s[..|s| - 1] + [s[|s| - 1]];
    }
  }

  /** A suffix that holds no dropped position survives whole. */
  lemma {:induction false} WithoutAppend<T>(a: seq<T>, b: seq<T>, drop: set<int>)
    requires forall k :: k in drop ==> k < |a|
    ensures Without(a + b, drop) == Without(a, drop) + b
    decreases |b|
  {
    if |b| > 0 {
      var b' := b[..|b| - 1];
      assert (a + b)[..|a + b| - 1] == a + b';
      WithoutAppend(a, b', drop);
      assert b == b' + [b[|b| - 1]];
    } else {
      assert a + b == a;
    }
  }

  /** Removing the highest dropped position first and then the rest is the
      same as dropping all of them. */
  lemma WithoutRemoveAt<T>(s: seq<T>, i: nat, rest: set<int>)
    requires i < |s|
    requires forall k :: k in rest ==> k < i
    ensures Without(RemoveAt(s, i), rest) == Without(s, rest + {i})
  {
    var front, back := s[..i], s[i + 1..];
    var all := rest + {i};
    WithoutAppend(front, back, rest);
    assert RemoveAt(s, i) == front + back;
    assert s == s[..i + 1] + back;
    WithoutAppend(s[..i + 1], back, all);
    assert s[..i + 1][..i] == front;
    WithoutLastDropped(s[..i + 1], all);
    WithoutAgree(front, all, rest);
  }

  /** A dropped last position contributes nothing. */
  lemma WithoutLastDropped<T>(s: seq<T>, drop: set<int>)
    requires |s| > 0 && |s| - 1 in drop
    ensures Without(s, drop) == Without(s[..|s| - 1], drop)
  {
  }

  /** Popping in-range positions in strictly descending order never raises and
      removes exactly those positions, keeping the survivors in order. */
  lemma {:induction false} PopAllDescending<T>(s: seq<T>, idx: seq<int>)
    requires StrictlyDescending(idx)
    requires forall k :: 0 <= k < |idx| ==> 0 <= idx[k] < |s|
    ensures PopAll(s, idx) == Ok(Without(s, set k | k in idx))
    decreases |idx|
  {
    if |idx| == 0 {
      assert (set k | k in idx) == {};
      WithoutNothing(s, {});
    } else {
      var i := idx[0];
      var tail := idx[1..];
      var shorter := RemoveAt(s, i);
      assert Pop(s, i) == Ok(shorter);
      var rest := set k | k in tail;
      DescendingTail(idx);
      PopAllDescending(shorter, tail);
      WithoutRemoveAt(s, i, rest);
    }
  }

  /** After the first entry of a strictly descending list, the rest is strictly
      descending and lies below it. */
  lemma DescendingTail(idx: seq<int>)
    requires StrictlyDescending(idx) && |idx| > 0
    ensures StrictlyDescending(idx[1..])
    ensures forall k :: 0 <= k < |idx| - 1 ==> idx[1..][k] < idx[0]
    ensures forall k :: k in idx[1..] ==> k < idx[0]
    ensures (set k | k in idx) == (set k | k in idx[1..]) + {idx[0]}
  {
    assert idx == [idx[0]] + idx[1..];
    forall k | k in idx[1..]
      ensures k < idx[0]
    {
      var j :| 0 <= j < |idx[1..]| && idx[1..][j] == k;
      assert idx[j + 1] == k;
    }
  }

  /** Filtering by position never drops a position outside `drop` before `j`. */
  lemma {:induction false} WithoutKeepsPrefix<T>(s: seq<T>, drop: set<int>, j: nat)
    requires j <= |s|
    requires forall k :: 0 <= k < j ==> k !in drop
    ensures |Without(s, drop)| >= j
    ensures Without(s, drop)[..j] == s[..j]
    decreases |s|
  {
    if |s| == j {
      WithoutNothing(s, drop);
    } else {
      WithoutKeepsPrefix(s[..|s| - 1], drop, j);
      assert s[..|s| - 1][..j] == s[..j];
    }
  }

  /** The element at position `m` of the filtered list stood at a kept
      position `k >= m` of the original. */
  lemma {:induction false} WithoutOrigin<T>(s: seq<T>, drop: set<int>, m: nat) returns (k: nat)
    requires m < |Without(s, drop)|
    ensures m <= k < |s| && k !in drop
    ensures Without(s, drop)[m] == s[k]
    decreases |s|
  {
    var p := s[..|s| - 1];
    WithoutIsSubsequence(p, drop);
    if m < |Without(p, drop)| {
      k := WithoutOrigin(p, drop, m);
    } else {
      k := |s| - 1;
    }
  }

  /** Dropping every position from `j` on leaves only what the first `j` positions keep. */
  lemma {:induction false} WithoutDropsSuffix<T>(s: seq<T>, drop: set<int>, j: nat)
    requires j <= |s|
    requires forall k :: j <= k < |s| ==> k in drop
    ensures Without(s, drop) == Without(s[..j], drop)
    decreases |s|
  {
    if |s| > j {
      WithoutDropsSuffix(s[..|s| - 1], drop, j);
      assert s[..|s| - 1][..j] == s[..j];
    } else {
      assert s[..j] == s;
    }
  }
}

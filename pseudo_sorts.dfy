/**
 * The three pseudo-sorting passes of main.c and the driver that repeats one
 * of them until it reports the data sorted (main.c:15-152). A pass returns
 * 1 (here `true`) when it finds the data sorted; the driver stops there.
 */
module PseudoSorts {
  import opened Orders
  import opened Merging
  import opened Sweeps
  import opened Heaps

  // ---------------------------------------------------------------------------
  // Bubble pass

  /**
   * The element c carried up through t by one bubble pass: at each step the
   * larger of the carried element and the next one moves on
   * (`if (array[i-1] > array[i])` exchange).
   */
  function BubbleCarry(c: int, t: seq<int>): (r: seq<int>)
    ensures |r| == |t| + 1
    decreases |t|
  {
    if t == [] then [c] else [Lesser(c, t[0])] + BubbleCarry(Greater(c, t[0]), t[1..])
  }

  /** The element left behind when c meets x: x if c > x (they are exchanged), else c. */
  function Lesser(c: int, x: int): int
  {
    if c > x then x else c
  }

  /** The element carried on when c meets x. */
  function Greater(c: int, x: int): int
  {
    if c > x then c else x
  }

  /** The array after one pass of BubblePseudoSort. */
  function BubbleSweep(s: seq<int>): (r: seq<int>)
    ensures |r| == |s|
  {
    if s == [] then [] else BubbleCarry(s[0], s[1..])
  }

  lemma {:induction false} BubbleCarryPermutes(c: int, t: seq<int>)
    ensures |BubbleCarry(c, t)| == |t| + 1
    ensures multiset(BubbleCarry(c, t)) == multiset([c] + t)
    decreases |t|
  {
    if t != [] {
      assert t == [t[0]] + t[1..];
      BubbleCarryPermutes(Greater(c, t[0]), t[1..]);
    }
  }

  /** One bubble pass is a permutation. */
  lemma BubbleSweepPermutes(s: seq<int>)
    ensures |BubbleSweep(s)| == |s|
    ensures multiset(BubbleSweep(s)) == multiset(s)
  {
    if s != [] {
      BubbleCarryPermutes(s[0], s[1..]);
      assert s == [s[0]] + s[1..];
    }
  }

  /** Every element of BubbleCarry(c, t) comes from [c] + t. */
  lemma BubbleCarryFrom(c: int, t: seq<int>, k: nat)
    requires k <= |t|
    ensures |BubbleCarry(c, t)| == |t| + 1
    ensures BubbleCarry(c, t)[k] in multiset([c] + t)
  {
    BubbleCarryPermutes(c, t);
    assert BubbleCarry(c, t)[k] in multiset(BubbleCarry(c, t));
  }

  /** The carried element ends as the largest one. */
  lemma {:induction false} BubbleCarryLastIsMax(c: int, t: seq<int>)
    ensures MaxLast(BubbleCarry(c, t))
    decreases |t|
  {
    if t != [] {
      var d := Greater(c, t[0]);
      var h := Lesser(c, t[0]);
      var rest := BubbleCarry(d, t[1..]);
      var r := BubbleCarry(c, t);
      assert r == [h] + rest;
      BubbleCarryLastIsMax(d, t[1..]);
      BubbleCarryPermutes(d, t[1..]);
      assert d in multiset([d] + t[1..]);
      MaxLastBound(rest, d);
      forall k | 0 <= k < |r| ensures r[k] <= r[|r| - 1] {
        if k > 0 {
          assert r[k] == rest[k - 1];
        }
      }
      assert MaxLast(r);
    }
  }

  /** A carried element at most the sorted t passes through it unchanged. */
  lemma {:induction false} BubbleCarrySorted(c: int, t: seq<int>)
    requires Sorted([c] + t)
    ensures BubbleCarry(c, t) == [c] + t
    decreases |t|
  {
    if t != [] {
      var u := [c] + t;
      assert u[0] == c && u[1] == t[0];
      assert Sorted([t[0]] + t[1..]) by {
        assert [t[0]] + t[1..] == u[1..];
      }
      BubbleCarrySorted(t[0], t[1..]);
      assert t == [t[0]] + t[1..];
    }
  }

  /** A sorted block q of elements at least all the others is left in place. */
  lemma {:induction false} BubbleCarryAppend(c: int, t: seq<int>, q: seq<int>)
    requires Sorted(q)
    requires forall k :: 0 <= k < |q| ==> c <= q[k]
    requires forall i, k :: 0 <= i < |t| && 0 <= k < |q| ==> t[i] <= q[k]
    ensures BubbleCarry(c, t + q) == BubbleCarry(c, t) + q
    decreases |t|
  {
    if t == [] {
      assert t + q == q;
      assert Sorted([c] + q) by {
        SortedCons(c, q);
      }
      BubbleCarrySorted(c, q);
    } else {
      assert (t + q)[0] == t[0] && (t + q)[1..] == t[1..] + q;
      BubbleCarryAppend(Greater(c, t[0]), t[1..], q);
    }
  }

  /**
   * The last k elements of s are in their final position: sorted, and at
   * least every element before them.
   */
  ghost predicate Settled(s: seq<int>, k: nat)
  {
    k <= |s| && Sorted(s[|s| - k..]) &&
    forall i, j :: 0 <= i < |s| - k <= j < |s| ==> s[i] <= s[j]
  }

  /** With the last |s| - m elements settled, a pass only moves s[..m]. */
  lemma BubbleSweepSplit(s: seq<int>, m: nat)
    requires 1 <= m <= |s| && Settled(s, |s| - m)
    ensures BubbleSweep(s) == BubbleCarry(s[0], s[1..m]) + s[m..]
  {
    var t, q := s[1..m], s[m..];
    assert s[1..] == t + q;
    forall i, j | 0 <= i < |t| && 0 <= j < |q| ensures t[i] <= q[j] {
      assert t[i] == s[i + 1] && q[j] == s[m + j];
    }
    forall j | 0 <= j < |q| ensures s[0] <= q[j] {
      assert q[j] == s[m + j];
    }
    BubbleCarryAppend(s[0], t, q);
  }

  /** Elements of the carried prefix stay below the settled tail. */
  lemma BubbleCarryBelowTail(s: seq<int>, m: nat, i: nat, j: nat)
    requires 1 <= m <= |s| && Settled(s, |s| - m)
    requires i < m && m <= j < |s|
    ensures |BubbleCarry(s[0], s[1..m])| == m
    ensures BubbleCarry(s[0], s[1..m])[i] <= s[j]
  {
    BubbleCarryFrom(s[0], s[1..m], i);
    var x := BubbleCarry(s[0], s[1..m])[i];
    assert [s[0]] + s[1..m] == s[..m];
    var h :| 0 <= h < m && s[..m][h] == x;
    assert s[h] <= s[j];
  }

  /** After a pass the settled tail grows by the carried maximum, still sorted. */
  lemma BubbleSweepTailSorted(s: seq<int>, m: nat)
    requires 1 <= m <= |s| && Settled(s, |s| - m)
    ensures |BubbleSweep(s)| == |s| && Sorted(BubbleSweep(s)[m - 1..])
  {
    BubbleSweepSplit(s, m);
    BubbleCarryPermutes(s[0], s[1..m]);
    SettledTailSorted(s, m);
    CarryLastBelowTail(s, m);
    SortedFromLastOfPrefix(BubbleSweep(s), BubbleCarry(s[0], s[1..m]), s[m..]);
  }

  lemma SettledTailSorted(s: seq<int>, m: nat)
    requires m <= |s| && Settled(s, |s| - m)
    ensures Sorted(s[m..])
  {
    assert |s| - (|s| - m) == m;
  }

  /** The element a pass carries to position m - 1 is below the settled tail. */
  lemma CarryLastBelowTail(s: seq<int>, m: nat)
    requires 1 <= m <= |s| && Settled(s, |s| - m)
    ensures |BubbleCarry(s[0], s[1..m])| == m
    ensures Below(BubbleCarry(s[0], s[1..m])[m - 1], s[m..])
  {
    BubbleCarryPermutes(s[0], s[1..m]);
    var c := BubbleCarry(s[0], s[1..m])[m - 1];
    var q := s[m..];
    forall j | 0 <= j < |q| ensures c <= q[j] {
      BubbleCarryBelowTail(s, m, m - 1, m + j);
      assert q[j] == s[m + j];
    }
  }

  /** The last element of u followed by q, when it is below the sorted q. */
  lemma SortedFromLastOfPrefix(r: seq<int>, u: seq<int>, q: seq<int>)
    requires r == u + q && |u| >= 1 && Sorted(q) && Below(u[|u| - 1], q)
    ensures Sorted(r[|u| - 1..])
  {
    assert r[|u| - 1..] == [u[|u| - 1]] + q;
    SortedCons(u[|u| - 1], q);
  }

  /** After a pass every element before position m - 1 is at most each from m - 1 on. */
  lemma BubbleSweepBeforeTail(s: seq<int>, m: nat, i: nat, j: nat)
    requires 1 <= m <= |s| && Settled(s, |s| - m)
    requires i < m - 1 <= j < |s|
    ensures |BubbleSweep(s)| == |s| && BubbleSweep(s)[i] <= BubbleSweep(s)[j]
  {
    BubbleSweepSplit(s, m);
    BubbleCarryPermutes(s[0], s[1..m]);
    var r, u, q := BubbleSweep(s), BubbleCarry(s[0], s[1..m]), s[m..];
    ConcatIndex(r, u, q, i);
    ConcatIndex(r, u, q, j);
    if j == m - 1 {
      BubbleCarryLastIsMax(s[0], s[1..m]);
    } else {
      assert q[j - m] == s[j];
      BubbleCarryBelowTail(s, m, i, j);
    }
  }

  /** Indexing into a concatenation. */
  lemma ConcatIndex(r: seq<int>, u: seq<int>, q: seq<int>, i: nat)
    requires r == u + q && i < |r|
    ensures i < |u| ==> r[i] == u[i]
    ensures i >= |u| ==> r[i] == q[i - |u|]
  {
  }

  /** Each bubble pass puts one more element in its final position. */
  lemma BubbleSweepSettles(s: seq<int>, k: nat)
    requires Settled(s, k) && k < |s|
    ensures Settled(BubbleSweep(s), k + 1)
  {
    var m := |s| - k;
    BubbleSweepTailSorted(s, m);
    var r := BubbleSweep(s);
    forall i, j | 0 <= i < |r| - (k + 1) <= j < |r| ensures r[i] <= r[j] {
      BubbleSweepBeforeTail(s, m, i, j);
    }
  }

  /** The array after k bubble passes. */
  ghost function BubbleSweeps(s: seq<int>, k: nat): seq<int>
  {
    if k == 0 then s else BubbleSweep(BubbleSweeps(s, k - 1))
  }

  /** After k passes at least k elements are settled, so |s| passes sort. */
  lemma {:induction false} BubbleSweepsSettle(s: seq<int>, k: nat)
    requires k <= |s|
    ensures |BubbleSweeps(s, k)| == |s| && Settled(BubbleSweeps(s, k), k)
  {
    if k > 0 {
      BubbleSweepsSettle(s, k - 1);
      BubbleSweepPermutes(BubbleSweeps(s, k - 1));
      BubbleSweepSettles(BubbleSweeps(s, k - 1), k - 1);
    } else {
      assert s[|s|..] == [];
    }
  }

  /** |s| bubble passes leave s sorted. */
  lemma BubbleSweepsSort(s: seq<int>)
    ensures Sorted(BubbleSweeps(s, |s|))
  {
    BubbleSweepsSettle(s, |s|);
    var t := BubbleSweeps(s, |s|);
    assert t[0..] == t;
  }

  /** One step of the pass: compare position i with i - 1 and exchange if out of order. */
  lemma BubbleStep(prev: seq<int>, next: seq<int>, i: nat)
    requires 1 <= i < |prev|
    requires next == prev[i - 1 := Lesser(prev[i - 1], prev[i])][i := Greater(prev[i - 1], prev[i])]
    ensures next[..i] + BubbleCarry(next[i], next[i + 1..]) == prev[..i - 1] + BubbleCarry(prev[i - 1], prev[i..])
    ensures next[i + 1..] == prev[i + 1..]
  {
    assert prev[i..][0] == prev[i] && prev[i..][1..] == prev[i + 1..];
    assert next[..i] == prev[..i - 1] + [Lesser(prev[i - 1], prev[i])];
  }

  /** AdjacentSorted of a prefix grows one comparison at a time. */
  lemma AdjacentSortedExtend(s: seq<int>, i: nat)
    requires 1 <= i < |s|
    ensures AdjacentSorted(s[..i + 1]) <==> AdjacentSorted(s[..i]) && s[i - 1] <= s[i]
  {
    var p, q := s[..i], s[..i + 1];
    if AdjacentSorted(p) && s[i - 1] <= s[i] {
      forall k | 0 < k < |q| ensures q[k - 1] <= q[k] {
        if k < i {
          assert q[k - 1] == p[k - 1] && q[k] == p[k];
        }
      }
    }
    if AdjacentSorted(q) {
      forall k | 0 < k < |p| ensures p[k - 1] <= p[k] {
        assert q[k - 1] == p[k - 1] && q[k] == p[k];
      }
      assert q[i - 1] <= q[i];
    }
  }

  /** When the pass reaches the last position the carried element is placed there. */
  lemma BubbleFinish(s: seq<int>, s0: seq<int>)
    requires |s| >= 1 && |s0| == |s|
    requires s[..|s| - 1] + BubbleCarry(s[|s| - 1], s[|s|..]) == BubbleSweep(s0)
    ensures s == BubbleSweep(s0) && s0[..|s|] == s0
  {
    assert s[..|s| - 1] + [s[|s| - 1]] == s;
  }

  /**
   * The state of the bubble pass before position i is examined: the prefix
   * still to settle plus the carried element plus the untouched suffix give
   * the finished pass, and the flag says whether A0[..i] had no descent.
   */
  ghost predicate BubbleInv(A0: seq<int>, t: seq<int>, i: nat, sorted: bool)
  {
    1 <= i <= |t| == |A0| && t[i..] == A0[i..]
    && t[..i - 1] + BubbleCarry(t[i - 1], t[i..]) == BubbleSweep(A0)
    && (sorted <==> AdjacentSorted(A0[..i]))
    && (sorted ==> t == A0)
    && (!sorted ==> Inversions(t) < Inversions(A0))
  }

  /** Before the first comparison only the first element has been looked at. */
  lemma BubbleInvInit(A0: seq<int>)
    requires |A0| >= 1
    ensures BubbleInv(A0, A0, 1, true)
  {
    assert A0[..0] + BubbleCarry(A0[0], A0[1..]) == BubbleSweep(A0);
    assert AdjacentSorted(A0[..1]);
  }

  /** When every position has been examined the pass is complete. */
  lemma BubbleInvDone(A0: seq<int>, t: seq<int>, sorted: bool)
    requires |A0| >= 1 && BubbleInv(A0, t, |A0|, sorted)
    ensures t == BubbleSweep(A0) && sorted == Sorted(A0)
    ensures sorted ==> t == A0
    ensures !sorted ==> Inversions(t) < Inversions(A0)
  {
    BubbleFinish(t, A0);
    AdjacentSortedIsSorted(A0);
  }

  /** Examining position i (and exchanging if out of order) keeps BubbleInv. */
  lemma BubbleInvStep(A0: seq<int>, prev: seq<int>, next: seq<int>, i: nat, sorted: bool, sorted': bool)
    requires BubbleInv(A0, prev, i, sorted) && i < |prev|
    requires next == prev[i - 1 := Lesser(prev[i - 1], prev[i])][i := Greater(prev[i - 1], prev[i])]
    requires sorted' == (sorted && prev[i - 1] <= prev[i])
    ensures BubbleInv(A0, next, i + 1, sorted')
  {
    BubbleStep(prev, next, i);
    AdjacentSortedExtend(A0, i);
    if prev[i - 1] > prev[i] {
      assert next == Swap(prev, i - 1, i);
      SwapInversionDecreases(prev, i - 1, i);
    } else {
      assert next == prev;
    }
  }

  /**
   * One pass of Bubble Sort (main.c:49-66): exchange every adjacent pair
   * found out of order, from left to right. It reports `true` exactly when
   * the data was already sorted, in which case nothing moved; otherwise every
   * exchange removed an inversion.
   */
  method BubblePseudoSort(a: array<int>) returns (sorted: bool)
    modifies a
    ensures a[..] == BubbleSweep(old(a[..]))
    ensures sorted == Sorted(old(a[..]))
    ensures sorted ==> a[..] == old(a[..])
    ensures !sorted ==> Inversions(a[..]) < Inversions(old(a[..]))
  {
    ghost var A0 := a[..];
    var n := a.Length;
    sorted := true;
    if n == 0 {
      assert Sorted(A0);
      return;
    }
    var i := 1;
    BubbleInvInit(A0);
    while i < n
      invariant BubbleInv(A0, a[..], i, sorted)
    {
      ghost var prev := a[..];
      ghost var wasSorted := sorted;
      if a[i - 1] > a[i] {
        var aux := a[i - 1];
        a[i - 1] := a[i];
        a[i] := aux;
        sorted := false;
        assert a[..] == prev[i - 1 := prev[i]][i := prev[i - 1]];
      } else {
        assert a[..] == prev;
      }
      BubbleInvStep(A0, prev, a[..], i, wasSorted, sorted);
      i := i + 1;
    }
    BubbleInvDone(A0, a[..], sorted);
  }

  // ---------------------------------------------------------------------------
  // Heapify pass

  /**
   * Where the heapify pass builds its heap: the first position holding an
   * element greater than the first element after the first run (the
   * out-of-run element `array[ind]` of main.c:85).
   */
  ghost function HeapBase(s: seq<int>): (r: nat)
    requires |s| >= 1 && !Sorted(s)
    ensures RunEnd(s, 0) < |s| && r <= |s|
    ensures forall k :: 0 <= k < r ==> s[k] <= s[RunEnd(s, 0)]
    ensures r < |s| ==> s[r] > s[RunEnd(s, 0)]
  {
    FirstRunCoversIffSorted(s);
    FirstAbove(s, s[RunEnd(s, 0)], 0)
  }

  /** The heap starts inside the first run, at an element above the out-of-run element. */
  lemma HeapBaseInFirstRun(s: seq<int>)
    requires |s| >= 1 && !Sorted(s)
    ensures RunEnd(s, 0) < |s|
    ensures HeapBase(s) < RunEnd(s, 0)
    ensures s[HeapBase(s)] > s[RunEnd(s, 0)]
  {
    FirstRunCoversIffSorted(s);
    FirstAboveAtMost(s, s[RunEnd(s, 0)], 0, RunEnd(s, 0) - 1);
  }

  /** Keeping s[..p] and the multiset of s[p..] keeps them for any lo <= p too. */
  lemma WiderSuffix(s0: seq<int>, s: seq<int>, lo: nat, p: nat)
    requires lo <= p <= |s0| == |s|
    requires s[..p] == s0[..p] && multiset(s[p..]) == multiset(s0[p..])
    ensures s[..lo] == s0[..lo] && multiset(s[lo..]) == multiset(s0[lo..])
  {
    assert s[..lo] == s[..p][..lo] && s0[..lo] == s0[..p][..lo];
    assert s[lo..p] == s[..p][lo..] && s0[lo..p] == s0[..p][lo..];
    MultisetSplit(s, lo, p);
    MultisetSplit(s0, lo, p);
  }

  /**
   * A min-heap built over s0[b..] differs from s0 when s0[b] is above some
   * element x of s0[b..]: the new root is at most x.
   */
  lemma HeapRootMoved(s0: seq<int>, s: seq<int>, b: nat, x: int)
    requires b < |s0| == |s| && s0[b] > x && x in multiset(s0[b..])
    requires multiset(s[b..]) == multiset(s0[b..]) && MinHeapFrom(s, b, b, |s|)
    ensures s[b] <= x && s != s0
  {
    assert x in multiset(s[b..]);
    var j :| 0 <= j < |s[b..]| && s[b..][j] == x;
    MinHeapRootIsMin(s, b, |s|, b + j);
  }

  /**
   * The state the heapify pass leaves when the data was not sorted: the
   * prefix before the heap base is untouched, and from the base on the same
   * elements form a min-heap rooted at the base, whose root is the least of them.
   */
  ghost predicate Heapified(s0: seq<int>, s: seq<int>)
    requires |s0| >= 1 && !Sorted(s0)
  {
    var b := HeapBase(s0);
    b < |s| == |s0| && s[..b] == s0[..b] && multiset(s[b..]) == multiset(s0[b..]) &&
    MinHeapFrom(s, b, b, |s|) && (forall k :: b <= k < |s| ==> s[b] <= s[k])
  }

  /** What the heapify pass leaves behind when the data was not sorted: a smaller root and fewer inversions. */
  lemma HeapifyOutcome(s0: seq<int>, s: seq<int>, b: nat, x: int)
    requires |s0| >= 1 && !Sorted(s0) && b == HeapBase(s0)
    requires b < |s0| == |s| && s0[b] > x && x in multiset(s0[b..])
    requires s[..b] == s0[..b] && multiset(s[b..]) == multiset(s0[b..]) && MinHeapFrom(s, b, b, |s|)
    requires s == s0 || Inversions(s) < Inversions(s0)
    ensures Inversions(s) < Inversions(s0)
    ensures Heapified(s0, s)
  {
    HeapRootMoved(s0, s, b, x);
    MinHeapRootIsLeast(s, b, |s|);
  }

  /** The scan for the first element above x (main.c:86). */
  method ScanAbove(a: array<int>, x: int) returns (ind: nat)
    ensures ind == FirstAbove(a[..], x, 0)
  {
    ind := 0;
    while ind < a.Length && x >= a[ind]
      invariant ind <= a.Length
      invariant FirstAbove(a[..], x, ind) == FirstAbove(a[..], x, 0)
      decreases a.Length - ind
    {
      ind := ind + 1;
    }
  }

  /**
   * Turn a[b..] into a min-heap by sifting down every node that has a child,
   * last first (the `for (root = ...)` loop of main.c:88-103). Every exchange
   * removes an inversion.
   */
  method BuildMinHeap(a: array<int>, b: nat)
    requires b < a.Length
    modifies a
    ensures MinHeapFrom(a[..], b, b, a.Length)
    ensures a[..b] == old(a[..b]) && multiset(a[b..]) == multiset(old(a[b..]))
    ensures a[..] == old(a[..]) || Inversions(a[..]) < Inversions(old(a[..]))
  {
    ghost var A0 := a[..];
    var n := a.Length;
    var root := b + (n - b) / 2;
    MinHeapLeaves(a[..], b, n);
    while root > b
      invariant b <= root <= n
      invariant MinHeapFrom(a[..], b, root, n)
      invariant a[..b] == A0[..b] && multiset(a[b..]) == multiset(A0[b..])
      invariant a[..] == A0 || Inversions(a[..]) < Inversions(A0)
    {
      ghost var prev := a[..];
      SiftDownMin(a, b, root - 1);
      WiderSuffix(prev, a[..], b, root - 1);
      root := root - 1;
    }
  }

  /**
   * One pass of Heapify (main.c:73-106). If the data is sorted it reports
   * `true` and leaves it alone. Otherwise it takes the first element e after
   * the first run (the out-of-run element), finds the first position b holding an element above e,
   * and turns a[b..] into a min-heap, so a[b] becomes the least element of
   * a[b..]; a[..b] keeps its place and a[b..] its elements. The data then has
   * strictly fewer inversions.
   */
  method HeapifyPseudoSort(a: array<int>) returns (sorted: bool)
    requires a.Length >= 1
    modifies a
    ensures sorted == Sorted(old(a[..]))
    ensures sorted ==> a[..] == old(a[..])
    ensures !Sorted(old(a[..])) ==> Heapified(old(a[..]), a[..])
    ensures !sorted ==> Inversions(a[..]) < Inversions(old(a[..]))
  {
    ghost var A0 := a[..];
    var n := a.Length;
    var ind := ScanRun(a, 1);
    FirstRunCoversIffSorted(A0);
    if ind == n {
      return true;
    }
    var aux := a[ind];
    ghost var d := ind;
    HeapBaseInFirstRun(A0);
    ind := ScanAbove(a, aux);
    assert aux in multiset(A0[ind..]) by {
      assert A0[ind..][d - ind] == aux;
    }
    assert a[ind..] == A0[ind..];
    BuildMinHeap(a, ind);
    ghost var s := a[..];
    assert ind == HeapBase(A0) && s[..ind] == A0[..ind];
    assert multiset(s[ind..]) == multiset(A0[ind..]);
    HeapifyOutcome(A0, s, ind, aux);
    return false;
  }

  // ---------------------------------------------------------------------------
  // Natural merge pass

  /** The pass stops when the run starting at ini reaches the end: that run is the rest of the sweep. */
  lemma LoneRunFinish(s: seq<int>, t: seq<int>, done: seq<int>, ini: nat)
    requires ini < |s| == |t| && RunEnd(s, ini) == |s| && |done| == ini
    requires done + Sweep(s, ini) == Sweep(s, 0)
    requires t[..ini] == done && t[ini..] == s[ini..]
    ensures t == Sweep(s, 0)
  {
    SweepLoneRun(s, ini);
    PrefixSuffixJoin(t, done, Sweep(s, ini), ini);
  }

  lemma PrefixSuffixJoin(t: seq<int>, p: seq<int>, q: seq<int>, n: nat)
    requires n <= |t| && t[..n] == p && t[n..] == q
    ensures t == p + q
  {
    assert t == t[..n] + t[n..];
  }

  /** A run from ini that reaches the end starts at 0 exactly when the first block is everything. */
  lemma LoneRunBounds(s: seq<int>, ini: nat)
    requires ini < |s| && RunEnd(s, ini) == |s|
    requires ini > 0 ==> ini >= FirstBlockEnd(s)
    ensures ini == 0 <==> FirstBlockEnd(s) == |s|
  {
  }

  /**
   * The two scans of one step of the natural merge pass (main.c:125-135):
   * the run from ini and, unless that run reaches the end, the run after it.
   */
  method NextRunsOrLast(a: array<int>, ini: nat) returns (mid: nat, end: nat)
    requires ini < a.Length
    ensures mid == RunEnd(a[..], ini)
    ensures mid < a.Length ==> end == RunEnd(a[..], mid)
  {
    mid := ScanRun(a, ini + 1);
    if mid == a.Length {
      return mid, mid;
    }
    end := ScanRun(a, mid + 1);
  }

  /**
   * The merging loop of the natural merge pass (main.c:120-144): pairs of
   * adjacent runs of a merged into aux[..end], stopping at the end of the
   * array or before a last run that has no partner, which starts at ini.
   */
  method MergeRunPairs(a: array<int>, aux: array<int>) returns (ini: nat, end: nat)
    requires a != aux && a.Length == aux.Length && a.Length >= 1
    modifies aux
    ensures end <= a.Length
    ensures aux[..end] + Sweep(a[..], end) == Sweep(a[..], 0)
    ensures end < a.Length ==> ini == end && RunEnd(a[..], end) == a.Length
    ensures ini == 0 <==> FirstBlockEnd(a[..]) == a.Length
  {
    ghost var s := a[..];
    var n := a.Length;
    var z := 0;
    ini, end := 0, 0;
    while end < n
      invariant end <= n && z == end && a[..] == s
      invariant aux[..end] + Sweep(s, end) == Sweep(s, 0)
      invariant end > 0 ==> end >= FirstBlockEnd(s) && ini < end
      invariant end > 0 ==> (ini == 0 <==> end == FirstBlockEnd(s))
      invariant end == 0 ==> ini == 0
      decreases n - end
    {
      ini := end;
      var mid, next := NextRunsOrLast(a, ini);
      if mid == n {
        LoneRunBounds(s, ini);
        return;
      }
      end := next;
      NaturalBlockBounds(s, ini, mid, end);
      ghost var before := aux[..];
      MergeRuns(a, aux, ini, mid, end, z);
      assert a[..] == s;
      NaturalBlockStep(s, before, aux[..], ini, mid, end);
      z := z + (end - ini);
    }
  }

  /**
   * One pass of Natural Merge Sort (main.c:113-152): adjacent maximal runs
   * are merged in pairs into a buffer, and the merged part is copied back; a
   * last unpaired run is left where it is. The result is the sweep of the
   * input, and the pass reports `true` exactly when the first pair of runs
   * covered all of it, that is, when the result is sorted.
   */
  method NaturalMergePseudoSort(a: array<int>) returns (sorted: bool)
    requires a.Length >= 1
    modifies a
    ensures a[..] == Sweep(old(a[..]), 0)
    ensures sorted <==> FirstBlockEnd(old(a[..])) == a.Length
    ensures sorted <==> Sorted(a[..])
  {
    ghost var s := a[..];
    var aux := new int[a.Length];
    var ini, end := MergeRunPairs(a, aux);
    ghost var done := aux[..end];
    CopyRange(aux, 0, a, 0, end);
    if end < a.Length {
      LoneRunFinish(s, a[..], done, end);
    } else {
      assert a[..] == done;
    }
    SweepSortedIff(s);
    sorted := ini == 0;
  }

  // ---------------------------------------------------------------------------
  // Driver

  /** The pseudo-sorting function handed to Sort (its function-pointer argument). */
  datatype PseudoSortFunc = Bubble | Heapify | NaturalMerge

  /**
   * What each pass strictly lowers until it reports the data sorted:
   * inversions for the bubble and heapify passes, descents (runs less one)
   * for the natural merge pass.
   */
  ghost function Disorder(p: PseudoSortFunc, s: seq<int>): nat
  {
    match p
    case Bubble => Inversions(s)
    case Heapify => Inversions(s)
    case NaturalMerge => Descents(s)
  }

  /**
   * One call of the pseudo-sorting function p: it permutes the data, reports
   * `true` only when the data is sorted, and otherwise strictly lowers the
   * disorder that p works on.
   */
  method Apply(p: PseudoSortFunc, a: array<int>) returns (stop: bool)
    requires p != Bubble ==> a.Length >= 1
    modifies a
    ensures multiset(a[..]) == multiset(old(a[..]))
    ensures stop ==> Sorted(a[..])
    ensures !stop ==> Disorder(p, a[..]) < Disorder(p, old(a[..]))
    ensures p == NaturalMerge ==> a[..] == Sweep(old(a[..]), 0) && (stop <==> Sorted(a[..]))
  {
    ghost var s := a[..];
    match p
    case Bubble =>
      stop := BubblePseudoSort(a);
      BubbleSweepPermutes(s);
    case Heapify =>
      stop := HeapifyPseudoSort(a);
      if !stop {
        PrefixSuffixPermutation(s, a[..], HeapBase(s));
      }
    case NaturalMerge =>
      stop := NaturalMergePseudoSort(a);
      SweepPermutes(s, 0);
      assert s[0..] == s;
      if !stop {
        SweepProgress(s);
      }
  }

  /**
   * Apply the pseudo-sorting function p until it reports the data sorted
   * (main.c:15-42). The data ends sorted and is a permutation of the input;
   * with the natural merge pass it is the repeated sweep Drain.
   */
  method Sort(p: PseudoSortFunc, a: array<int>)
    requires p != Bubble ==> a.Length >= 1
    modifies a
    ensures Sorted(a[..]) && multiset(a[..]) == multiset(old(a[..]))
    ensures p == NaturalMerge ==> a[..] == Drain(old(a[..]))
  {
    ghost var A0 := a[..];
    var stop := false;
    while !stop
      invariant multiset(a[..]) == multiset(A0)
      invariant stop ==> Sorted(a[..])
      invariant p == NaturalMerge ==> if stop then a[..] == Drain(A0) else Drain(a[..]) == Drain(A0)
      decreases !stop, Disorder(p, a[..])
    {
      ghost var prev := a[..];
      stop := Apply(p, a);
      if p == NaturalMerge && !stop {
        SweepProgress(prev);
      }
    }
  }
}

/**
 * The four complete sorts of main.c (main.c:158-369): insertion sort with a
 * binary search for the insertion point, heap sort, natural merge sort and
 * bottom-up merge sort. Each ends with its array sorted and a permutation of
 * what it held.
 */
module Sorts {
  import opened Orders
  import opened Merging
  import opened Sweeps
  import opened Heaps

  // ---------------------------------------------------------------------------
  // Insertion sort

  /** x inserted into t after every element at most x (after its equals, so stably). */
  function Insert(x: int, t: seq<int>): (r: seq<int>)
    ensures |r| == |t| + 1
  {
    var j := FirstAbove(t, x, 0);
    t[..j] + [x] + t[j..]
  }

  lemma InsertPermutes(x: int, t: seq<int>)
    ensures |Insert(x, t)| == |t| + 1
    ensures multiset(Insert(x, t)) == multiset(t) + multiset{x}
  {
    var j := FirstAbove(t, x, 0);
    assert t == t[..j] + t[j..];
  }

  /** Inserting into a sorted sequence keeps it sorted. */
  lemma InsertSorted(x: int, t: seq<int>)
    requires Sorted(t)
    ensures Sorted(Insert(x, t))
  {
    var j := FirstAbove(t, x, 0);
    var r := Insert(x, t);
    forall p, q | 0 <= p < q < |r| ensures r[p] <= r[q] {
      if q < j {
        assert r[p] == t[p] && r[q] == t[q];
      } else if q == j {
        assert r[p] == t[p] && r[q] == x;
      } else if p < j {
        assert r[p] == t[p] <= x && r[q] == t[q - 1];
        assert t[j] <= t[q - 1];
      } else if p == j {
        assert r[q] == t[q - 1] && t[j] <= t[q - 1];
      } else {
        assert r[p] == t[p - 1] && r[q] == t[q - 1];
      }
    }
  }

  /** The first k elements of s after k steps of insertion sort. */
  ghost function InsertedUpTo(s: seq<int>, k: nat): (r: seq<int>)
    requires k <= |s|
    ensures |r| == k
  {
    if k == 0 then [] else Insert(s[k - 1], InsertedUpTo(s, k - 1))
  }

  /** What insertion sort leaves in s: each element inserted into the sorted prefix before it. */
  ghost function InsertionSorted(s: seq<int>): (r: seq<int>)
    ensures |r| == |s|
  {
    InsertedUpTo(s, |s|)
  }

  /** Each step of insertion sort keeps the prefix sorted and a permutation of s[..k]. */
  lemma InsertedUpToSorts(s: seq<int>, k: nat)
    requires k <= |s|
    ensures Sorted(InsertedUpTo(s, k))
    ensures multiset(InsertedUpTo(s, k)) == multiset(s[..k])
  {
    InsertedUpToSorted(s, k);
    InsertedUpToPermutes(s, k);
  }

  lemma {:induction false} InsertedUpToSorted(s: seq<int>, k: nat)
    requires k <= |s|
    ensures Sorted(InsertedUpTo(s, k))
  {
    if k > 0 {
      InsertedUpToSorted(s, k - 1);
      InsertSorted(s[k - 1], InsertedUpTo(s, k - 1));
    }
  }

  lemma {:induction false} InsertedUpToPermutes(s: seq<int>, k: nat)
    requires k <= |s|
    ensures multiset(InsertedUpTo(s, k)) == multiset(s[..k])
  {
    if k > 0 {
      var p, x := InsertedUpTo(s, k - 1), s[k - 1];
      InsertedUpToPermutes(s, k - 1);
      InsertPermutes(x, p);
      PrefixSnoc(s, k);
      AddOnePermutes(p, x, InsertedUpTo(s, k), s[..k - 1], s[..k]);
    }
  }

  lemma PrefixSnoc(s: seq<int>, k: nat)
    requires 0 < k <= |s|
    ensures s[..k] == s[..k - 1] + [s[k - 1]]
  {
  }

  /** Adding the same element to two sequences with equal multisets. */
  lemma AddOnePermutes(p: seq<int>, x: int, q: seq<int>, pre: seq<int>, pk: seq<int>)
    requires multiset(p) == multiset(pre) && multiset(q) == multiset(p) + multiset{x}
    requires pk == pre + [x]
    ensures multiset(q) == multiset(pk)
  {
  }

  /** Insertion sort sorts and permutes. */
  lemma InsertionSortedSorts(s: seq<int>)
    ensures Sorted(InsertionSorted(s))
    ensures multiset(InsertionSorted(s)) == multiset(s)
  {
    InsertedUpToSorts(s, |s|);
    assert s[..|s|] == s;
  }

  /**
   * Any sorted permutation of s is what insertion sort produces: all the
   * sorts of main.c give the same result.
   */
  lemma SameAsInsertionSort(s: seq<int>, t: seq<int>)
    requires Sorted(t) && multiset(t) == multiset(s)
    ensures t == InsertionSorted(s)
  {
    InsertionSortedSorts(s);
    SortedUnique(t, InsertionSorted(s));
  }

  /** The repeated natural merge sweep and insertion sort agree. */
  lemma DrainIsInsertionSorted(s: seq<int>)
    ensures Sorted(Drain(s)) && multiset(Drain(s)) == multiset(s)
    ensures Drain(s) == InsertionSorted(s)
  {
    DrainSortedPermutation(s);
    SameAsInsertionSort(s, Drain(s));
  }

  /**
   * The binary search of main.c:171-179 for the insertion point of x in the
   * sorted a[..i]: the first position holding an element above x.
   */
  method UpperBound(a: array<int>, i: nat, x: int) returns (j: nat)
    requires i <= a.Length && Sorted(a[..i])
    ensures j == FirstAbove(a[..i], x, 0)
  {
    ghost var t := a[..i];
    var left, right := 0, i;
    j := i / 2;
    while left < right
      invariant 0 <= left <= right <= i
      invariant j == left + (right - left) / 2
      invariant forall k :: 0 <= k < left ==> t[k] <= x
      invariant forall k :: right <= k < i ==> t[k] > x
      decreases right - left
    {
      assert a[j] == t[j];
      if x < a[j] {
        right := j;
      } else {
        left := j + 1;
      }
      j := left + (right - left) / 2;
    }
    FirstAboveIs(t, x, j);
  }

  /**
   * memmove(&a[j+1], &a[j], (i-j) elements) of main.c:183: a[j..i] moves up
   * one place, copied from the top down so the overlap is safe.
   */
  method ShiftRight(a: array<int>, j: nat, i: nat)
    requires j <= i < a.Length
    modifies a
    ensures a[..j + 1] == old(a[..j + 1])
    ensures a[j + 1..i + 1] == old(a[j..i])
    ensures a[i + 1..] == old(a[i + 1..])
  {
    ghost var A0 := a[..];
    var k := i;
    while k > j
      invariant j <= k <= i
      invariant a[..k + 1] == A0[..k + 1]
      invariant a[k + 1..i + 1] == A0[k..i]
      invariant a[i + 1..] == A0[i + 1..]
    {
      ghost var prev := a[..];
      a[k] := a[k - 1];
      assert a[k..i + 1] == [A0[k - 1]] + prev[k + 1..i + 1];
      assert A0[k - 1..i] == [A0[k - 1]] + A0[k..i];
      k := k - 1;
    }
  }

  /** One step of insertion sort puts a[..i+1] in the order Insert gives. */
  lemma InsertStep(prev: seq<int>, next: seq<int>, i: nat, j: nat, x: int)
    requires i < |prev| == |next| && x == prev[i]
    requires j == FirstAbove(prev[..i], x, 0)
    requires next[..j] == prev[..j] && next[j] == x
    requires next[j + 1..i + 1] == prev[j..i] && next[i + 1..] == prev[i + 1..]
    ensures next[..i + 1] == Insert(x, prev[..i])
  {
    assert next[..i + 1] == next[..j] + [next[j]] + next[j + 1..i + 1];
    assert prev[..i][..j] == prev[..j] && prev[..i][j..] == prev[j..i];
  }

  /** Inserting the next element extends the insertion-sorted prefix by one. */
  lemma InsertionLoopStep(s: seq<int>, prev: seq<int>, next: seq<int>, i: nat)
    requires i < |s| == |prev| == |next|
    requires prev[..i] == InsertedUpTo(s, i) && prev[i..] == s[i..]
    requires next[..i + 1] == Insert(prev[i], prev[..i]) && next[i + 1..] == prev[i + 1..]
    ensures next[..i + 1] == InsertedUpTo(s, i + 1) && next[i + 1..] == s[i + 1..]
  {
    assert prev[i] == prev[i..][0] == s[i];
    assert prev[i + 1..] == prev[i..][1..];
    assert s[i + 1..] == s[i..][1..];
  }

  /**
   * The body of insertion sort's loop (main.c:170-186): a[i] is inserted
   * into the sorted a[..i].
   */
  method InsertAt(a: array<int>, i: nat)
    requires i < a.Length && Sorted(a[..i])
    modifies a
    ensures a[..i + 1] == Insert(old(a[i]), old(a[..i]))
    ensures a[i + 1..] == old(a[i + 1..])
  {
    ghost var prev := a[..];
    var aux := a[i];
    var j := UpperBound(a, i, aux);
    if j < i {
      ShiftRight(a, j, i);
      a[j] := aux;
    }
    InsertStep(prev, a[..], i, j, aux);
  }

  /**
   * Insertion sort (main.c:164-188): each a[i] in turn is inserted into the
   * sorted a[..i] after the elements at most it.
   */
  method InsertionSort(a: array<int>)
    modifies a
    ensures a[..] == InsertionSorted(old(a[..]))
    ensures Sorted(a[..]) && multiset(a[..]) == multiset(old(a[..]))
  {
    ghost var A0 := a[..];
    var n := a.Length;
    var i := 1;
    while i < n
      invariant 1 <= i && (n >= 1 ==> i <= n)
      invariant n >= 1 ==> a[..i] == InsertedUpTo(A0, i) && a[i..] == A0[i..]
    {
      ghost var prev := a[..];
      InsertedUpToSorts(A0, i);
      InsertAt(a, i);
      InsertionLoopStep(A0, prev, a[..], i);
      i := i + 1;
    }
    if n >= 1 {
      assert a[..n] == a[..];
    }
    InsertionSortedSorts(A0);
  }

  // ---------------------------------------------------------------------------
  // Heap sort

  /** Every element before position k is at most every element from k on. */
  ghost predicate Partitioned(s: seq<int>, k: nat)
  {
    forall x, y :: 0 <= x < k <= y < |s| ==> s[x] <= s[y]
  }

  /** Moving the root of the heap s[..i+1] to position i leaves a heap below the root. */
  lemma ExtractKeepsHeap(s: seq<int>, i: nat)
    requires 0 < i < |s| && MaxHeapFrom(s, 0, i + 1)
    ensures MaxHeapFrom(Swap(s, 0, i), 1, i)
  {
    var t := Swap(s, 0, i);
    forall c | 0 < c < i && 1 <= Parent(0, c) ensures MaxEdge(t, c) {
      assert MaxEdge(s, c);
    }
  }

  /**
   * Moving the root (the maximum) of the heap s[..i+1] to position i grows
   * the sorted tail of elements at least all the others by one.
   */
  lemma ExtractGrowsTail(s: seq<int>, i: nat)
    requires 0 < i < |s| && MaxHeapFrom(s, 0, i + 1)
    requires Sorted(s[i + 1..]) && Partitioned(s, i + 1)
    ensures Sorted(Swap(s, 0, i)[i..]) && Partitioned(Swap(s, 0, i), i)
  {
    var t := Swap(s, 0, i);
    forall k | 0 <= k <= i ensures s[k] <= s[0] {
      MaxHeapRootIsMax(s, i + 1, k);
    }
    assert t[i..] == [s[0]] + s[i + 1..];
    var q := s[i + 1..];
    forall y | 0 <= y < |q| ensures s[0] <= q[y] {
      assert q[y] == s[i + 1 + y];
    }
    SortedCons(s[0], q);
    forall x, y | 0 <= x < i <= y < |t| ensures t[x] <= t[y] {
      if x == 0 {
        assert t[x] == s[i];
      } else {
        assert t[x] == s[x];
      }
      if y > i {
        assert t[y] == s[y];
      }
    }
  }

  /** Sifting inside s[..i] keeps the tail and, elementwise, the partition at i. */
  lemma SiftKeepsPartition(t: seq<int>, u: seq<int>, i: nat)
    requires i <= |t| == |u| && u[i..] == t[i..]
    requires multiset(u[0..i]) == multiset(t[0..i]) && Partitioned(t, i)
    ensures Partitioned(u, i) && multiset(u) == multiset(t)
  {
    forall y | i <= y < |u| ensures forall k :: 0 <= k < |u[0..i]| ==> u[0..i][k] <= u[y] {
      assert u[y] == t[y];
      assert forall k :: 0 <= k < |t[0..i]| ==> t[0..i][k] <= t[y];
      BoundedByPermutation(u[0..i], t[0..i], t[y]);
    }
    forall x, y | 0 <= x < i <= y < |u| ensures u[x] <= u[y] {
      assert u[x] == u[0..i][x];
    }
    assert u == u[0..i] + u[i..];
    assert t == t[0..i] + t[i..];
  }

  /** A partition at k with both sides sorted is sorted. */
  lemma PartitionedSorted(s: seq<int>, k: nat)
    requires k <= |s| && Partitioned(s, k) && Sorted(s[..k]) && Sorted(s[k..])
    ensures Sorted(s)
  {
    forall x, y | 0 <= x < y < |s| ensures s[x] <= s[y] {
      if y < k {
        assert s[x] == s[..k][x] && s[y] == s[..k][y];
      } else if k <= x {
        assert s[x] == s[k..][x - k] && s[y] == s[k..][y - k];
      }
    }
  }

  /**
   * Turn a into a max-heap by sifting down every node that has a child, last
   * first (main.c:199-214).
   */
  method BuildMaxHeap(a: array<int>)
    modifies a
    ensures MaxHeapFrom(a[..], 0, a.Length)
    ensures multiset(a[..]) == multiset(old(a[..]))
  {
    ghost var A0 := a[..];
    var n := a.Length;
    var i: nat := n / 2;
    MaxHeapLeaves(a[..], n);
    while i > 0
      invariant i <= n / 2
      invariant MaxHeapFrom(a[..], i, n)
      invariant multiset(a[..]) == multiset(A0)
    {
      ghost var prev := a[..];
      SiftDownMax(a, i - 1, n);
      assert a[..][i - 1..] == a[i - 1..n] && prev[i - 1..] == prev[i - 1..n];
      PrefixSuffixPermutation(prev, a[..], i - 1);
      i := i - 1;
    }
  }

  /**
   * One step of the selection phase (main.c:217-234): the root of the heap
   * a[..i+1], its maximum, is exchanged with a[i], and the heap a[..i] is
   * restored. The sorted tail of elements at least all the others grows to
   * a[i..].
   */
  method ExtractMax(a: array<int>, i: nat)
    requires 0 < i < a.Length && MaxHeapFrom(a[..], 0, i + 1)
    requires Sorted(a[i + 1..]) && Partitioned(a[..], i + 1)
    modifies a
    ensures MaxHeapFrom(a[..], 0, i)
    ensures Sorted(a[i..]) && Partitioned(a[..], i)
    ensures multiset(a[..]) == multiset(old(a[..]))
  {
    ghost var prev := a[..];
    var aux := a[i];
    a[i] := a[0];
    a[0] := aux;
    assert a[..] == Swap(prev, 0, i);
    ExtractKeepsHeap(prev, i);
    ExtractGrowsTail(prev, i);
    ghost var mid := a[..];
    SiftDownMax(a, 0, i);
    SiftKeepsPartition(mid, a[..], i);
  }

  /**
   * Heap sort (main.c:194-235): a max-heap is built, then its root is
   * exchanged with the last element of the heap, which shrinks by one and is
   * restored, until one element is left.
   */
  method HeapSort(a: array<int>)
    requires a.Length >= 1
    modifies a
    ensures Sorted(a[..]) && multiset(a[..]) == multiset(old(a[..]))
    ensures a[..] == InsertionSorted(old(a[..]))
  {
    ghost var A0 := a[..];
    var n := a.Length;
    BuildMaxHeap(a);
    var i: nat := n - 1;
    assert a[n..] == [];
    while i > 0
      invariant i < n
      invariant MaxHeapFrom(a[..], 0, i + 1)
      invariant Sorted(a[i + 1..]) && Partitioned(a[..], i + 1)
      invariant multiset(a[..]) == multiset(A0)
    {
      ExtractMax(a, i);
      i := i - 1;
    }
    assert Sorted(a[..1]);
    PartitionedSorted(a[..], 1);
    SameAsInsertionSort(A0, a[..]);
  }

  // ---------------------------------------------------------------------------
  // Natural merge sort

  /** A sweep that leaves s sorted is where Drain stops. */
  lemma DrainLast(s: seq<int>)
    requires Sorted(Sweep(s, 0))
    ensures Drain(s) == Sweep(s, 0)
  {
  }

  /** A sweep that does not sort s brings it closer to Drain, with fewer descents. */
  lemma DrainStep(s: seq<int>)
    requires !Sorted(Sweep(s, 0))
    ensures Drain(Sweep(s, 0)) == Drain(s)
    ensures Descents(Sweep(s, 0)) < Descents(s)
  {
    SweepProgress(s);
  }

  /**
   * One round of natural merge sort's outer loop (main.c:258-299): a sweep
   * from a into aux, then, unless that sweep found a sorted result (copied
   * back into a), a sweep from aux back into a. The start of the last block
   * of the last sweep is 0 exactly when a ends as Drain of what it held.
   */
  method NaturalRound(a: array<int>, aux: array<int>) returns (ini: nat)
    requires a != aux && a.Length == aux.Length && a.Length >= 1
    modifies a, aux
    ensures ini == 0 ==> a[..] == Drain(old(a[..]))
    ensures ini > 0 ==> Drain(a[..]) == Drain(old(a[..])) && Descents(a[..]) < Descents(old(a[..]))
  {
    ghost var s := a[..];
    ini := NaturalSweep(a, aux);
    SweepSortedIff(s);
    if ini == 0 {
      CopyRange(aux, 0, a, 0, a.Length);
      assert a[..] == a[0..a.Length] && aux[..] == aux[0..a.Length];
      DrainLast(s);
      return;
    }
    ghost var t := aux[..];
    DrainStep(s);
    ini := NaturalSweep(aux, a);
    SweepSortedIff(t);
    if ini > 0 {
      DrainStep(t);
    } else {
      DrainLast(t);
    }
  }

  /**
   * Natural merge sort (main.c:245-303): sweeps of the natural merge pass go
   * from a into a buffer and back, stopping as soon as a sweep's first pair
   * of runs covered everything; after a sweep into the buffer the result is
   * copied back. The result is the repeated sweep Drain of the input, which
   * is sorted and a permutation of it.
   */
  method NaturalMergeSort(a: array<int>)
    modifies a
    ensures a[..] == Drain(old(a[..]))
    ensures Sorted(a[..]) && multiset(a[..]) == multiset(old(a[..]))
    ensures a[..] == InsertionSorted(old(a[..]))
  {
    ghost var A0 := a[..];
    var n := a.Length;
    var aux := new int[n];
    var ini: nat := n;
    if n == 0 {
      assert Sweep(A0, 0) == [];
      DrainLast(A0);
    }
    while ini > 0
      invariant ini > 0 ==> n >= 1 && Drain(a[..]) == Drain(A0)
      invariant ini == 0 ==> a[..] == Drain(A0)
      decreases if ini > 0 then Descents(a[..]) + 1 else 0
    {
      ini := NaturalRound(a, aux);
    }
    DrainIsInsertionSorted(A0);
  }

  // ---------------------------------------------------------------------------
  // Bottom-up merge sort

  /**
   * One round of merge sort's outer loop (main.c:318-362): blocks of `step`
   * merged in pairs from a into aux, then blocks of 2 * step merged back.
   * Blocks of 4 * step end sorted, and the start of the last pair is 0
   * exactly when one pair of 2 * step covered everything.
   */
  method FixedRound(a: array<int>, aux: array<int>, step: nat) returns (ini: nat)
    requires a != aux && a.Length == aux.Length && a.Length >= 1
    requires step >= 1 && SortedBlocks(a[..], step)
    modifies a, aux
    ensures SortedBlocks(a[..], 4 * step)
    ensures multiset(a[..]) == multiset(old(a[..]))
    ensures ini == 0 <==> 4 * step >= a.Length
  {
    ghost var s := a[..];
    ini := FixedStepSweep(a, aux, step);
    ghost var t := aux[..];
    ini := FixedStepSweep(aux, a, 2 * step);
    assert 2 * (2 * step) == 4 * step;
    TwoFixedRounds(s, t, a[..], step);
  }

  /** Two fixed-width rounds, the second with the doubled step, quadruple the sorted block width. */
  lemma TwoFixedRounds(s: seq<int>, t: seq<int>, u: seq<int>, step: nat)
    requires step >= 1 && SortedBlocks(s, step)
    requires t == FixedSweep(s, 0, step) && u == FixedSweep(t, 0, 2 * step)
    ensures SortedBlocks(u, 4 * step) && multiset(u) == multiset(s)
  {
    FixedSweepRound(s, step);
    FixedSweepRound(t, 2 * step);
    var width := 2 * (2 * step);
    assert width == 4 * step;
  }

  /**
   * Bottom-up merge sort (main.c:309-369): sorted blocks of `step` elements
   * are merged in pairs from a into a buffer, `step` doubles, the blocks are
   * merged back, `step` doubles again, until a sweep found a single pair.
   */
  method MergeSort(a: array<int>)
    modifies a
    ensures Sorted(a[..]) && multiset(a[..]) == multiset(old(a[..]))
    ensures a[..] == InsertionSorted(old(a[..]))
  {
    ghost var A0 := a[..];
    var n := a.Length;
    var aux := new int[n];
    var step: nat := 1;
    var ini: nat := n;
    UnitBlocksSorted(a[..]);
    while ini > 0
      invariant step >= 1 && SortedBlocks(a[..], step)
      invariant multiset(a[..]) == multiset(A0)
      invariant ini > 0 ==> 1 <= n && step <= n
      invariant ini == 0 ==> n <= step
      decreases if ini > 0 then n + 1 - step else 0
    {
      ini := FixedRound(a, aux, step);
      step := step * 4;
    }
    SingleBlockSorted(a[..], step);
    SameAsInsertionSort(A0, a[..]);
  }
}

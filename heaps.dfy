/**
 * Binary heaps laid out in an array from a base position b: the children of
 * position q are b + 2(q-b) + 1 and b + 2(q-b) + 2. HeapifyPseudoSort builds
 * a min-heap from the position it found (main.c:89-103); HeapSort builds a
 * max-heap from 0 (main.c:200-214) and restores it after each selection
 * (main.c:217-234). Both sift a node down with the same loop, mirrored.
 */
module Heaps {
  import opened Orders

  /** The parent of position c in a heap based at b. */
  function Parent(b: nat, c: nat): (p: nat)
    requires b < c
    ensures b <= p < c
    ensures c == b + 2 * (p - b) + 1 || c == b + 2 * (p - b) + 2
  {
    b + (c - b - 1) / 2
  }

  /** The edge into c of a min-heap based at b is in order. */
  ghost predicate MinEdge(s: seq<int>, b: nat, c: nat)
    requires b < c < |s|
  {
    s[Parent(b, c)] <= s[c]
  }

  /** The edge into c of a max-heap based at 0 is in order. */
  ghost predicate MaxEdge(s: seq<int>, c: nat)
    requires 0 < c < |s|
  {
    s[Parent(0, c)] >= s[c]
  }

  /** Every node of s[b..n) whose position is at least lo is at most each of its children. */
  ghost predicate MinHeapFrom(s: seq<int>, b: nat, lo: nat, n: nat)
    requires n <= |s|
  {
    forall c {:trigger MinEdge(s, b, c)} :: b < c < n && lo <= Parent(b, c) ==> MinEdge(s, b, c)
  }

  /** Every node of s[0..n) whose position is at least lo is at least each of its children. */
  ghost predicate MaxHeapFrom(s: seq<int>, lo: nat, n: nat)
    requires n <= |s|
  {
    forall c {:trigger MaxEdge(s, c)} :: 0 < c < n && lo <= Parent(0, c) ==> MaxEdge(s, c)
  }

  /** Nodes from b + (n-b)/2 on have no children, so the min-heap condition holds there. */
  lemma MinHeapLeaves(s: seq<int>, b: nat, n: nat)
    requires b <= n <= |s|
    ensures MinHeapFrom(s, b, b + (n - b) / 2, n)
  {
    forall c | b < c < n ensures Parent(b, c) < b + (n - b) / 2 {
    }
  }

  /** Nodes from n/2 on have no children, so the max-heap condition holds there. */
  lemma MaxHeapLeaves(s: seq<int>, n: nat)
    requires n <= |s|
    ensures MaxHeapFrom(s, n / 2, n)
  {
    forall c | 0 < c < n ensures Parent(0, c) < n / 2 {
    }
  }

  /** The root of a min-heap is at most every element of the heap. */
  lemma {:induction false} MinHeapRootIsMin(s: seq<int>, b: nat, n: nat, k: nat)
    requires b <= k < n <= |s| && MinHeapFrom(s, b, b, n)
    ensures s[b] <= s[k]
    decreases k
  {
    if k > b {
      assert MinEdge(s, b, k);
      MinHeapRootIsMin(s, b, n, Parent(b, k));
    }
  }

  /** The root of a min-heap is its least element. */
  lemma MinHeapRootIsLeast(s: seq<int>, b: nat, n: nat)
    requires b < n <= |s| && MinHeapFrom(s, b, b, n)
    ensures forall k :: b <= k < n ==> s[b] <= s[k]
  {
    forall k | b <= k < n ensures s[b] <= s[k] {
      MinHeapRootIsMin(s, b, n, k);
    }
  }

  /** The root of a max-heap is at least every element of the heap. */
  lemma {:induction false} MaxHeapRootIsMax(s: seq<int>, n: nat, k: nat)
    requires k < n <= |s| && MaxHeapFrom(s, 0, n)
    ensures s[k] <= s[0]
    decreases k
  {
    if k > 0 {
      assert MaxEdge(s, k);
      MaxHeapRootIsMax(s, n, Parent(0, k));
    }
  }

  /**
   * The min-heap condition while a[p] is being sifted down from p0: it holds
   * for every node from p0 except p, and p's parent is at most p's children.
   */
  ghost predicate MinSifting(s: seq<int>, b: nat, p0: nat, n: nat, p: nat)
    requires b <= p0 <= p < n <= |s|
  {
    (forall c {:trigger MinEdge(s, b, c)} :: b < c < n && p0 <= Parent(b, c) && Parent(b, c) != p ==> MinEdge(s, b, c)) &&
    (p > p0 ==> forall c {:trigger UnderGrandparent(s, b, p, c)} :: b < c < n && Parent(b, c) == p ==> UnderGrandparent(s, b, p, c))
  }

  /** c is at least the parent of p (c being a child of p, its grandparent). */
  ghost predicate UnderGrandparent(s: seq<int>, b: nat, p: nat, c: nat)
    requires b < p < |s| && c < |s|
  {
    s[Parent(b, p)] <= s[c]
  }

  /** Once p is at most its children, the heap holds from p0. */
  lemma MinSiftDone(s: seq<int>, b: nat, p0: nat, n: nat, p: nat)
    requires b <= p0 <= p < n <= |s| && MinSifting(s, b, p0, n, p)
    requires var c := b + 2 * (p - b) + 1; c < n ==> s[p] <= s[c] && (c + 1 < n ==> s[p] <= s[c + 1])
    ensures MinHeapFrom(s, b, p0, n)
  {
    forall c | b < c < n && p0 <= Parent(b, c)
      ensures MinEdge(s, b, c)
    {
    }
  }

  /**
   * Exchanging p with its smaller child c, when that child is smaller than
   * p, moves the hole down to c.
   */
  lemma MinSiftSwap(s: seq<int>, b: nat, p0: nat, n: nat, p: nat, c0: nat, c: nat)
    requires b <= p0 <= p < n <= |s| && MinSifting(s, b, p0, n, p)
    requires c0 == b + 2 * (p - b) + 1 && (c == c0 || c == c0 + 1) && c < n
    requires s[c] <= s[c0] && (c0 + 1 < n ==> s[c] <= s[c0 + 1])
    requires s[p] > s[c]
    ensures MinSifting(Swap(s, p, c), b, p0, n, c)
  {
    var t := Swap(s, p, c);
    assert Parent(b, c) == p;
    forall d | b < d < n && p0 <= Parent(b, d) && Parent(b, d) != c
      ensures MinEdge(t, b, d)
    {
      var q := Parent(b, d);
      if q == p {
        // the other child of p, now below the smaller child
        assert d == c || t[d] == s[d];
      } else if d == p {
        // p's own parent, which was at most p's children
        assert UnderGrandparent(s, b, p, c);
      } else if d != c {
        assert MinEdge(s, b, d);
      }
    }
    forall d | b < d < n && Parent(b, d) == c
      ensures UnderGrandparent(t, b, c, d)
    {
      assert MinEdge(s, b, d);
    }
  }

  /**
   * Sift a[p0] down the min-heap based at b that fills the rest of the array
   * (the inner `while (1)` of main.c:91-102). Every exchange puts a smaller
   * element before a larger one, so the array is either left as it was or
   * has strictly fewer inversions.
   */
  method SiftDownMin(a: array<int>, b: nat, p0: nat)
    requires b <= p0 < a.Length
    requires MinHeapFrom(a[..], b, p0 + 1, a.Length)
    modifies a
    ensures MinHeapFrom(a[..], b, p0, a.Length)
    ensures a[..p0] == old(a[..p0])
    ensures multiset(a[p0..]) == multiset(old(a[p0..]))
    ensures a[..] == old(a[..]) || Inversions(a[..]) < Inversions(old(a[..]))
  {
    ghost var A0 := a[..];
    var n := a.Length;
    var parent := p0;
    while true
      invariant p0 <= parent < n
      invariant a[..p0] == A0[..p0]
      invariant multiset(a[p0..]) == multiset(A0[p0..])
      invariant a[..] == A0 || Inversions(a[..]) < Inversions(A0)
      invariant MinSifting(a[..], b, p0, n, parent)
      decreases n - parent
    {
      var child := b + ((parent - b) * 2 + 1);
      if child >= n {
        MinSiftDone(a[..], b, p0, n, parent);
        break;
      }
      ghost var first := child;
      if child + 1 < n && a[child] > a[child + 1] {
        child := child + 1;
      }
      if a[parent] <= a[child] {
        MinSiftDone(a[..], b, p0, n, parent);
        break;
      }
      ghost var prev := a[..];
      var aux := a[parent];
      a[parent] := a[child];
      a[child] := aux;
      assert a[..] == Swap(prev, parent, child);
      MinSiftSwap(prev, b, p0, n, parent, first, child);
      SwapInversionDecreases(prev, parent, child);
      SwapSuffix(prev, p0, parent, child);
      parent := child;
    }
  }

  /**
   * The max-heap condition while a[p] is being sifted down from p0: it holds
   * for every node from p0 except p, and p's parent is at least p's children.
   */
  ghost predicate MaxSifting(s: seq<int>, p0: nat, n: nat, p: nat)
    requires p0 <= p < n <= |s|
  {
    (forall c {:trigger MaxEdge(s, c)} :: 0 < c < n && p0 <= Parent(0, c) && Parent(0, c) != p ==> MaxEdge(s, c)) &&
    (p > p0 ==> forall c {:trigger OverGrandparent(s, p, c)} :: 0 < c < n && Parent(0, c) == p ==> OverGrandparent(s, p, c))
  }

  /** c is at most the parent of p (c being a child of p, its grandparent). */
  ghost predicate OverGrandparent(s: seq<int>, p: nat, c: nat)
    requires 0 < p < |s| && c < |s|
  {
    s[Parent(0, p)] >= s[c]
  }

  /** Once p is at least its children, the heap holds from p0. */
  lemma MaxSiftDone(s: seq<int>, p0: nat, n: nat, p: nat)
    requires p0 <= p < n <= |s| && MaxSifting(s, p0, n, p)
    requires var c := 2 * p + 1; c < n ==> s[p] >= s[c] && (c + 1 < n ==> s[p] >= s[c + 1])
    ensures MaxHeapFrom(s, p0, n)
  {
    forall c | 0 < c < n && p0 <= Parent(0, c)
      ensures MaxEdge(s, c)
    {
    }
  }

  /**
   * Exchanging p with its larger child c, when that child is larger than
   * p, moves the hole down to c.
   */
  lemma MaxSiftSwap(s: seq<int>, p0: nat, n: nat, p: nat, c0: nat, c: nat)
    requires p0 <= p < n <= |s| && MaxSifting(s, p0, n, p)
    requires c0 == 2 * p + 1 && (c == c0 || c == c0 + 1) && c < n
    requires s[c] >= s[c0] && (c0 + 1 < n ==> s[c] >= s[c0 + 1])
    requires s[p] < s[c]
    ensures MaxSifting(Swap(s, p, c), p0, n, c)
  {
    var t := Swap(s, p, c);
    assert Parent(0, c) == p;
    forall d | 0 < d < n && p0 <= Parent(0, d) && Parent(0, d) != c
      ensures MaxEdge(t, d)
    {
      var q := Parent(0, d);
      if q == p {
        // the other child of p, now above the larger child
        assert d == c || t[d] == s[d];
      } else if d == p {
        // p's own parent, which was at least p's children
        assert OverGrandparent(s, p, c);
      } else if d != c {
        assert MaxEdge(s, d);
      }
    }
    forall d | 0 < d < n && Parent(0, d) == c
      ensures OverGrandparent(t, c, d)
    {
      assert MaxEdge(s, d);
    }
  }

  /**
   * Sift a[p0] down the max-heap a[0..n) (the inner `while (1)` of
   * main.c:202-213 and 222-233, where `child > n-1` is `child >= n` for the
   * n >= 1 both callers use).
   */
  method SiftDownMax(a: array<int>, p0: nat, n: nat)
    requires p0 < n <= a.Length
    requires MaxHeapFrom(a[..], p0 + 1, n)
    modifies a
    ensures MaxHeapFrom(a[..], p0, n)
    ensures a[..p0] == old(a[..p0]) && a[n..] == old(a[n..])
    ensures multiset(a[p0..n]) == multiset(old(a[p0..n]))
  {
    ghost var A0 := a[..];
    var parent := p0;
    while true
      invariant p0 <= parent < n
      invariant a[..p0] == A0[..p0] && a[n..] == A0[n..]
      invariant multiset(a[p0..n]) == multiset(A0[p0..n])
      invariant MaxSifting(a[..], p0, n, parent)
      decreases n - parent
    {
      var child := parent * 2 + 1;
      if child >= n {
        MaxSiftDone(a[..], p0, n, parent);
        break;
      }
      ghost var first := child;
      if child + 1 < n && a[child] < a[child + 1] {
        child := child + 1;
      }
      if a[parent] >= a[child] {
        MaxSiftDone(a[..], p0, n, parent);
        break;
      }
      ghost var prev := a[..];
      var aux := a[parent];
      a[parent] := a[child];
      a[child] := aux;
      assert a[..] == Swap(prev, parent, child);
      MaxSiftSwap(prev, p0, n, parent, first, child);
      SwapInside(prev, p0, n, parent, child);
      parent := child;
    }
  }
}

/**
 * Order-theoretic vocabulary shared by every sort and pass of main.c:
 * sortedness, maximal runs, descents (run boundaries), inversions and the
 * exchange of two elements.
 */
module Orders {

  /** Non-decreasing: every element is at most every later one. */
  ghost predicate Sorted(s: seq<int>) {
    forall i, j :: 0 <= i < j < |s| ==> s[i] <= s[j]
  }

  /** The check the benchmark performs after each run: adjacent pairs in order. */
  ghost predicate AdjacentSorted(s: seq<int>) {
    forall i :: 0 < i < |s| ==> s[i - 1] <= s[i]
  }

  lemma {:induction false} AdjacentSortedIsSorted(s: seq<int>)
    ensures AdjacentSorted(s) <==> Sorted(s)
  {
    if |s| >= 2 && AdjacentSorted(s) {
      var t := s[..|s| - 1];
      assert AdjacentSorted(t) by {
        forall i | 0 < i < |t| ensures t[i - 1] <= t[i] {
          assert t[i - 1] == s[i - 1] && t[i] == s[i];
        }
      }
      AdjacentSortedIsSorted(t);
      forall i, j | 0 <= i < j < |s| ensures s[i] <= s[j] {
        if j < |s| - 1 {
          assert t[i] <= t[j];
        } else if i < j - 1 {
          assert t[i] <= t[j - 1];
        }
      }
    }
  }

  /** Every element of s is at least b. */
  ghost predicate Below(b: int, s: seq<int>) {
    forall k :: 0 <= k < |s| ==> b <= s[k]
  }

  lemma SortedCons(h: int, r: seq<int>)
    requires Below(h, r) && Sorted(r)
    ensures Sorted([h] + r)
  {
    var s := [h] + r;
    forall i, j | 0 <= i < j < |s| ensures s[i] <= s[j] {
      if i > 0 {
        assert s[i] == r[i - 1] && s[j] == r[j - 1];
      } else {
        assert s[j] == r[j - 1];
      }
    }
  }

  /** A permutation keeps every upper bound of the elements. */
  lemma BoundedByPermutation(s: seq<int>, t: seq<int>, b: int)
    requires multiset(s) == multiset(t)
    requires forall k :: 0 <= k < |t| ==> t[k] <= b
    ensures forall k :: 0 <= k < |s| ==> s[k] <= b
  {
    forall k | 0 <= k < |s| ensures s[k] <= b {
      assert s[k] in multiset(s);
      assert s[k] in t;
    }
  }

  /** Splitting a suffix splits its multiset. */
  lemma MultisetSplit(s: seq<int>, i: nat, j: nat)
    requires i <= j <= |s|
    ensures multiset(s[i..]) == multiset(s[i..j]) + multiset(s[j..])
  {
    assert s[i..] == s[i..j] + s[j..];
  }

  /** A block that permutes x + y followed by one that permutes z permutes x + y + z. */
  lemma JoinPermutation(m: seq<int>, rest: seq<int>, x: seq<int>, y: seq<int>, z: seq<int>)
    requires multiset(m) == multiset(x) + multiset(y) && multiset(rest) == multiset(z)
    ensures multiset(m + rest) == multiset(x) + multiset(y) + multiset(z)
  {
  }

  /** Keeping s[..b] and the multiset of s[b..] keeps the multiset of s. */
  lemma PrefixSuffixPermutation(s0: seq<int>, s: seq<int>, b: nat)
    requires b <= |s0| && b <= |s|
    requires s[..b] == s0[..b] && multiset(s[b..]) == multiset(s0[b..])
    ensures multiset(s) == multiset(s0)
  {
    assert s == s[..b] + s[b..];
    assert s0 == s0[..b] + s0[b..];
  }

  /** The last element of r is at least every element of r. */
  ghost predicate MaxLast(r: seq<int>)
  {
    r != [] && forall k :: 0 <= k < |r| ==> r[k] <= r[|r| - 1]
  }

  /** A sequence whose last element is its maximum ends at least each of its elements. */
  lemma MaxLastBound(r: seq<int>, x: int)
    requires MaxLast(r) && x in multiset(r)
    ensures x <= r[|r| - 1]
  {
    var j :| 0 <= j < |r| && r[j] == x;
  }

  // ---------------------------------------------------------------------------
  // Runs

  /**
   * The end of the maximal non-decreasing run that starts at i: the loop
   * `for (mid = ini+1; mid < length && array[mid-1] <= array[mid]; mid++)`.
   */
  function RunEnd(s: seq<int>, i: nat): (r: nat)
    requires i < |s|
    ensures i < r <= |s|
    ensures r < |s| ==> s[r - 1] > s[r]
    decreases |s| - i
  {
    if i + 1 < |s| && s[i] <= s[i + 1] then RunEnd(s, i + 1) else i + 1
  }

  /** The run found by RunEnd is sorted, so RunEnd finds a maximal run. */
  lemma {:induction false} RunIsSorted(s: seq<int>, i: nat)
    requires i < |s|
    ensures Sorted(s[i..RunEnd(s, i)])
    decreases |s| - i
  {
    if i + 1 < |s| && s[i] <= s[i + 1] {
      var r := RunEnd(s, i + 1);
      var t := s[i + 1..r];
      assert Sorted(t) by {
        RunIsSorted(s, i + 1);
      }
      assert Below(s[i], t) by {
        assert t[0] == s[i + 1];
        forall k | 0 <= k < |t| ensures s[i] <= t[k] {
          assert t[0] <= t[k];
        }
      }
      assert Sorted([s[i]] + t) by {
        SortedCons(s[i], t);
      }
      assert s[i..r] == [s[i]] + t;
    }
  }

  /** The first run covers the whole sequence exactly when it is sorted. */
  lemma FirstRunCoversIffSorted(s: seq<int>)
    requires |s| >= 1
    ensures RunEnd(s, 0) == |s| <==> Sorted(s)
  {
    RunIsSorted(s, 0);
    assert s[0..|s|] == s;
  }

  // ---------------------------------------------------------------------------
  // Descents: the boundaries between maximal runs

  /** Number of positions i, 0 < i < k, with s[i-1] > s[i]. */
  ghost function DescentsBelow(s: seq<int>, k: nat): nat
    requires k <= |s|
  {
    if k < 2 then 0 else DescentsBelow(s, k - 1) + (if s[k - 2] > s[k - 1] then 1 else 0)
  }

  /** Number of descents of s; a non-empty s has Descents(s) + 1 maximal runs. */
  ghost function Descents(s: seq<int>): nat
  {
    DescentsBelow(s, |s|)
  }

  /** Number of maximal runs. */
  ghost function Runs(s: seq<int>): nat
  {
    if s == [] then 0 else 1 + Descents(s)
  }

  lemma {:induction false} NoDescentsBelowIff(s: seq<int>, k: nat)
    requires k <= |s|
    ensures DescentsBelow(s, k) == 0 <==> forall i :: 0 < i < k ==> s[i - 1] <= s[i]
  {
    if k >= 2 {
      NoDescentsBelowIff(s, k - 1);
    }
  }

  /** A sequence is sorted exactly when it has no descent (one run at most). */
  lemma NoDescentsIffSorted(s: seq<int>)
    ensures Descents(s) == 0 <==> Sorted(s)
  {
    NoDescentsBelowIff(s, |s|);
    AdjacentSortedIsSorted(s);
  }

  /** The count below k only looks at the first k elements. */
  lemma {:induction false} DescentsBelowPrefix(s: seq<int>, t: seq<int>, k: nat)
    requires k <= |s| && k <= |t| && s[..k] == t[..k]
    ensures DescentsBelow(s, k) == DescentsBelow(t, k)
  {
    if k >= 2 {
      assert s[k - 2] == s[..k][k - 2] && s[k - 1] == s[..k][k - 1];
      assert t[k - 2] == t[..k][k - 2] && t[k - 1] == t[..k][k - 1];
      assert s[..k - 1] == s[..k][..k - 1] && t[..k - 1] == t[..k][..k - 1];
      DescentsBelowPrefix(s, t, k - 1);
    }
  }

  lemma {:induction false} DescentsAppendBelow(x: seq<int>, y: seq<int>, j: nat)
    requires |x| > 0 && 1 <= j <= |y|
    ensures DescentsBelow(x + y, |x| + j) ==
      Descents(x) + DescentsBelow(y, j) + (if x[|x| - 1] > y[0] then 1 else 0)
  {
    var s := x + y;
    if j == 1 {
      assert s[..|x|] == x[..|x|];
      DescentsBelowPrefix(s, x, |x|);
    } else {
      DescentsAppendBelow(x, y, j - 1);
      assert s[|x| + j - 2] == y[j - 2] && s[|x| + j - 1] == y[j - 1];
    }
  }

  /** Descents of a concatenation: those of each part plus possibly one at the seam. */
  lemma DescentsAppend(x: seq<int>, y: seq<int>)
    ensures Descents(x + y) ==
      Descents(x) + Descents(y) + (if |x| > 0 && |y| > 0 && x[|x| - 1] > y[0] then 1 else 0)
  {
    if |x| == 0 {
      assert x + y == y;
    } else if |y| == 0 {
      assert x + y == x;
    } else {
      DescentsAppendBelow(x, y, |y|);
    }
  }

  // ---------------------------------------------------------------------------
  // Inversions

  /** The pairs of positions i < j whose elements are out of order. */
  ghost function InversionPairs(s: seq<int>): set<(int, int)>
  {
    set i, j | 0 <= i < j < |s| && s[i] > s[j] :: (i, j)
  }

  /** Number of inversions: zero exactly for sorted sequences. */
  ghost function Inversions(s: seq<int>): nat
  {
    |InversionPairs(s)|
  }

  lemma NoInversionsIffSorted(s: seq<int>)
    ensures Inversions(s) == 0 <==> Sorted(s)
  {
    if !Sorted(s) {
      var i, j :| 0 <= i < j < |s| && s[i] > s[j];
      InversionPairsMember(s, i, j);
    } else {
      assert InversionPairs(s) == {};
    }
  }

  /** Exchange the elements at positions i and j. */
  function Swap(s: seq<int>, i: nat, j: nat): (r: seq<int>)
    requires i < |s| && j < |s|
    ensures |r| == |s| && r[i] == s[j] && r[j] == s[i]
    ensures forall k :: 0 <= k < |s| && k != i && k != j ==> r[k] == s[k]
    ensures multiset(r) == multiset(s)
  {
    s[i := s[j]][j := s[i]]
  }

  /** An exchange inside [lo, hi) keeps everything outside and permutes the inside. */
  lemma SwapInside(s: seq<int>, lo: nat, hi: nat, i: nat, j: nat)
    requires lo <= i < hi && lo <= j < hi && hi <= |s|
    ensures Swap(s, i, j)[..lo] == s[..lo] && Swap(s, i, j)[hi..] == s[hi..]
    ensures multiset(Swap(s, i, j)[lo..hi]) == multiset(s[lo..hi])
  {
    assert Swap(s, i, j)[lo..hi] == Swap(s[lo..hi], i - lo, j - lo);
  }

  /** An exchange at or after lo keeps the prefix and permutes the suffix. */
  lemma SwapSuffix(s: seq<int>, lo: nat, i: nat, j: nat)
    requires lo <= i < |s| && lo <= j < |s|
    ensures Swap(s, i, j)[..lo] == s[..lo]
    ensures multiset(Swap(s, i, j)[lo..]) == multiset(s[lo..])
  {
    assert Swap(s, i, j)[lo..] == Swap(s[lo..], i - lo, j - lo);
  }

  /** Position x with i and j exchanged. */
  function Exchange(x: int, i: int, j: int): int
  {
    if x == i then j else if x == j then i else x
  }

  /**
   * The pairing that matches each inversion after exchanging positions i < j
   * with an inversion before it: a pair that meets {i, j} in one position and
   * whose other position lies outside (i, j) has that position exchanged;
   * every other pair stays as it is.
   */
  function Relabel(p: (int, int), i: int, j: int): (int, int)
  {
    var a, b := p.0, p.1;
    var aIn, bIn := a == i || a == j, b == i || b == j;
    if aIn == bIn then p
    else
      var k := if aIn then b else a;
      if i < k < j then p else (Exchange(a, i, j), Exchange(b, i, j))
  }

  lemma RelabelInvolution(p: (int, int), i: int, j: int)
    requires i < j
    ensures Relabel(Relabel(p, i, j), i, j) == p
  {
  }

  /** An injection from A into B shows A is no larger than B. */
  lemma {:induction false} InjectionCardinality(A: set<(int, int)>, B: set<(int, int)>, g: ((int, int)) -> (int, int))
    requires forall p :: p in A ==> g(p) in B
    requires forall p, q :: p in A && q in A && g(p) == g(q) ==> p == q
    ensures |A| <= |B|
    decreases A
  {
    if A != {} {
      var p :| p in A;
      InjectionCardinality(A - {p}, B - {g(p)}, g);
    }
  }

  lemma InversionPairsMember(s: seq<int>, a: int, b: int)
    ensures (a, b) in InversionPairs(s) <==> 0 <= a < b < |s| && s[a] > s[b]
  {
  }

  /**
   * Exchanging an out-of-order pair i < j (s[i] > s[j]) strictly lowers the
   * number of inversions, whatever the distance between i and j.
   */
  lemma SwapInversionDecreases(s: seq<int>, i: nat, j: nat)
    requires i < j < |s| && s[i] > s[j]
    ensures Inversions(Swap(s, i, j)) < Inversions(s)
  {
    var t := Swap(s, i, j);
    var A := InversionPairs(t);
    var B := InversionPairs(s) - {(i, j)};
    var g := (p: (int, int)) => Relabel(p, i, j);
    forall p | p in A ensures g(p) in B {
      var a, b := p.0, p.1;
      InversionPairsMember(t, a, b);
      var q := g(p);
      if a != i && a != j && b != i && b != j {
        InversionPairsMember(s, a, b);
      } else if a == i && b == j {
        assert false;
      } else {
        assert q.0 < q.1 && s[q.0] > s[q.1];
        InversionPairsMember(s, q.0, q.1);
      }
    }
    forall p, q | p in A && q in A && g(p) == g(q) ensures p == q {
      RelabelInvolution(p, i, j);
      RelabelInvolution(q, i, j);
    }
    InjectionCardinality(A, B, g);
    InversionPairsMember(s, i, j);
  }

  /**
   * The first position from k on holding an element greater than x, or |s|:
   * the scan of main.c:86, and the insertion point that the binary search of
   * main.c:173-179 finds in a sorted prefix.
   */
  function FirstAbove(s: seq<int>, x: int, k: nat): (r: nat)
    requires k <= |s|
    ensures k <= r <= |s|
    ensures forall m :: k <= m < r ==> s[m] <= x
    ensures r < |s| ==> s[r] > x
    decreases |s| - k
  {
    if k == |s| || s[k] > x then k else FirstAbove(s, x, k + 1)
  }

  /** FirstAbove stops no later than any position holding an element above x. */
  lemma {:induction false} FirstAboveAtMost(s: seq<int>, x: int, k: nat, m: nat)
    requires k <= m < |s| && s[m] > x
    ensures FirstAbove(s, x, k) <= m
    decreases m - k
  {
    if k < m && s[k] <= x {
      FirstAboveAtMost(s, x, k + 1, m);
    }
  }

  /** Any position with only elements at most x before it and one above x at it is FirstAbove. */
  lemma FirstAboveIs(s: seq<int>, x: int, j: nat)
    requires j <= |s|
    requires forall m :: 0 <= m < j ==> s[m] <= x
    requires j < |s| ==> s[j] > x
    ensures FirstAbove(s, x, 0) == j
  {
  }

  /** Two non-empty sorted permutations start with the same element, their least. */
  lemma SortedHeadsEqual(x: seq<int>, y: seq<int>)
    requires Sorted(x) && Sorted(y) && multiset(x) == multiset(y) && x != []
    ensures y != [] && x[0] == y[0]
  {
    assert x[0] in multiset(x);
    var i :| 0 <= i < |y| && y[i] == x[0];
    assert y[0] in multiset(y);
    var j :| 0 <= j < |x| && x[j] == y[0];
  }

  /** Sorted sequences with the same head and multiset have sorted tails with equal multisets. */
  lemma SameHeadTails(x: seq<int>, y: seq<int>)
    requires x != [] && y != [] && x[0] == y[0] && multiset(x) == multiset(y)
    requires Sorted(x) && Sorted(y)
    ensures multiset(x[1..]) == multiset(y[1..])
    ensures Sorted(x[1..]) && Sorted(y[1..])
    ensures x == [x[0]] + x[1..] && y == [y[0]] + y[1..]
  {
    TailMultiset(x);
    TailMultiset(y);
  }

  /** Dropping the head removes one copy of it from the multiset. */
  lemma TailMultiset(x: seq<int>)
    requires x != []
    ensures x == [x[0]] + x[1..]
    ensures multiset(x[1..]) == multiset(x) - multiset{x[0]}
  {
    assert x == [x[0]] + x[1..];
    assert multiset(x) == multiset{x[0]} + multiset(x[1..]);
  }

  /** A sorted sequence is determined by its elements: two sorted permutations are equal. */
  lemma {:induction false} SortedUnique(x: seq<int>, y: seq<int>)
    requires Sorted(x) && Sorted(y) && multiset(x) == multiset(y)
    ensures x == y
    decreases |x|
  {
    if x == [] {
      assert |y| == |multiset(y)| == 0;
    } else {
      SortedHeadsEqual(x, y);
      SameHeadTails(x, y);
      SortedUnique(x[1..], y[1..]);
    }
  }
}

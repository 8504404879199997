/**
 * The merge family of main.c as functions on sequences: the left-biased
 * two-way merge, one natural-merge sweep (every adjacent pair of maximal
 * runs merged), one fixed-step sweep (bottom-up merge sort) and the result
 * of repeating natural sweeps until the data is sorted.
 */
module Merging {
  import opened Orders

  /**
   * Merge of two sequences as the loops `if (array[x] <= array[y]) take x
   * else take y` followed by the two tail copies compute it: on a tie the
   * element of the left run goes first, which is what makes the merge stable.
   */
  function Merge(x: seq<int>, y: seq<int>): (r: seq<int>)
    ensures |r| == |x| + |y|
    decreases |x| + |y|
  {
    if x == [] then y
    else if y == [] then x
    else if x[0] <= y[0] then [x[0]] + Merge(x[1..], y)
    else [y[0]] + Merge(x, y[1..])
  }

  /** Putting the same head on a block and on one of its two sources. */
  lemma ConsPermutes(h: int, t: seq<int>, other: seq<int>, r: seq<int>, whole: seq<int>, src: seq<int>)
    requires |r| == |t| + |other| && multiset(r) == multiset(t) + multiset(other)
    requires whole == [h] + r && src == [h] + t
    ensures |whole| == |src| + |other|
    ensures multiset(whole) == multiset(src) + multiset(other)
  {
  }

  /** The merge is a permutation of its two inputs together. */
  lemma {:induction false} MergePermutes(x: seq<int>, y: seq<int>)
    ensures |Merge(x, y)| == |x| + |y|
    ensures multiset(Merge(x, y)) == multiset(x) + multiset(y)
    decreases |x| + |y|
  {
    if x == [] {
      assert Merge(x, y) == y;
    } else if y == [] {
      assert Merge(x, y) == x;
    } else if x[0] <= y[0] {
      var r := Merge(x[1..], y);
      assert Merge(x, y) == [x[0]] + r;
      MergePermutes(x[1..], y);
      ConsPermutes(x[0], x[1..], y, r, Merge(x, y), x);
    } else {
      var r := Merge(x, y[1..]);
      assert Merge(x, y) == [y[0]] + r;
      MergePermutes(x, y[1..]);
      assert multiset(r) == multiset(y[1..]) + multiset(x);
      ConsPermutes(y[0], y[1..], x, r, Merge(x, y), y);
    }
  }

  lemma {:induction false} MergeBelow(b: int, x: seq<int>, y: seq<int>)
    requires Below(b, x) && Below(b, y)
    ensures Below(b, Merge(x, y))
    decreases |x| + |y|
  {
    if x != [] && y != [] {
      if x[0] <= y[0] {
        MergeBelow(b, x[1..], y);
      } else {
        MergeBelow(b, x, y[1..]);
      }
    }
  }

  /** Merging two sorted runs gives a sorted run. */
  lemma {:induction false} MergeSorted(x: seq<int>, y: seq<int>)
    requires Sorted(x) && Sorted(y)
    ensures Sorted(Merge(x, y))
    decreases |x| + |y|
  {
    if x != [] && y != [] {
      if x[0] <= y[0] {
        MergeSorted(x[1..], y);
        MergeBelow(x[0], x[1..], y);
        SortedCons(x[0], Merge(x[1..], y));
      } else {
        MergeSorted(x, y[1..]);
        MergeBelow(y[0], x, y[1..]);
        SortedCons(y[0], Merge(x, y[1..]));
      }
    }
  }

  /** The merge starts with the smaller of the two heads. */
  lemma MergeHead(x: seq<int>, y: seq<int>)
    requires x != []
    ensures Merge(x, y) != [] && Merge(x, y)[0] <= x[0]
  {
  }

  // ---------------------------------------------------------------------------
  // One natural-merge sweep

  /**
   * The output of one sweep over s[ini..]: the maximal runs are taken in
   * pairs and each pair is merged; a trailing unpaired run is kept as it is.
   */
  ghost function Sweep(s: seq<int>, ini: nat): (r: seq<int>)
    requires ini <= |s|
    ensures |r| == |s| - ini
    decreases |s| - ini
  {
    if ini == |s| then []
    else
      var mid := RunEnd(s, ini);
      if mid == |s| then s[ini..]
      else
        var end := RunEnd(s, mid);
        Merge(s[ini..mid], s[mid..end]) + Sweep(s, end)
  }

  /** The end of the first block a sweep writes (one run, or the first pair of runs). */
  function FirstBlockEnd(s: seq<int>): (e: nat)
    requires |s| >= 1
    ensures 0 < e <= |s|
  {
    var mid := RunEnd(s, 0);
    if mid == |s| then |s| else RunEnd(s, mid)
  }

  /** One step of the sweep: two runs merged, then the sweep from `end`. */
  lemma SweepUnfold(s: seq<int>, ini: nat, mid: nat, end: nat)
    requires ini < |s| && mid == RunEnd(s, ini) && mid < |s| && end == RunEnd(s, mid)
    ensures Sweep(s, ini) == Merge(s[ini..mid], s[mid..end]) + Sweep(s, end)
  {
  }

  /** A last run that reaches the end is left as it is. */
  lemma SweepLoneRun(s: seq<int>, ini: nat)
    requires ini < |s| && RunEnd(s, ini) == |s|
    ensures Sweep(s, ini) == s[ini..]
  {
  }

  /** A sweep is a permutation of the part it covers. */
  lemma {:induction false} SweepPermutes(s: seq<int>, ini: nat)
    requires ini <= |s|
    ensures |Sweep(s, ini)| == |s| - ini
    ensures multiset(Sweep(s, ini)) == multiset(s[ini..])
    decreases |s| - ini
  {
    if ini < |s| {
      var mid := RunEnd(s, ini);
      if mid < |s| {
        var end := RunEnd(s, mid);
        var m, rest := Merge(s[ini..mid], s[mid..end]), Sweep(s, end);
        SweepUnfold(s, ini, mid, end);
        SweepPermutes(s, end);
        MergePermutes(s[ini..mid], s[mid..end]);
        JoinPermutation(m, rest, s[ini..mid], s[mid..end], s[end..]);
        MultisetSplit(s, ini, mid);
        MultisetSplit(s, mid, end);
      }
    }
  }

  /** A maximal run has no descent. */
  lemma RunHasNoDescent(s: seq<int>, i: nat)
    requires i < |s|
    ensures Descents(s[i..RunEnd(s, i)]) == 0
  {
    RunIsSorted(s, i);
    NoDescentsIffSorted(s[i..RunEnd(s, i)]);
  }

  /**
   * One merged pair of runs x, y against its output block m: the input has
   * the descent between x and y (and one more before a non-empty rest),
   * the sorted block at most one at its seam.
   */
  lemma PairBlockDescents(x: seq<int>, y: seq<int>, restIn: seq<int>, m: seq<int>, restOut: seq<int>,
                          input: seq<int>, output: seq<int>)
    requires x != [] && y != [] && Descents(x) == 0 && Descents(y) == 0 && x[|x| - 1] > y[0]
    requires Descents(m) == 0
    requires restIn == [] ==> restOut == []
    requires restIn != [] ==> y[|y| - 1] > restIn[0]
    requires 2 * Descents(restOut) <= Descents(restIn)
    requires input == x + (y + restIn) && output == m + restOut
    ensures 2 * Descents(output) <= Descents(input)
  {
    DescentsAppend(m, restOut);
    DescentsAppend(y, restIn);
    DescentsAppend(x, y + restIn);
    assert (y + restIn)[0] == y[0];
  }

  /** A suffix cut at two points. */
  lemma SuffixThree(s: seq<int>, i: nat, j: nat, k: nat)
    requires i <= j <= k <= |s|
    ensures s[i..] == s[i..j] + (s[j..k] + s[k..])
  {
    assert s[j..] == s[j..k] + s[k..];
    assert s[i..] == s[i..j] + s[j..];
  }

  /** Merging two adjacent runs in front of a block that halves descents halves them overall. */
  lemma PairHalvesDescents(s: seq<int>, ini: nat, mid: nat, end: nat, rest: seq<int>)
    requires ini < |s| && mid == RunEnd(s, ini) && mid < |s| && end == RunEnd(s, mid)
    requires 2 * Descents(rest) <= Descents(s[end..])
    requires end == |s| ==> rest == []
    ensures 2 * Descents(Merge(s[ini..mid], s[mid..end]) + rest) <= Descents(s[ini..])
  {
    var x, y := s[ini..mid], s[mid..end];
    var m := Merge(x, y);
    assert Descents(x) == 0 && Descents(y) == 0 by {
      RunHasNoDescent(s, ini);
      RunHasNoDescent(s, mid);
    }
    assert Descents(m) == 0 by {
      RunIsSorted(s, ini);
      RunIsSorted(s, mid);
      MergeSorted(x, y);
      NoDescentsIffSorted(m);
    }
    SuffixThree(s, ini, mid, end);
    assert x[|x| - 1] == s[mid - 1] && y[0] == s[mid];
    if end < |s| {
      assert y[|y| - 1] == s[end - 1] && s[end..][0] == s[end];
    }
    PairBlockDescents(x, y, s[end..], m, rest, s[ini..], m + rest);
  }

  /**
   * A sweep at least halves the number of descents: each merged pair of runs
   * hides the descent between them and leaves at most the seam to the next
   * block.
   */
  lemma {:induction false} SweepHalvesDescents(s: seq<int>, ini: nat)
    requires ini <= |s|
    ensures 2 * Descents(Sweep(s, ini)) <= Descents(s[ini..])
    decreases |s| - ini
  {
    if ini < |s| {
      var mid := RunEnd(s, ini);
      if mid < |s| {
        var end := RunEnd(s, mid);
        SweepUnfold(s, ini, mid, end);
        SweepHalvesDescents(s, end);
        SweepPermutes(s, end);
        PairHalvesDescents(s, ini, mid, end, Sweep(s, end));
      } else {
        RunHasNoDescent(s, ini);
        assert s[ini..mid] == s[ini..];
      }
    }
  }

  /** Measured in runs: k runs become at most ceil(k/2). */
  lemma SweepHalvesRuns(s: seq<int>)
    ensures Runs(Sweep(s, 0)) <= (Runs(s) + 1) / 2
  {
    SweepHalvesDescents(s, 0);
    SweepPermutes(s, 0);
    assert s[0..] == s;
  }

  /** A sorted sequence has a single run, and a sweep leaves it as it is. */
  lemma SweepKeepsSorted(s: seq<int>)
    requires Sorted(s)
    ensures Sweep(s, 0) == s
  {
    if |s| > 0 {
      FirstRunCoversIffSorted(s);
    }
  }

  /** The block a sweep writes first starts no higher than the element it starts at. */
  lemma SweepHead(s: seq<int>, ini: nat)
    requires ini < |s|
    ensures |Sweep(s, ini)| > 0 && Sweep(s, ini)[0] <= s[ini]
  {
    SweepPermutes(s, ini);
    var mid := RunEnd(s, ini);
    if mid < |s| {
      var end := RunEnd(s, mid);
      var m := Merge(s[ini..mid], s[mid..end]);
      MergeHead(s[ini..mid], s[mid..end]);
      SweepUnfold(s, ini, mid, end);
      assert Sweep(s, ini)[0] == m[0];
    }
  }

  /** A descent at the seam of two blocks leaves their concatenation unsorted. */
  lemma SeamDescentUnsorted(m: seq<int>, rest: seq<int>)
    requires |m| > 0 && |rest| > 0 && m[|m| - 1] > rest[0]
    ensures !Sorted(m + rest)
  {
    var out := m + rest;
    assert out[|m| - 1] == m[|m| - 1] && out[|m|] == rest[0];
  }

  /**
   * The sweep's result is sorted exactly when the first block reaches the
   * end, that is, when there are at most two runs.
   */
  lemma SweepSortedIff(s: seq<int>)
    requires |s| >= 1
    ensures Sorted(Sweep(s, 0)) <==> FirstBlockEnd(s) == |s|
  {
    var mid := RunEnd(s, 0);
    if mid == |s| {
      assert s[0..] == s;
      FirstRunCoversIffSorted(s);
      SweepLoneRun(s, 0);
    } else {
      var end := RunEnd(s, mid);
      SweepUnfold(s, 0, mid, end);
      if end == |s| {
        FirstPairSorted(s, mid, end);
        assert Sweep(s, end) == [];
      } else {
        FirstPairSeam(s, mid, end);
      }
    }
  }

  /** The first two runs merged are sorted. */
  lemma FirstPairSorted(s: seq<int>, mid: nat, end: nat)
    requires |s| >= 1 && mid == RunEnd(s, 0) && mid < |s| && end == RunEnd(s, mid)
    ensures Sorted(Merge(s[0..mid], s[mid..end]))
  {
    RunIsSorted(s, 0);
    RunIsSorted(s, mid);
    MergeSorted(s[0..mid], s[mid..end]);
  }

  /** A sorted sequence holding every element of y ends with one at least the last of y. */
  lemma LastAtLeast(t: seq<int>, y: seq<int>)
    requires Sorted(t) && |y| > 0 && multiset(y) <= multiset(t)
    ensures |t| > 0 && t[|t| - 1] >= y[|y| - 1]
  {
    assert y[|y| - 1] in multiset(y) && y[|y| - 1] in multiset(t);
    assert MaxLast(t);
    MaxLastBound(t, y[|y| - 1]);
  }

  /** A third run leaves a descent after the first merged pair. */
  lemma FirstPairSeam(s: seq<int>, mid: nat, end: nat)
    requires |s| >= 1 && mid == RunEnd(s, 0) && mid < |s| && end == RunEnd(s, mid) && end < |s|
    ensures !Sorted(Merge(s[0..mid], s[mid..end]) + Sweep(s, end))
  {
    var x, y := s[0..mid], s[mid..end];
    FirstPairSorted(s, mid, end);
    MergePermutes(x, y);
    RunEndsInDescent(s, mid, end);
    SweepHead(s, end);
    SeamAfterBlock(Merge(x, y), y, Sweep(s, end), s[end]);
  }

  /** The last element of a run that stops before the end is above the next one. */
  lemma RunEndsInDescent(s: seq<int>, mid: nat, end: nat)
    requires mid < |s| && end == RunEnd(s, mid) && end < |s|
    ensures |s[mid..end]| > 0 && s[mid..end][|s[mid..end]| - 1] > s[end]
  {
    assert s[mid..end][end - 1 - mid] == s[end - 1];
  }

  /**
   * A sorted block holding every element of y, followed by a block whose head
   * is at most b, is not sorted when the last of y is above b.
   */
  lemma SeamAfterBlock(m: seq<int>, y: seq<int>, rest: seq<int>, b: int)
    requires Sorted(m) && |y| > 0 && multiset(y) <= multiset(m)
    requires y[|y| - 1] > b && |rest| > 0 && rest[0] <= b
    ensures !Sorted(m + rest)
  {
    LastAtLeast(m, y);
    SeamDescentUnsorted(m, rest);
  }

  /**
   * The result of repeating natural sweeps until one leaves the data sorted:
   * what `for (stop = 0; !stop; stop = NaturalMergePseudoSort(array, length));`
   * computes.
   */
  ghost function Drain(s: seq<int>): (r: seq<int>)
    ensures Sorted(r)
    decreases Descents(s)
  {
    var t := Sweep(s, 0);
    if Sorted(t) then t
    else
      SweepProgress(s);
      Drain(t)
  }

  /** A sweep whose result is not yet sorted strictly lowers the descents. */
  lemma SweepProgress(s: seq<int>)
    requires !Sorted(Sweep(s, 0))
    ensures Descents(Sweep(s, 0)) < Descents(s)
  {
    if Sorted(s) {
      SweepKeepsSorted(s);
    }
    NoDescentsIffSorted(s);
    SweepHalvesDescents(s, 0);
    assert s[0..] == s;
  }

  /** Draining ends sorted and is a permutation of its input. */
  lemma {:induction false} DrainSortedPermutation(s: seq<int>)
    ensures Sorted(Drain(s))
    ensures multiset(Drain(s)) == multiset(s)
    decreases Descents(s)
  {
    var t := Sweep(s, 0);
    SweepPermutes(s, 0);
    assert s[0..] == s;
    if !Sorted(t) {
      SweepProgress(s);
      DrainSortedPermutation(t);
    }
  }

  // ---------------------------------------------------------------------------
  // One fixed-step sweep (bottom-up merge sort)

  /** `mid`/`end` of the fixed-step sweep: `(ini+step > length) ? length : ini+step`. */
  function Clamp(i: nat, n: nat): nat
  {
    if i > n then n else i
  }

  /** The output of one fixed-step sweep over s[ini..]: blocks of `step` merged in pairs. */
  ghost function FixedSweep(s: seq<int>, ini: nat, step: nat): (r: seq<int>)
    requires ini <= |s| && step >= 1
    ensures |r| == |s| - ini
    decreases |s| - ini
  {
    if ini == |s| then []
    else
      var mid := Clamp(ini + step, |s|);
      var end := Clamp(mid + step, |s|);
      Merge(s[ini..mid], s[mid..end]) + FixedSweep(s, end, step)
  }

  /** One step of the sweep: the first merged pair, then the sweep from `end`. */
  lemma FixedSweepUnfold(s: seq<int>, ini: nat, step: nat, mid: nat, end: nat)
    requires ini < |s| && step >= 1
    requires mid == Clamp(ini + step, |s|) && end == Clamp(mid + step, |s|)
    ensures ini < mid <= end <= |s|
    ensures FixedSweep(s, ini, step) == Merge(s[ini..mid], s[mid..end]) + FixedSweep(s, end, step)
  {
  }

  /** Merging [ini,mid) with [mid,end) in front of a permutation of s[end..] permutes s[ini..]. */
  lemma PairPermutes(s: seq<int>, ini: nat, mid: nat, end: nat, whole: seq<int>, rest: seq<int>)
    requires ini <= mid <= end <= |s|
    requires whole == Merge(s[ini..mid], s[mid..end]) + rest
    requires |rest| == |s| - end && multiset(rest) == multiset(s[end..])
    ensures |whole| == |s| - ini && multiset(whole) == multiset(s[ini..])
  {
    var x, y := s[ini..mid], s[mid..end];
    MergePermutes(x, y);
    JoinPermutation(Merge(x, y), rest, x, y, s[end..]);
    MultisetSplit(s, ini, mid);
    MultisetSplit(s, mid, end);
  }

  lemma {:induction false} FixedSweepPermutes(s: seq<int>, ini: nat, step: nat)
    requires ini <= |s| && step >= 1
    ensures |FixedSweep(s, ini, step)| == |s| - ini
    ensures multiset(FixedSweep(s, ini, step)) == multiset(s[ini..])
    decreases |s| - ini
  {
    if ini < |s| {
      var mid := Clamp(ini + step, |s|);
      var end := Clamp(mid + step, |s|);
      FixedSweepUnfold(s, ini, step, mid, end);
      FixedSweepPermutes(s, end, step);
      PairPermutes(s, ini, mid, end, FixedSweep(s, ini, step), FixedSweep(s, end, step));
    }
  }

  /** t is made of consecutive sorted blocks of `step` elements (the last may be shorter). */
  ghost predicate SortedBlocks(t: seq<int>, step: nat)
    requires step >= 1
    decreases |t|
  {
    if |t| <= step then Sorted(t)
    else Sorted(t[..step]) && SortedBlocks(t[step..], step)
  }

  /** Any sequence is made of sorted blocks of one element. */
  lemma {:induction false} UnitBlocksSorted(t: seq<int>)
    ensures SortedBlocks(t, 1)
    decreases |t|
  {
    if |t| > 1 {
      UnitBlocksSorted(t[1..]);
    }
  }

  /** A full sorted block in front of sorted blocks gives sorted blocks. */
  lemma BlocksCons(m: seq<int>, rest: seq<int>, step: nat)
    requires step >= 1 && Sorted(m) && SortedBlocks(rest, step)
    requires |m| == step || (|m| <= step && rest == [])
    ensures SortedBlocks(m + rest, step)
  {
    var out := m + rest;
    if |out| > step {
      assert out[..step] == m;
      assert out[step..] == rest;
    } else {
      assert out == m;
    }
  }

  /** The first block of sorted blocks starting at ini, and the blocks after it. */
  lemma BlocksUncons(s: seq<int>, ini: nat, step: nat)
    requires ini < |s| && step >= 1 && SortedBlocks(s[ini..], step)
    ensures Sorted(s[ini..Clamp(ini + step, |s|)])
    ensures SortedBlocks(s[Clamp(ini + step, |s|)..], step)
  {
    var mid := Clamp(ini + step, |s|);
    if mid == |s| {
      assert s[ini..mid] == s[ini..];
    } else {
      assert s[ini..][..step] == s[ini..mid];
      assert s[ini..][step..] == s[mid..];
    }
  }

  /** A fixed-step sweep turns sorted blocks of `step` into sorted blocks of `2 * step`. */
  lemma {:induction false} FixedSweepDoublesBlocks(s: seq<int>, ini: nat, step: nat)
    requires ini <= |s| && step >= 1
    requires SortedBlocks(s[ini..], step)
    ensures SortedBlocks(FixedSweep(s, ini, step), 2 * step)
    decreases |s| - ini
  {
    if ini < |s| {
      var mid := Clamp(ini + step, |s|);
      var end := Clamp(mid + step, |s|);
      var x, y := s[ini..mid], s[mid..end];
      var m, rest := Merge(x, y), FixedSweep(s, end, step);
      FixedSweepUnfold(s, ini, step, mid, end);
      BlocksUncons(s, ini, step);
      if mid < |s| {
        BlocksUncons(s, mid, step);
        FixedSweepDoublesBlocks(s, end, step);
      } else {
        assert y == [] && rest == [];
      }
      assert Sorted(m) by {
        MergeSorted(x, y);
      }
      assert |m| == |x| + |y| by {
        MergePermutes(x, y);
      }
      if end == |s| {
        assert rest == [];
      }
      BlocksCons(m, rest, 2 * step);
    }
  }

  /** A whole-array sweep: sorted blocks double in width and the array is permuted. */
  lemma FixedSweepRound(s: seq<int>, step: nat)
    requires step >= 1 && SortedBlocks(s, step)
    ensures |FixedSweep(s, 0, step)| == |s|
    ensures SortedBlocks(FixedSweep(s, 0, step), 2 * step)
    ensures multiset(FixedSweep(s, 0, step)) == multiset(s)
  {
    assert s[0..] == s;
    FixedSweepDoublesBlocks(s, 0, step);
    FixedSweepPermutes(s, 0, step);
  }

  /** Blocks as long as the whole sequence: it is sorted. */
  lemma SingleBlockSorted(t: seq<int>, step: nat)
    requires step >= 1 && |t| <= step && SortedBlocks(t, step)
    ensures Sorted(t)
  {
  }
}

/**
 * The loops main.c repeats in every merge routine, as methods on arrays:
 * the scan for the end of a run, the merge of two adjacent blocks into the
 * other buffer (with its two `memcpy` tail copies) and the two kinds of
 * sweep (natural runs, fixed-size blocks). Each is proved to compute the
 * sequence function of module Merging that specifies it.
 */
module Sweeps {
  import opened Orders
  import opened Merging

  /** `memcpy(&dst[to], &src[from], count*size)` on two distinct buffers. */
  method CopyRange(src: array<int>, from: nat, dst: array<int>, to: nat, count: nat)
    requires src != dst
    requires from + count <= src.Length && to + count <= dst.Length
    modifies dst
    ensures dst[..to] == old(dst[..to])
    ensures dst[to..to + count] == src[from..from + count]
    ensures dst[to + count..] == old(dst[to + count..])
  {
    var i := 0;
    while i < count
      invariant 0 <= i <= count
      invariant dst[..to] == old(dst[..to])
      invariant dst[to..to + i] == src[from..from + i]
      invariant dst[to + i..] == old(dst[to + i..])
    {
      dst[to + i] := src[from + i];
      assert dst[to..to + i + 1] == dst[to..to + i] + [src[from + i]];
      assert src[from..from + i + 1] == src[from..from + i] + [src[from + i]];
      i := i + 1;
    }
  }

  /**
   * The scan `for (r = j; r < length && a[r-1] <= a[r]; r++);`: from a
   * position inside the array it stops at the end of the run containing
   * a[j-1]; started past the end it does nothing.
   */
  method ScanRun(a: array<int>, j: nat) returns (r: nat)
    requires 1 <= j
    ensures j <= a.Length ==> r == RunEnd(a[..], j - 1)
    ensures j > a.Length ==> r == j
  {
    r := j;
    while r < a.Length && a[r - 1] <= a[r]
      invariant j <= r
      invariant j > a.Length ==> r == j
      invariant j <= a.Length ==> r <= a.Length && RunEnd(a[..], r - 1) == RunEnd(a[..], j - 1)
      decreases a.Length - r
    {
      r := r + 1;
    }
  }

  /**
   * `ini`, `mid` and `end` of one natural-merge step: the run from ini, the
   * run after it, and `if (end > length) end = length` for a last run with
   * no partner.
   */
  method NextRuns(a: array<int>, ini: nat) returns (mid: nat, end: nat)
    requires ini < a.Length
    ensures mid == RunEnd(a[..], ini)
    ensures end == if mid < a.Length then RunEnd(a[..], mid) else a.Length
  {
    mid := ScanRun(a, ini + 1);
    end := ScanRun(a, mid + 1);
    if end > a.Length {
      end := a.Length;
    }
  }

  lemma MergeRightEmpty(x: seq<int>)
    ensures Merge(x, []) == x
  {
  }

  /** One step of the merge loop on the blocks s[x, mid) and s[y, end). */
  lemma MergeStep(s: seq<int>, x: nat, mid: nat, y: nat, end: nat)
    requires x < mid <= y < end <= |s|
    ensures s[x] <= s[y] ==> Merge(s[x..mid], s[y..end]) == [s[x]] + Merge(s[x + 1..mid], s[y..end])
    ensures s[x] > s[y] ==> Merge(s[x..mid], s[y..end]) == [s[y]] + Merge(s[x..mid], s[y + 1..end])
  {
    var left, right := s[x..mid], s[y..end];
    assert left[0] == s[x] && left[1..] == s[x + 1..mid];
    assert right[0] == s[y] && right[1..] == s[y + 1..end];
  }

  /** Appending the head taken from the rest of a merge keeps the whole. */
  lemma TakeHead(done: seq<int>, v: int, rest: seq<int>, rest': seq<int>, whole: seq<int>)
    requires done + rest == whole && rest == [v] + rest'
    ensures (done + [v]) + rest' == whole
  {
  }

  /**
   * One turn of the merge loop: the smaller head (the left one on a tie)
   * written at k extends the output block and leaves the rest of the merge.
   */
  lemma MergeLoopStep(s: seq<int>, before: seq<int>, after: seq<int>, z: nat, k: nat,
                      x: nat, mid: nat, y: nat, end: nat, x2: nat, y2: nat,
                      whole: seq<int>, d0: seq<int>)
    requires x < mid <= y < end <= |s| && z <= k < |before|
    requires after == before[k := if s[x] <= s[y] then s[x] else s[y]]
    requires s[x] <= s[y] ==> x2 == x + 1 && y2 == y
    requires s[x] > s[y] ==> x2 == x && y2 == y + 1
    requires before[z..k] + Merge(s[x..mid], s[y..end]) == whole
    requires |d0| == |before| && before[..z] == d0[..z] && before[k..] == d0[k..]
    ensures after[..z] == d0[..z] && after[k + 1..] == d0[k + 1..]
    ensures after[z..k + 1] + Merge(s[x2..mid], s[y2..end]) == whole
  {
    MergeStep(s, x, mid, y, end);
    assert d0[k + 1..] == d0[k..][1..] && before[k + 1..] == before[k..][1..];
    var v := after[k];
    assert after[z..k + 1] == before[z..k] + [v];
    TakeHead(before[z..k], v, Merge(s[x..mid], s[y..end]), Merge(s[x2..mid], s[y2..end]), whole);
  }

  /**
   * The state after a copy into after[k..k2] when after agreed with before
   * elsewhere: the frame below z is kept and the block from z is extended.
   */
  lemma CopyExtends(before: seq<int>, after: seq<int>, z: nat, k: nat, k2: nat, tail: seq<int>)
    requires z <= k <= k2 <= |before| == |after|
    requires after[..k] == before[..k] && after[k..k2] == tail && after[k2..] == before[k2..]
    ensures after[..z] == before[..z] && after[z..k2] == before[z..k] + tail
  {
    assert after[..z] == after[..k][..z];
    assert before[..z] == before[..k][..z];
    assert after[z..k] == after[..k][z..];
    assert before[z..k] == before[..k][z..];
    assert after[z..k2] == after[z..k] + after[k..k2];
  }

  /**
   * A sweep's invariant step: the output so far followed by what is left to
   * produce is the whole output, and writing the next block keeps it so.
   */
  lemma BlockAppended(before: seq<int>, after: seq<int>, z: nat, z2: nat, block: seq<int>,
                      rest: seq<int>, rest': seq<int>, total: seq<int>)
    requires z <= z2 <= |after| && z <= |before|
    requires after[..z] == before[..z] && after[z..z2] == block
    requires before[..z] + rest == total && rest == block + rest'
    ensures after[..z2] + rest' == total
  {
    assert after[..z2] == after[..z] + after[z..z2];
  }

  /** The natural sweep's invariant step: one more pair of runs written. */
  lemma NaturalBlockStep(s: seq<int>, before: seq<int>, after: seq<int>, ini: nat, mid: nat, end: nat)
    requires ini < |s| && mid == RunEnd(s, ini)
    requires end == if mid < |s| then RunEnd(s, mid) else |s|
    requires ini <= |before| && end <= |after|
    requires after[..ini] == before[..ini] && after[ini..end] == Merge(s[ini..mid], s[mid..end])
    requires before[..ini] + Sweep(s, ini) == Sweep(s, 0)
    ensures after[..end] + Sweep(s, end) == Sweep(s, 0)
  {
    var block := Merge(s[ini..mid], s[mid..end]);
    if mid < |s| {
      SweepUnfold(s, ini, mid, end);
    } else {
      MergeRightEmpty(s[ini..mid]);
      assert s[mid..end] == [] && s[ini..mid] == s[ini..];
      assert Sweep(s, ini) == s[ini..] && Sweep(s, end) == [];
    }
    BlockAppended(before, after, ini, end, block, Sweep(s, ini), Sweep(s, end), Sweep(s, 0));
  }

  /**
   * Where a block of the natural sweep ends: the first block ends at
   * FirstBlockEnd, and every later one starts at or after it.
   */
  lemma NaturalBlockBounds(s: seq<int>, ini: nat, mid: nat, end: nat)
    requires ini < |s| && mid == RunEnd(s, ini)
    requires end == if mid < |s| then RunEnd(s, mid) else |s|
    requires ini > 0 ==> ini >= FirstBlockEnd(s)
    ensures ini < end && end >= FirstBlockEnd(s)
    ensures ini == 0 <==> end == FirstBlockEnd(s)
  {
  }

  /**
   * Where a pair of blocks of the fixed-step sweep ends: the first pair ends
   * at 2 * step (or the end), and every later one starts at or after it.
   */
  lemma FixedBlockBounds(n: nat, step: nat, first: nat, ini: nat, mid: nat, end: nat)
    requires ini < n && step >= 1 && first == Clamp(2 * step, n)
    requires mid == Clamp(ini + step, n) && end == Clamp(mid + step, n)
    requires ini > 0 ==> ini >= first
    ensures ini < end && end >= first
    ensures ini == 0 <==> end == first
  {
  }

  /** The fixed-step sweep's invariant step: one more pair of blocks written. */
  lemma FixedBlockStep(s: seq<int>, step: nat, before: seq<int>, after: seq<int>, ini: nat, mid: nat, end: nat)
    requires ini < |s| && step >= 1
    requires mid == Clamp(ini + step, |s|) && end == Clamp(mid + step, |s|)
    requires ini <= |before| && end <= |after|
    requires after[..ini] == before[..ini] && after[ini..end] == Merge(s[ini..mid], s[mid..end])
    requires before[..ini] + FixedSweep(s, ini, step) == FixedSweep(s, 0, step)
    ensures after[..end] + FixedSweep(s, end, step) == FixedSweep(s, 0, step)
  {
    var block := Merge(s[ini..mid], s[mid..end]);
    FixedSweepUnfold(s, ini, step, mid, end);
    BlockAppended(before, after, ini, end, block, FixedSweep(s, ini, step), FixedSweep(s, end, step),
                  FixedSweep(s, 0, step));
  }

  /**
   * The loop of the merge of src[ini, mid) with src[mid, end) into dst from
   * z: it takes the smaller head (the left one on a tie) until one block is
   * used up; what is left of the merge is then the tail of the other block.
   */
  method MergeHeads(src: array<int>, dst: array<int>, ini: nat, mid: nat, end: nat, z: nat)
      returns (x: nat, y: nat, k: nat)
    requires src != dst
    requires ini <= mid <= end <= src.Length && z + (end - ini) <= dst.Length
    modifies dst
    ensures ini <= x <= mid <= y <= end && (x == mid || y == end)
    ensures k == z + (x - ini) + (y - mid)
    ensures dst[..z] == old(dst[..z])
    ensures dst[k..] == old(dst[k..])
    ensures dst[z..k] + Merge(src[x..mid], src[y..end]) == Merge(src[ini..mid], src[mid..end])
  {
    ghost var s := src[..];
    ghost var whole, d0 := Merge(s[ini..mid], s[mid..end]), dst[..];
    x, y, k := ini, mid, z;
    while x < mid && y < end
      invariant src[..] == s
      invariant ini <= x <= mid <= y <= end
      invariant k == z + (x - ini) + (y - mid)
      invariant dst[..z] == d0[..z] && dst[k..] == d0[k..]
      invariant dst[z..k] + Merge(s[x..mid], s[y..end]) == whole
      decreases (mid - x) + (end - y)
    {
      ghost var before, x0, y0 := dst[..], x, y;
      if src[x] <= src[y] {
        dst[k] := src[x];
        x := x + 1;
      } else {
        dst[k] := src[y];
        y := y + 1;
      }
      MergeLoopStep(s, before, dst[..], z, k, x0, mid, y0, end, x, y, whole, d0);
      k := k + 1;
    }
  }

  /**
   * The `memcpy` of whichever block the merge loop did not use up
   * (main.c:142-143): with one block empty, the rest of the merge is the
   * other block.
   */
  method CopyTail(src: array<int>, dst: array<int>, x: nat, mid: nat, y: nat, end: nat, k: nat)
    requires src != dst
    requires x <= mid <= y <= end <= src.Length && (x == mid || y == end)
    requires k + (mid - x) + (end - y) <= dst.Length
    modifies dst
    ensures dst[..k] == old(dst[..k])
    ensures dst[k..k + (mid - x) + (end - y)] == Merge(src[x..mid], src[y..end])
    ensures dst[k + (mid - x) + (end - y)..] == old(dst[k + (mid - x) + (end - y)..])
  {
    if x < mid {
      assert src[y..end] == [];
      MergeRightEmpty(src[x..mid]);
      CopyRange(src, x, dst, k, mid - x);
    } else if y < end {
      assert src[x..mid] == [];
      CopyRange(src, y, dst, k, end - y);
    } else {
      assert src[x..mid] == [] && src[y..end] == [];
    }
  }

  /**
   * The merge of src[ini, mid) with src[mid, end) into dst[z, z+end-ini):
   * the loop, then the `memcpy` of whichever block is not used up.
   */
  method MergeRuns(src: array<int>, dst: array<int>, ini: nat, mid: nat, end: nat, z: nat)
    requires src != dst
    requires ini <= mid <= end <= src.Length && z + (end - ini) <= dst.Length
    modifies dst
    ensures dst[..z] == old(dst[..z])
    ensures dst[z..z + (end - ini)] == Merge(src[ini..mid], src[mid..end])
    ensures dst[z + (end - ini)..] == old(dst[z + (end - ini)..])
  {
    ghost var d0 := dst[..];
    var x, y, k := MergeHeads(src, dst, ini, mid, end, z);
    ghost var before := dst[..];
    ghost var tail := Merge(src[x..mid], src[y..end]);
    ghost var k2 := z + (end - ini);
    assert k + (mid - x) + (end - y) == k2;
    CopyTail(src, dst, x, mid, y, end, k);
    ghost var after := dst[..];
    CopyExtends(before, after, z, k, k2, tail);
    SuffixOfSuffix(before, d0, k, k2);
  }

  /** Agreement from k on implies agreement from any later k2. */
  lemma SuffixOfSuffix(d: seq<int>, e: seq<int>, k: nat, k2: nat)
    requires k <= k2 <= |d| == |e| && d[k..] == e[k..]
    ensures d[k2..] == e[k2..]
  {
    assert d[k2..] == d[k..][k2 - k..];
    assert e[k2..] == e[k..][k2 - k..];
  }

  /**
   * One natural-merge sweep of src into dst (main.c:256-274, repeated with
   * the buffers exchanged at 280-298). The start of the last block it
   * handled is 0 exactly when the first block covered everything.
   */
  method NaturalSweep(src: array<int>, dst: array<int>) returns (ini: nat)
    requires src != dst && src.Length == dst.Length && src.Length >= 1
    modifies dst
    ensures dst[..] == Sweep(src[..], 0)
    ensures ini == 0 <==> FirstBlockEnd(src[..]) == src.Length
  {
    ghost var s := src[..];
    var n := src.Length;
    var z, end := 0, 0;
    ini := 0;
    while end < n
      invariant end <= n && z == end
      invariant dst[..end] + Sweep(s, end) == Sweep(s, 0)
      invariant end > 0 ==> end >= FirstBlockEnd(s) && ini < end
      invariant end > 0 ==> (ini == 0 <==> end == FirstBlockEnd(s))
      invariant end == 0 ==> ini == 0
      decreases n - end
    {
      ini := end;
      var mid;
      mid, end := NextRuns(src, ini);
      NaturalBlockBounds(s, ini, mid, end);
      ghost var before := dst[..];
      MergeRuns(src, dst, ini, mid, end, z);
      ghost var after := dst[..];
      assert src[..] == s && z == ini && z + (end - ini) == end;
      assert src[ini..mid] == s[ini..mid] && src[mid..end] == s[mid..end];
      assert after[..ini] == before[..ini];
      assert after[ini..end] == Merge(s[ini..mid], s[mid..end]);
      NaturalBlockStep(s, before, after, ini, mid, end);
      z := z + (end - ini);
    }
    assert dst[..] == dst[..end];
  }

  /**
   * One fixed-step sweep of src into dst (main.c:320-337, repeated with the
   * buffers exchanged at 343-361): blocks of `step` merged in pairs. The
   * start of the last pair is 0 exactly when one pair covered everything.
   */
  method FixedStepSweep(src: array<int>, dst: array<int>, step: nat) returns (ini: nat)
    requires src != dst && src.Length == dst.Length && src.Length >= 1 && step >= 1
    modifies dst
    ensures dst[..] == FixedSweep(src[..], 0, step)
    ensures ini == 0 <==> 2 * step >= src.Length
  {
    ghost var s := src[..];
    var n := src.Length;
    ghost var first := Clamp(2 * step, n);
    var z, end := 0, 0;
    ini := 0;
    while end < n
      invariant end <= n && z == end
      invariant dst[..end] + FixedSweep(s, end, step) == FixedSweep(s, 0, step)
      invariant end > 0 ==> end >= first && ini < end
      invariant end > 0 ==> (ini == 0 <==> end == first)
      invariant end == 0 ==> ini == 0
      decreases n - end
    {
      ini := end;
      var mid := Clamp(ini + step, n);
      end := Clamp(mid + step, n);
      FixedBlockBounds(n, step, first, ini, mid, end);
      ghost var before := dst[..];
      MergeRuns(src, dst, ini, mid, end, z);
      ghost var after := dst[..];
      assert src[..] == s && z == ini && z + (end - ini) == end;
      assert src[ini..mid] == s[ini..mid] && src[mid..end] == s[mid..end];
      assert after[..ini] == before[..ini];
      assert after[ini..end] == Merge(s[ini..mid], s[mid..end]);
      FixedBlockStep(s, step, before, after, ini, mid, end);
      z := z + (end - ini);
    }
    assert dst[..] == dst[..end];
  }
}

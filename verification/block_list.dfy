/**
 * The address-ordered view of a heap: the sequence of blocks, free and
 * allocated, in the order of their addresses. Both allocators of the
 * repository keep their heap in this shape (the host engine as a linked list
 * of records, the in-memory allocator as boundary tags in the heap words), so
 * the fit searches and the block mutators are specified here once, on values,
 * and proved to keep the heap contiguous and free of adjacent free blocks.
 */
module BlockList {
  import opened Wrappers

  /** One block: its address, its size in bytes (overhead included), and whether it is allocated. */
  datatype Block = Block(ptr: nat, size: nat, alloc: bool)

  /** Sum of the sizes of the blocks. */
  function Total(v: seq<Block>): nat
  {
    if v == [] then 0 else v[0].size + Total(v[1..])
  }

  /** The blocks tile the region that starts at `base`: each begins where its predecessor ends. */
  ghost predicate Contiguous(v: seq<Block>, base: nat)
  {
    && (|v| > 0 ==> v[0].ptr == base)
    && (forall i :: 0 < i < |v| ==> v[i].ptr == v[i - 1].ptr + v[i - 1].size)
  }

  /** Every block has a nonzero size (a size of zero marks the sentinel). */
  ghost predicate PositiveSizes(v: seq<Block>)
  {
    forall i :: 0 <= i < |v| ==> v[i].size > 0
  }

  /** The shape every engine operation keeps: contiguous from `base`, with no empty block. */
  ghost predicate WellFormed(v: seq<Block>, base: nat)
  {
    Contiguous(v, base) && PositiveSizes(v)
  }

  /** No two address-adjacent blocks are both free. */
  ghost predicate NoAdjacentFree(v: seq<Block>)
  {
    forall i :: 0 < i < |v| ==> v[i - 1].alloc || v[i].alloc
  }

  /**
   * The only adjacent free pairs, if any, involve block `i`: the state right
   * after block `i` was freed, appended or carved off, before coalescing.
   */
  ghost predicate AdjacentFreeOnlyAt(v: seq<Block>, i: nat)
  {
    forall j :: 0 < j < |v| && !v[j - 1].alloc && !v[j].alloc ==> j == i || j == i + 1
  }

  // ---------------------------------------------------------------------------
  // Sums and addresses

  lemma {:induction false} TotalAppend(a: seq<Block>, b: seq<Block>)
    ensures Total(a + b) == Total(a) + Total(b)
  {
    if a == [] {
      assert a + b == b;
    } else {
      assert (a + b)[1..] == a[1..] + b;
      TotalAppend(a[1..], b);
    }
  }

  /** In a contiguous list, each block starts at `base` plus the sizes of the blocks before it. */
  lemma {:induction false} PtrIsOffset(v: seq<Block>, base: nat, i: nat)
    requires Contiguous(v, base)
    requires i < |v|
    ensures v[i].ptr == base + Total(v[..i])
  {
    if i == 0 {
      assert v[..0] == [];
    } else {
      PtrIsOffset(v, base, i - 1);
      assert v[..i] == v[..i - 1] + [v[i - 1]];
      TotalAppend(v[..i - 1], [v[i - 1]]);
      assert Total([v[i - 1]]) == v[i - 1].size + Total([]);
    }
  }

  /** The first free address after a contiguous list is `base` plus its total size. */
  lemma {:induction false} EndIsBasePlusTotal(v: seq<Block>, base: nat)
    requires Contiguous(v, base)
    requires |v| > 0
    ensures v[|v| - 1].ptr + v[|v| - 1].size == base + Total(v)
  {
    var n := |v| - 1;
    PtrIsOffset(v, base, n);
    assert v == v[..n] + [v[n]];
    TotalAppend(v[..n], [v[n]]);
    assert Total([v[n]]) == v[n].size + Total([]);
  }

  /** A well-formed list is sorted by address, and its blocks do not overlap. */
  lemma {:induction false} SortedNoOverlap(v: seq<Block>, base: nat, i: nat, j: nat)
    requires WellFormed(v, base)
    requires i < j < |v|
    ensures v[i].ptr + v[i].size <= v[j].ptr
    ensures v[i].ptr < v[j].ptr
    decreases j - i
  {
    if i + 1 < j {
      SortedNoOverlap(v, base, i + 1, j);
    }
  }

  /** Block addresses are distinct, so an address identifies at most one block. */
  lemma {:induction false} DistinctPtrs(v: seq<Block>, base: nat, i: nat, j: nat)
    requires WellFormed(v, base)
    requires i < |v| && j < |v| && i != j
    ensures v[i].ptr != v[j].ptr
  {
    if i < j { SortedNoOverlap(v, base, i, j); } else { SortedNoOverlap(v, base, j, i); }
  }

  /** Every block lies inside [base, base + Total(v)). */
  lemma {:induction false} BlockWithinRegion(v: seq<Block>, base: nat, i: nat)
    requires WellFormed(v, base)
    requires i < |v|
    ensures base <= v[i].ptr && v[i].ptr + v[i].size <= base + Total(v)
  {
    PtrIsOffset(v, base, i);
    var n := |v| - 1;
    EndIsBasePlusTotal(v, base);
    if i < n {
      SortedNoOverlap(v, base, i, n);
    }
  }

  // ---------------------------------------------------------------------------
  // Lookup by address

  /** Index of the first block whose address is `ptr`: the walk of a linear pointer search. */
  function FindFrom(v: seq<Block>, ptr: nat, i: nat): (r: Option<nat>)
    requires i <= |v|
    ensures r.Some? ==> i <= r.value < |v| && v[r.value].ptr == ptr
    decreases |v| - i
  {
    if i == |v| then None
    else if v[i].ptr == ptr then Some(i)
    else FindFrom(v, ptr, i + 1)
  }

  function Find(v: seq<Block>, ptr: nat): (r: Option<nat>)
    ensures r.Some? ==> r.value < |v| && v[r.value].ptr == ptr
  {
    FindFrom(v, ptr, 0)
  }

  lemma {:induction false} FindFromSpec(v: seq<Block>, ptr: nat, i: nat)
    requires i <= |v|
    ensures FindFrom(v, ptr, i).None? ==> forall k :: i <= k < |v| ==> v[k].ptr != ptr
    ensures FindFrom(v, ptr, i).Some? ==>
      var j := FindFrom(v, ptr, i).value;
      i <= j < |v| && v[j].ptr == ptr && forall k :: i <= k < j ==> v[k].ptr != ptr
    decreases |v| - i
  {
    if i < |v| && v[i].ptr != ptr {
      FindFromSpec(v, ptr, i + 1);
    }
  }

  /** `Find` returns a block exactly when some block has that address, and then that block. */
  lemma {:induction false} FindSpec(v: seq<Block>, ptr: nat)
    ensures Find(v, ptr).None? <==> forall k :: 0 <= k < |v| ==> v[k].ptr != ptr
    ensures Find(v, ptr).Some? ==> Find(v, ptr).value < |v| && v[Find(v, ptr).value].ptr == ptr
  {
    FindFromSpec(v, ptr, 0);
  }

  /** In a well-formed list, the block that `Find` returns is the only one with that address. */
  lemma {:induction false} FindUnique(v: seq<Block>, base: nat, k: nat)
    requires WellFormed(v, base)
    requires k < |v|
    ensures Find(v, v[k].ptr) == Some(k)
  {
    FindSpec(v, v[k].ptr);
    var j := Find(v, v[k].ptr).value;
    if j != k {
      DistinctPtrs(v, base, j, k);
    }
  }

  // ---------------------------------------------------------------------------
  // Fit searches

  /** A block can hold a request of `asize` bytes: it is free and large enough. */
  predicate Fits(b: Block, asize: nat)
  {
    !b.alloc && b.size >= asize
  }

  /** First fit, scanning in address order from block `i`. */
  function FirstFitFrom(v: seq<Block>, asize: nat, i: nat): (r: Option<nat>)
    requires i <= |v|
    ensures r.Some? ==> i <= r.value < |v|
    decreases |v| - i
  {
    if i == |v| then None
    else if Fits(v[i], asize) then Some(i)
    else FirstFitFrom(v, asize, i + 1)
  }

  function FirstFit(v: seq<Block>, asize: nat): (r: Option<nat>)
    ensures r.Some? ==> r.value < |v|
  {
    FirstFitFrom(v, asize, 0)
  }

  /** Block `j` is the first block, in address order, that fits. */
  ghost predicate IsFirstFit(v: seq<Block>, asize: nat, j: nat)
  {
    j < |v| && Fits(v[j], asize) && forall k :: 0 <= k < j ==> !Fits(v[k], asize)
  }

  lemma {:induction false} FirstFitFromSpec(v: seq<Block>, asize: nat, i: nat)
    requires i <= |v|
    ensures FirstFitFrom(v, asize, i).None? ==> forall k :: i <= k < |v| ==> !Fits(v[k], asize)
    ensures FirstFitFrom(v, asize, i).Some? ==>
      var j := FirstFitFrom(v, asize, i).value;
      i <= j < |v| && Fits(v[j], asize) && forall k :: i <= k < j ==> !Fits(v[k], asize)
    decreases |v| - i
  {
    if i < |v| && !Fits(v[i], asize) {
      FirstFitFromSpec(v, asize, i + 1);
    }
  }

  /** First fit finds nothing exactly when no block fits, and otherwise the first block that fits. */
  lemma {:induction false} FirstFitSpec(v: seq<Block>, asize: nat)
    ensures FirstFit(v, asize).None? <==> forall k :: 0 <= k < |v| ==> !Fits(v[k], asize)
    ensures FirstFit(v, asize).Some? ==> IsFirstFit(v, asize, FirstFit(v, asize).value)
  {
    FirstFitFromSpec(v, asize, 0);
  }

  /**
   * Best fit, scanning in address order from block `i` with the best candidate
   * so far: a block replaces the candidate only when it is strictly smaller.
   */
  function BestFitFrom(v: seq<Block>, asize: nat, i: nat, best: Option<nat>): (r: Option<nat>)
    requires i <= |v|
    requires best.Some? ==> best.value < i
    ensures r.Some? ==> r.value < |v|
    decreases |v| - i
  {
    if i == |v| then best
    else if Fits(v[i], asize) && (best.None? || v[i].size < v[best.value].size) then
      BestFitFrom(v, asize, i + 1, Some(i))
    else
      BestFitFrom(v, asize, i + 1, best)
  }

  function BestFit(v: seq<Block>, asize: nat): (r: Option<nat>)
    ensures r.Some? ==> r.value < |v|
  {
    BestFitFrom(v, asize, 0, None)
  }

  /**
   * Among the first `n` blocks, block `j` fits, no fitting block is smaller,
   * and every fitting block before it is strictly larger (ties go to the earliest).
   */
  ghost predicate IsBestAmong(v: seq<Block>, asize: nat, j: nat, n: nat)
  {
    && j < n <= |v|
    && Fits(v[j], asize)
    && (forall k :: 0 <= k < n && Fits(v[k], asize) ==> v[j].size <= v[k].size)
    && (forall k :: 0 <= k < j && Fits(v[k], asize) ==> v[j].size < v[k].size)
  }

  ghost predicate IsBestFit(v: seq<Block>, asize: nat, j: nat)
  {
    IsBestAmong(v, asize, j, |v|)
  }

  lemma {:induction false} BestFitFromSpec(v: seq<Block>, asize: nat, i: nat, best: Option<nat>)
    requires i <= |v|
    requires best.None? ==> forall k :: 0 <= k < i ==> !Fits(v[k], asize)
    requires best.Some? ==> IsBestAmong(v, asize, best.value, i)
    ensures BestFitFrom(v, asize, i, best).None? ==> forall k :: 0 <= k < |v| ==> !Fits(v[k], asize)
    ensures BestFitFrom(v, asize, i, best).Some? ==> IsBestFit(v, asize, BestFitFrom(v, asize, i, best).value)
    decreases |v| - i
  {
    if i < |v| {
      if Fits(v[i], asize) && (best.None? || v[i].size < v[best.value].size) {
        BestFitFromSpec(v, asize, i + 1, Some(i));
      } else {
        BestFitFromSpec(v, asize, i + 1, best);
      }
    }
  }

  /**
   * Best fit finds nothing exactly when no block fits; otherwise it finds a
   * fitting block of minimum size, the earliest one among equals.
   */
  lemma {:induction false} BestFitSpec(v: seq<Block>, asize: nat)
    ensures BestFit(v, asize).None? <==> forall k :: 0 <= k < |v| ==> !Fits(v[k], asize)
    ensures BestFit(v, asize).Some? ==> IsBestFit(v, asize, BestFit(v, asize).value)
  {
    BestFitFromSpec(v, asize, 0, None);
  }

  /** The fit search selected by the policy flag (BEST_FIT). */
  function FindFit(v: seq<Block>, asize: nat, bestFit: bool): (r: Option<nat>)
    ensures r.Some? ==> r.value < |v|
  {
    if bestFit then BestFit(v, asize) else FirstFit(v, asize)
  }

  /** Both policies agree on whether there is a fit, and whatever they return fits. */
  lemma {:induction false} FindFitSpec(v: seq<Block>, asize: nat, bestFit: bool)
    ensures FindFit(v, asize, bestFit).None? <==> forall k :: 0 <= k < |v| ==> !Fits(v[k], asize)
    ensures FindFit(v, asize, bestFit).Some? ==>
      FindFit(v, asize, bestFit).value < |v| && Fits(v[FindFit(v, asize, bestFit).value], asize)
  {
    FirstFitSpec(v, asize);
    BestFitSpec(v, asize);
  }

  // ---------------------------------------------------------------------------
  // Mutators, on values

  /** Set the allocated bit of block `i`. */
  function SetAlloc(v: seq<Block>, i: nat, a: bool): seq<Block>
    requires i < |v|
  {
    v[i := v[i].(alloc := a)]
  }

  /**
   * Split block `i` after `asize` bytes: the head keeps the address and the
   * allocated bit, the tail is a new free block right after it.
   */
  function Split(v: seq<Block>, i: nat, asize: nat): seq<Block>
    requires i < |v| && asize < v[i].size
  {
    v[..i] + [v[i].(size := asize), Block(v[i].ptr + asize, v[i].size - asize, false)] + v[i + 1..]
  }

  /** Fold block `i + 1` into block `i`: the sizes add up and block `i + 1` disappears. */
  function MergeNext(v: seq<Block>, i: nat): seq<Block>
    requires i + 1 < |v|
  {
    v[..i] + [v[i].(size := v[i].size + v[i + 1].size)] + v[i + 2..]
  }

  /**
   * Move the boundary between blocks `i` and `i + 1` so that block `i` has
   * `asize` bytes; block `i + 1` keeps the rest and its allocated bit.
   */
  function MoveBoundary(v: seq<Block>, i: nat, asize: nat): seq<Block>
    requires i + 1 < |v| && asize < v[i].size + v[i + 1].size
  {
    v[..i] + [v[i].(size := asize), Block(v[i].ptr + asize, v[i].size + v[i + 1].size - asize, v[i + 1].alloc)] + v[i + 2..]
  }

  /** A new free block of `incr` bytes at the end of the region. */
  function Append(v: seq<Block>, base: nat, incr: nat): seq<Block>
  {
    v + [Block(base + Total(v), incr, false)]
  }

  /** Free neighbour on the left of block `i` (the sentinel before the first block counts as allocated). */
  predicate PrevFree(v: seq<Block>, i: nat)
    requires i < |v|
  {
    i > 0 && !v[i - 1].alloc
  }

  /** Free neighbour on the right of block `i` (the sentinel after the last block counts as allocated). */
  predicate NextFree(v: seq<Block>, i: nat)
    requires i < |v|
  {
    i + 1 < |v| && !v[i + 1].alloc
  }

  /** Coalescing block `i` with whichever of its neighbours is free, in the four cases of the source. */
  function Coalesce(v: seq<Block>, i: nat): seq<Block>
    requires i < |v|
  {
    var p, n := PrevFree(v, i), NextFree(v, i);
    if !p && !n then v
    else if !p && n then MergeNext(v, i)
    else if p && !n then MergeNext(v, i - 1)
    else MergeNext(MergeNext(v, i), i - 1)
  }

  /** Index of the block that coalescing block `i` leaves in its place. */
  function CoalescedIndex(v: seq<Block>, i: nat): nat
    requires i < |v|
  {
    if PrevFree(v, i) then i - 1 else i
  }

  // ---------------------------------------------------------------------------
  // The mutators keep the list well formed and its total size

  lemma {:induction false} TotalSplice(a: seq<Block>, m: seq<Block>, b: seq<Block>)
    ensures Total(a + m + b) == Total(a) + Total(m) + Total(b)
  {
    TotalAppend(a + m, b);
    TotalAppend(a, m);
  }

  lemma {:induction false} TotalPair(x: Block, y: Block)
    ensures Total([x, y]) == x.size + y.size
  {
    assert [x, y][1..] == [y];
    assert Total([y]) == y.size + Total([]);
  }

  lemma {:induction false} TotalSingle(x: Block)
    ensures Total([x]) == x.size
  {
    assert Total([x]) == x.size + Total([]);
  }

  /** Replacing the slice `v[lo..hi]` by `mid` changes the total by the difference of their totals. */
  lemma {:induction false} TotalReplace(v: seq<Block>, lo: nat, hi: nat, mid: seq<Block>)
    requires lo <= hi <= |v|
    ensures Total(v[..lo] + mid + v[hi..]) + Total(v[lo..hi]) == Total(v) + Total(mid)
  {
    assert v == v[..lo] + v[lo..hi] + v[hi..];
    TotalSplice(v[..lo], v[lo..hi], v[hi..]);
    TotalSplice(v[..lo], mid, v[hi..]);
  }

  lemma {:induction false} SplitContiguous(v: seq<Block>, base: nat, i: nat, asize: nat)
    requires WellFormed(v, base)
    requires i < |v| && 0 < asize < v[i].size
    ensures WellFormed(Split(v, i, asize), base)
  {
    var w := Split(v, i, asize);
    var mid := [v[i].(size := asize), Block(v[i].ptr + asize, v[i].size - asize, false)];
    assert w == v[..i] + mid + v[i + 1..];
    assert |w| == |v| + 1;
    forall j | 0 < j < |w| ensures w[j].ptr == w[j - 1].ptr + w[j - 1].size {
      if j < i {
        assert w[j] == v[j] && w[j - 1] == v[j - 1];
      } else if j == i {
        assert w[j].ptr == v[i].ptr && w[j - 1] == v[i - 1];
      } else if j == i + 1 {
      } else if j == i + 2 {
        assert w[j] == v[i + 1] && w[j - 1] == mid[1];
      } else {
        assert w[j] == v[j - 1] && w[j - 1] == v[j - 2];
      }
    }
    forall j | 0 <= j < |w| ensures w[j].size > 0 {
      if j < i {
        assert w[j] == v[j];
      } else if j > i + 1 {
        assert w[j] == v[j - 1];
      }
    }
  }

  lemma {:induction false} SplitWellFormed(v: seq<Block>, base: nat, i: nat, asize: nat)
    requires WellFormed(v, base)
    requires i < |v| && 0 < asize < v[i].size
    ensures WellFormed(Split(v, i, asize), base)
    ensures Total(Split(v, i, asize)) == Total(v)
    ensures |Split(v, i, asize)| == |v| + 1
  {
    SplitContiguous(v, base, i, asize);
    var mid := [v[i].(size := asize), Block(v[i].ptr + asize, v[i].size - asize, false)];
    assert v == v[..i] + [v[i]] + v[i + 1..];
    TotalSplice(v[..i], [v[i]], v[i + 1..]);
    TotalSplice(v[..i], mid, v[i + 1..]);
    TotalPair(mid[0], mid[1]);
    TotalSingle(v[i]);
  }

  lemma {:induction false} MergeNextContiguous(v: seq<Block>, base: nat, i: nat)
    requires WellFormed(v, base)
    requires i + 1 < |v|
    ensures WellFormed(MergeNext(v, i), base)
  {
    var w := MergeNext(v, i);
    var m := v[i].(size := v[i].size + v[i + 1].size);
    assert w == v[..i] + [m] + v[i + 2..];
    forall j | 0 < j < |w| ensures w[j].ptr == w[j - 1].ptr + w[j - 1].size {
      if j == i + 1 {
        assert w[j] == v[i + 2] && w[j - 1] == m;
      } else if j > i + 1 {
        assert w[j] == v[j + 1] && w[j - 1] == v[j];
      }
    }
  }

  lemma {:induction false} MergeNextWellFormed(v: seq<Block>, base: nat, i: nat)
    requires WellFormed(v, base)
    requires i + 1 < |v|
    ensures WellFormed(MergeNext(v, i), base)
    ensures Total(MergeNext(v, i)) == Total(v)
    ensures |MergeNext(v, i)| == |v| - 1
  {
    MergeNextContiguous(v, base, i);
    var m := v[i].(size := v[i].size + v[i + 1].size);
    TotalReplace(v, i, i + 2, [m]);
    assert v[i..i + 2] == [v[i], v[i + 1]];
    TotalPair(v[i], v[i + 1]);
    TotalSingle(m);
  }

  lemma {:induction false} MoveBoundaryContiguous(v: seq<Block>, base: nat, i: nat, asize: nat)
    requires WellFormed(v, base)
    requires i + 1 < |v| && 0 < asize < v[i].size + v[i + 1].size
    ensures WellFormed(MoveBoundary(v, i, asize), base)
  {
    var w := MoveBoundary(v, i, asize);
    var mid := [v[i].(size := asize), Block(v[i].ptr + asize, v[i].size + v[i + 1].size - asize, v[i + 1].alloc)];
    assert w == v[..i] + mid + v[i + 2..];
    forall j | 0 < j < |w| ensures w[j].ptr == w[j - 1].ptr + w[j - 1].size {
      if j == i + 2 {
        assert w[j] == v[i + 2] && w[j - 1] == mid[1];
        assert v[i + 2].ptr == v[i + 1].ptr + v[i + 1].size;
      } else if j > i + 2 {
        assert w[j] == v[j] && w[j - 1] == v[j - 1];
      }
    }
  }

  lemma {:induction false} MoveBoundaryWellFormed(v: seq<Block>, base: nat, i: nat, asize: nat)
    requires WellFormed(v, base)
    requires i + 1 < |v| && 0 < asize < v[i].size + v[i + 1].size
    ensures WellFormed(MoveBoundary(v, i, asize), base)
    ensures Total(MoveBoundary(v, i, asize)) == Total(v)
    ensures |MoveBoundary(v, i, asize)| == |v|
  {
    MoveBoundaryContiguous(v, base, i, asize);
    var mid := [v[i].(size := asize), Block(v[i].ptr + asize, v[i].size + v[i + 1].size - asize, v[i + 1].alloc)];
    TotalReplace(v, i, i + 2, mid);
    assert v[i..i + 2] == [v[i], v[i + 1]];
    TotalPair(v[i], v[i + 1]);
    TotalPair(mid[0], mid[1]);
  }

  lemma {:induction false} AppendWellFormed(v: seq<Block>, base: nat, incr: nat)
    requires WellFormed(v, base)
    requires incr > 0
    ensures WellFormed(Append(v, base, incr), base)
    ensures Total(Append(v, base, incr)) == Total(v) + incr
    ensures |Append(v, base, incr)| == |v| + 1
  {
    var w := Append(v, base, incr);
    if |v| > 0 {
      EndIsBasePlusTotal(v, base);
    }
    forall j | 0 < j < |w| ensures w[j].ptr == w[j - 1].ptr + w[j - 1].size {
      if j < |v| {
        assert w[j] == v[j] && w[j - 1] == v[j - 1];
      }
    }
    TotalAppend(v, [Block(base + Total(v), incr, false)]);
    assert Total([Block(base + Total(v), incr, false)]) == incr + Total([]);
  }

  lemma {:induction false} SetAllocWellFormed(v: seq<Block>, base: nat, i: nat, a: bool)
    requires WellFormed(v, base)
    requires i < |v|
    ensures WellFormed(SetAlloc(v, i, a), base)
    ensures Total(SetAlloc(v, i, a)) == Total(v)
  {
    var w := SetAlloc(v, i, a);
    assert w == v[..i] + [w[i]] + v[i + 1..];
    TotalReplace(v, i, i + 1, [w[i]]);
    assert v[i..i + 1] == [v[i]];
    TotalSingle(v[i]);
    TotalSingle(w[i]);
  }

  /** Coalescing keeps the list well formed and its total size. */
  lemma {:induction false} CoalesceWellFormed(v: seq<Block>, base: nat, i: nat)
    requires WellFormed(v, base)
    requires i < |v|
    ensures WellFormed(Coalesce(v, i), base)
    ensures Total(Coalesce(v, i)) == Total(v)
    ensures CoalescedIndex(v, i) < |Coalesce(v, i)|
  {
    var p, n := PrevFree(v, i), NextFree(v, i);
    if !p && n {
      MergeNextWellFormed(v, base, i);
    } else if p && !n {
      MergeNextWellFormed(v, base, i - 1);
    } else if p && n {
      MergeNextWellFormed(v, base, i);
      MergeNextWellFormed(MergeNext(v, i), base, i - 1);
    }
  }

  /** Coalescing with the free successor only: no free pair is left. */
  lemma {:induction false} CoalesceNextNoAdjacentFree(v: seq<Block>, i: nat)
    requires i + 1 < |v| && !v[i].alloc && !v[i + 1].alloc && (i == 0 || v[i - 1].alloc)
    requires AdjacentFreeOnlyAt(v, i)
    ensures NoAdjacentFree(MergeNext(v, i))
  {
    var w := MergeNext(v, i);
    forall j | 0 < j < |w| ensures w[j - 1].alloc || w[j].alloc {
      if j == i + 1 {
        assert w[j] == v[i + 2] && !w[j - 1].alloc;
      } else if j > i + 1 {
        assert w[j] == v[j + 1] && w[j - 1] == v[j];
      }
    }
  }

  /** Coalescing with the free predecessor only: no free pair is left. */
  lemma {:induction false} CoalescePrevNoAdjacentFree(v: seq<Block>, i: nat)
    requires 0 < i < |v| && !v[i].alloc && !v[i - 1].alloc && (i + 1 == |v| || v[i + 1].alloc)
    requires AdjacentFreeOnlyAt(v, i)
    ensures NoAdjacentFree(MergeNext(v, i - 1))
  {
    var w := MergeNext(v, i - 1);
    forall j | 0 < j < |w| ensures w[j - 1].alloc || w[j].alloc {
      if j == i - 1 {
        assert w[j] == v[i - 1].(size := v[i - 1].size + v[i].size) && w[j - 1] == v[i - 2];
      } else if j == i {
        assert w[j] == v[i + 1] && w[j - 1].alloc == v[i - 1].alloc;
      } else if j > i {
        assert w[j] == v[j + 1] && w[j - 1] == v[j];
      }
    }
  }

  /** Coalescing with both free neighbours: no free pair is left. */
  lemma {:induction false} CoalesceBothNoAdjacentFree(v: seq<Block>, i: nat)
    requires 0 < i && i + 1 < |v| && !v[i].alloc && !v[i - 1].alloc && !v[i + 1].alloc
    requires AdjacentFreeOnlyAt(v, i)
    ensures NoAdjacentFree(MergeNext(MergeNext(v, i), i - 1))
  {
    var w := MergeNext(MergeNext(v, i), i - 1);
    forall j | 0 < j < |w| ensures w[j - 1].alloc || w[j].alloc {
      if j == i - 1 {
        assert w[j - 1] == v[i - 2];
      } else if j == i {
        assert w[j] == v[i + 2] && !v[i + 1].alloc;
      } else if j > i {
        assert w[j] == v[j + 2] && w[j - 1] == v[j + 1];
      }
    }
  }

  /**
   * Coalescing a free block whose neighbourhood holds the only adjacent free
   * pairs leaves no two adjacent free blocks, and the block left in its place
   * is free and starts where the leftmost merged block started.
   */
  lemma {:induction false} CoalesceNoAdjacentFree(v: seq<Block>, i: nat)
    requires i < |v| && !v[i].alloc
    requires AdjacentFreeOnlyAt(v, i)
    ensures NoAdjacentFree(Coalesce(v, i))
    ensures var c := CoalescedIndex(v, i);
      c < |Coalesce(v, i)| && !Coalesce(v, i)[c].alloc && Coalesce(v, i)[c].ptr == v[c].ptr
  {
    var p, n := PrevFree(v, i), NextFree(v, i);
    if !p && !n {
      assert NoAdjacentFree(v);
    } else if !p && n {
      CoalesceNextNoAdjacentFree(v, i);
    } else if p && !n {
      CoalescePrevNoAdjacentFree(v, i);
    } else {
      CoalesceBothNoAdjacentFree(v, i);
    }
  }


  /**
   * Placing an allocation in a free block of a list without adjacent free
   * blocks keeps that property, whether the block is split or taken whole.
   */
  lemma {:induction false} PlaceNoAdjacentFree(v: seq<Block>, i: nat, asize: nat)
    requires NoAdjacentFree(v)
    requires i < |v| && !v[i].alloc
    ensures NoAdjacentFree(SetAlloc(v, i, true))
    ensures asize < v[i].size ==> NoAdjacentFree(SetAlloc(Split(v, i, asize), i, true))
  {
    var w := SetAlloc(v, i, true);
    forall j | 0 < j < |w| ensures w[j - 1].alloc || w[j].alloc {
      if j != i && j != i + 1 {
        assert w[j] == v[j] && w[j - 1] == v[j - 1];
      }
    }
    if asize < v[i].size {
      var s := SetAlloc(Split(v, i, asize), i, true);
      forall j | 0 < j < |s| ensures s[j - 1].alloc || s[j].alloc {
        if j < i {
          assert s[j] == v[j] && s[j - 1] == v[j - 1];
        } else if j == i + 2 {
          assert s[j] == v[i + 1];
          assert v[i].alloc || v[i + 1].alloc;
        } else if j > i + 2 {
          assert s[j] == v[j - 1] && s[j - 1] == v[j - 2];
        }
      }
    }
  }

  // ---------------------------------------------------------------------------
  // Addresses inside a block, and the neighbourhoods the engine operations leave

  /** An address strictly inside a block is no block's address. */
  lemma {:induction false} InteriorNotAPtr(v: seq<Block>, base: nat, i: nat, d: nat)
    requires WellFormed(v, base)
    requires i < |v| && 0 < d < v[i].size
    ensures forall j :: 0 <= j < |v| ==> v[j].ptr != v[i].ptr + d
  {
    forall j | 0 <= j < |v| ensures v[j].ptr != v[i].ptr + d {
      if j < i {
        SortedNoOverlap(v, base, j, i);
      } else if j > i {
        SortedNoOverlap(v, base, i, j);
      }
    }
  }

  /** Freeing one block of a list without adjacent free blocks leaves adjacent free pairs only around it. */
  lemma {:induction false} FreeAdjacentFreeOnlyAt(v: seq<Block>, i: nat)
    requires NoAdjacentFree(v) && i < |v|
    ensures AdjacentFreeOnlyAt(SetAlloc(v, i, false), i)
  {
    var w := SetAlloc(v, i, false);
    forall j | 0 < j < |w| && j != i && j != i + 1 ensures w[j - 1].alloc || w[j].alloc {
      assert w[j - 1] == v[j - 1] && w[j] == v[j];
    }
  }

  /** Appending a free block to a list without adjacent free blocks leaves adjacent free pairs only around it. */
  lemma {:induction false} AppendAdjacentFreeOnlyAt(v: seq<Block>, base: nat, incr: nat)
    requires NoAdjacentFree(v)
    ensures AdjacentFreeOnlyAt(Append(v, base, incr), |v|)
    ensures !Append(v, base, incr)[|v|].alloc
  {
    var w := Append(v, base, incr);
    forall j | 0 < j < |v| ensures w[j - 1].alloc || w[j].alloc {
      assert w[j - 1] == v[j - 1] && w[j] == v[j];
    }
  }

  /** Carving a free tail off a block leaves adjacent free pairs only around the tail. */
  lemma {:induction false} SplitTailAdjacentFreeOnlyAt(v: seq<Block>, i: nat, asize: nat)
    requires NoAdjacentFree(v)
    requires i < |v| && asize < v[i].size
    ensures AdjacentFreeOnlyAt(Split(v, i, asize), i + 1)
    ensures !Split(v, i, asize)[i + 1].alloc
  {
    var w := Split(v, i, asize);
    forall j | 0 < j < |w| && j != i + 1 && j != i + 2 ensures w[j - 1].alloc || w[j].alloc {
      if j <= i {
        assert w[j - 1].alloc == v[j - 1].alloc && w[j].alloc == v[j].alloc;
      } else {
        assert w[j - 1] == v[j - 2] && w[j] == v[j - 1];
      }
    }
  }

  /** Growing an allocated block into its free successor keeps the list free of adjacent free blocks. */
  lemma {:induction false} MoveBoundaryNoAdjacentFree(v: seq<Block>, i: nat, asize: nat)
    requires NoAdjacentFree(v)
    requires i + 1 < |v| && !v[i + 1].alloc && asize < v[i].size + v[i + 1].size
    ensures NoAdjacentFree(MoveBoundary(v, i, asize))
  {
    var w := MoveBoundary(v, i, asize);
    assert v[i].alloc;
    forall j | 0 < j < |w| ensures w[j - 1].alloc || w[j].alloc {
      if j < i {
        assert w[j - 1] == v[j - 1] && w[j] == v[j];
      } else if j == i {
        assert w[j].alloc;
      } else if j == i + 2 {
        assert w[j] == v[j] && !w[j - 1].alloc;
      } else if j > i + 2 {
        assert w[j - 1] == v[j - 1] && w[j] == v[j];
      }
    }
  }

  /** Folding a successor into an allocated block keeps the list free of adjacent free blocks. */
  lemma {:induction false} MergeNextNoAdjacentFree(v: seq<Block>, i: nat)
    requires NoAdjacentFree(v)
    requires i + 1 < |v| && v[i].alloc
    ensures NoAdjacentFree(MergeNext(v, i))
  {
    var w := MergeNext(v, i);
    forall j | 0 < j < |w| ensures w[j - 1].alloc || w[j].alloc {
      if j < i {
        assert w[j - 1] == v[j - 1] && w[j] == v[j];
      } else if j > i + 1 {
        assert w[j - 1] == v[j] && w[j] == v[j + 1];
      }
    }
  }

  // ---------------------------------------------------------------------------
  // The mutators block by block

  lemma {:induction false} MergeNextAt(v: seq<Block>, i: nat)
    requires i + 1 < |v|
    ensures var w := MergeNext(v, i);
      && |w| == |v| - 1
      && (forall j :: 0 <= j < i ==> w[j] == v[j])
      && w[i] == v[i].(size := v[i].size + v[i + 1].size)
      && (forall j :: i < j < |w| ==> w[j] == v[j + 1])
  {
  }

  lemma {:induction false} SplitAt(v: seq<Block>, i: nat, asize: nat)
    requires i < |v| && asize < v[i].size
    ensures var w := Split(v, i, asize);
      && |w| == |v| + 1
      && (forall j :: 0 <= j < i ==> w[j] == v[j])
      && w[i] == v[i].(size := asize)
      && w[i + 1] == Block(v[i].ptr + asize, v[i].size - asize, false)
      && (forall j :: i + 1 < j < |w| ==> w[j] == v[j - 1])
  {
  }

  lemma {:induction false} MoveBoundaryAt(v: seq<Block>, i: nat, asize: nat)
    requires i + 1 < |v| && asize < v[i].size + v[i + 1].size
    ensures var w := MoveBoundary(v, i, asize);
      && |w| == |v|
      && (forall j :: 0 <= j < |v| && j != i && j != i + 1 ==> w[j] == v[j])
      && w[i] == v[i].(size := asize)
      && w[i + 1] == Block(v[i].ptr + asize, v[i].size + v[i + 1].size - asize, v[i + 1].alloc)
  {
  }

  lemma {:induction false} AppendAt(v: seq<Block>, base: nat, incr: nat)
    ensures var w := Append(v, base, incr);
      && |w| == |v| + 1
      && (forall j :: 0 <= j < |v| ==> w[j] == v[j])
      && w[|v|] == Block(base + Total(v), incr, false)
  {
  }
}

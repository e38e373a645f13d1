/**
 * What the entry points of the host engine promise, stated on the view of
 * the heap: `mm_malloc`, `mm_free`, `mm_realloc` and `mm_sbrk` keep the heap
 * tiled without adjacent free blocks, hand out and take back exactly the
 * blocks they say, and undo each other where the allocator intends them to.
 */
module HostProperties {
  import opened Wrappers
  import opened BlockList
  import opened HostAllocator

  /** `place` keeps the tiling and the no-adjacent-free rule, and leaves block `i` allocated at exactly `asize` bytes. */
  lemma {:induction false} PlacedSpec(v: seq<Block>, base: nat, i: nat, asize: nat)
    requires WellFormed(v, base) && NoAdjacentFree(v) && i < |v| && asize > 0 && Fits(v[i], asize)
    ensures WellFormed(Placed(v, i, asize), base) && Total(Placed(v, i, asize)) == Total(v)
    ensures NoAdjacentFree(Placed(v, i, asize))
    ensures i < |Placed(v, i, asize)| && Placed(v, i, asize)[i] == Block(v[i].ptr, asize, true)
    ensures |Placed(v, i, asize)| == if v[i].size > asize then |v| + 1 else |v|
  {
    PlaceNoAdjacentFree(v, i, asize);
    if v[i].size > asize {
      SplitWellFormed(v, base, i, asize);
      SetAllocWellFormed(Split(v, i, asize), base, i, true);
      SplitAt(v, i, asize);
    } else {
      SetAllocWellFormed(v, base, i, true);
    }
  }

  /**
   * `mm_malloc`: it answers 0 exactly for a zero size or when no free block
   * holds the adjusted size, and then changes nothing; otherwise the answer
   * is the address of a block that was free and large enough and is now
   * allocated at exactly the adjusted size. The heap stays tiled, of the same
   * total size, without adjacent free blocks.
   */
  lemma {:induction false} MallocSpec(v: seq<Block>, base: nat, size: nat, bestFit: bool)
    requires WellFormed(v, base) && NoAdjacentFree(v) && base > 0
    ensures var r := MallocResult(v, size, bestFit);
      r.1 == 0 <==> size == 0 || forall k :: 0 <= k < |v| ==> !Fits(v[k], MallocSize(size))
    ensures var r := MallocResult(v, size, bestFit); r.1 == 0 ==> r.0 == v
    ensures var r := MallocResult(v, size, bestFit);
      WellFormed(r.0, base) && Total(r.0) == Total(v) && NoAdjacentFree(r.0)
    ensures var r := MallocResult(v, size, bestFit);
      r.1 != 0 ==> Find(v, r.1).Some? && Fits(v[Find(v, r.1).value], MallocSize(size))
    ensures var r := MallocResult(v, size, bestFit);
      r.1 != 0 ==> Find(r.0, r.1).Some? && r.0[Find(r.0, r.1).value] == Block(r.1, MallocSize(size), true)
  {
    if size != 0 {
      var asize := MallocSize(size);
      FindFitSpec(v, asize, bestFit);
      match FindFit(v, asize, bestFit)
      case None =>
      case Some(i) =>
        BlockWithinRegion(v, base, i);
        PlacedSpec(v, base, i, asize);
        FindUnique(v, base, i);
        FindUnique(Placed(v, i, asize), base, i);
    }
  }

  /** Freeing what `mm_malloc` just handed out gives back the heap as it was, split or not. */
  lemma {:induction false} MallocFreeRoundTrip(v: seq<Block>, base: nat, size: nat, bestFit: bool)
    requires WellFormed(v, base) && NoAdjacentFree(v) && base > 0
    ensures var r := MallocResult(v, size, bestFit); r.1 != 0 ==> Freed(r.0, r.1) == v
  {
    if size != 0 {
      var asize := MallocSize(size);
      FindFitSpec(v, asize, bestFit);
      match FindFit(v, asize, bestFit)
      case None =>
      case Some(i) =>
        FreePlaced(v, base, i, asize);
    }
  }

  /** Freeing the block `place` just allocated in block `i` gives back the heap as it was. */
  lemma {:induction false} FreePlaced(v: seq<Block>, base: nat, i: nat, asize: nat)
    requires WellFormed(v, base) && NoAdjacentFree(v) && i < |v| && asize > 0 && Fits(v[i], asize)
    ensures Freed(Placed(v, i, asize), v[i].ptr) == v
  {
    var w := Placed(v, i, asize);
    PlacedSpec(v, base, i, asize);
    FindUnique(w, base, i);
    assert Find(w, v[i].ptr) == Some(i);
    UnplaceCoalesce(v, i, asize);
  }

  /** Marking free the block `place` just allocated, and coalescing it, undoes the placement. */
  lemma {:induction false} UnplaceCoalesce(v: seq<Block>, i: nat, asize: nat)
    requires NoAdjacentFree(v) && i < |v| && asize > 0 && Fits(v[i], asize)
    ensures Coalesce(SetAlloc(Placed(v, i, asize), i, false), i) == v
  {
    var u := SetAlloc(Placed(v, i, asize), i, false);
    if v[i].size > asize {
      assert u == Split(v, i, asize);
      SplitAt(v, i, asize);
      assert !PrevFree(u, i);
      assert NextFree(u, i);
      assert Coalesce(u, i) == BlockList.MergeNext(u, i);
      MergeNextAt(u, i);
      assert BlockList.MergeNext(u, i) == v;
    } else {
      assert u == v;
      assert !PrevFree(v, i) && !NextFree(v, i);
    }
  }

  /** The block coalescing leaves in place of block `i` starts where the run it absorbed starts and reaches at least as far as block `i`. */
  lemma {:induction false} CoalesceCovers(u: seq<Block>, base: nat, i: nat)
    requires Contiguous(u, base) && i < |u|
    ensures var c := CoalescedIndex(u, i); var w := Coalesce(u, i);
      c < |w| && w[c].ptr == u[c].ptr && w[c].ptr <= u[i].ptr && u[i].ptr + u[i].size <= w[c].ptr + w[c].size
  {
    var p, n := PrevFree(u, i), NextFree(u, i);
    if !p && n {
      MergeNextAt(u, i);
    } else if p && !n {
      MergeNextAt(u, i - 1);
    } else if p && n {
      MergeNextAt(u, i);
      MergeNextAt(BlockList.MergeNext(u, i), i - 1);
    }
  }

  /**
   * `mm_free`: an unknown address changes nothing; a known block becomes
   * free, and the free block coalescing leaves covers all of its bytes. The
   * heap stays tiled, of the same total size, without adjacent free blocks.
   */
  lemma {:induction false} FreedSpec(v: seq<Block>, base: nat, ptr: nat)
    requires WellFormed(v, base) && NoAdjacentFree(v)
    ensures WellFormed(Freed(v, ptr), base) && Total(Freed(v, ptr)) == Total(v)
    ensures NoAdjacentFree(Freed(v, ptr))
    ensures Find(v, ptr).None? ==> Freed(v, ptr) == v
    ensures Find(v, ptr).Some? ==>
      var i := Find(v, ptr).value; var w := Freed(v, ptr);
      exists c :: 0 <= c < |w| && !w[c].alloc && w[c].ptr <= ptr && ptr + v[i].size <= w[c].ptr + w[c].size
  {
    match Find(v, ptr)
    case None =>
    case Some(i) =>
      var u := SetAlloc(v, i, false);
      SetAllocWellFormed(v, base, i, false);
      CoalesceWellFormed(u, base, i);
      FreeAdjacentFreeOnlyAt(v, i);
      CoalesceNoAdjacentFree(u, i);
      CoalesceCovers(u, base, i);
      var c := CoalescedIndex(u, i);
      assert !Freed(v, ptr)[c].alloc;
  }

  /**
   * Freeing an address twice is the same as freeing it once: after the first
   * free the block is free with allocated neighbours, or it has been merged
   * into its predecessor and its address is no longer a block address.
   */
  lemma {:induction false} FreeTwice(v: seq<Block>, base: nat, ptr: nat)
    requires WellFormed(v, base) && NoAdjacentFree(v)
    ensures Freed(Freed(v, ptr), ptr) == Freed(v, ptr)
  {
    match Find(v, ptr)
    case None =>
    case Some(i) =>
      if PrevFree(SetAlloc(v, i, false), i) {
        FreedMerged(v, base, ptr, i);
      } else {
        FreedKept(v, base, ptr, i);
      }
  }

  /** When the freed block merges into its predecessor, its address is inside that block and no block starts there. */
  lemma {:induction false} FreedMerged(v: seq<Block>, base: nat, ptr: nat, i: nat)
    requires WellFormed(v, base) && NoAdjacentFree(v) && Find(v, ptr) == Some(i)
    requires PrevFree(SetAlloc(v, i, false), i)
    ensures Find(Freed(v, ptr), ptr).None?
  {
    var u := SetAlloc(v, i, false);
    var w := Freed(v, ptr);
    assert w == Coalesce(u, i);
    FreedSpec(v, base, ptr);
    CoalesceCovers(u, base, i);
    var d := u[i - 1].size;
    assert w[i - 1].ptr + d == ptr;
    InteriorNotAPtr(w, base, i - 1, d);
    FindSpec(w, ptr);
  }

  /** When the freed block keeps its place, it is free with allocated neighbours, so freeing it again changes nothing. */
  lemma {:induction false} FreedKept(v: seq<Block>, base: nat, ptr: nat, i: nat)
    requires WellFormed(v, base) && NoAdjacentFree(v) && Find(v, ptr) == Some(i)
    requires !PrevFree(SetAlloc(v, i, false), i)
    ensures Freed(Freed(v, ptr), ptr) == Freed(v, ptr)
  {
    var u := SetAlloc(v, i, false);
    var w := Freed(v, ptr);
    assert w == Coalesce(u, i);
    FreedSpec(v, base, ptr);
    SetAllocWellFormed(v, base, i, false);
    CoalesceNoAdjacentFree(u, i);
    CoalesceCovers(u, base, i);
    FindUnique(w, base, i);
    assert SetAlloc(w, i, false) == w;
  }

  /** `shrink_blk` keeps the heap tiled without adjacent free blocks, and an allocated block ends up at exactly `asize` bytes. */
  lemma {:induction false} ShrunkSpec(v: seq<Block>, base: nat, i: nat, asize: nat)
    requires WellFormed(v, base) && NoAdjacentFree(v) && i < |v| && 0 < asize < v[i].size
    ensures WellFormed(Shrunk(v, i, asize), base) && Total(Shrunk(v, i, asize)) == Total(v)
    ensures NoAdjacentFree(Shrunk(v, i, asize))
    ensures v[i].alloc ==> i < |Shrunk(v, i, asize)| && Shrunk(v, i, asize)[i] == v[i].(size := asize)
  {
    var x := Split(v, i, asize);
    SplitWellFormed(v, base, i, asize);
    SplitAt(v, i, asize);
    SplitTailAdjacentFreeOnlyAt(v, i, asize);
    CoalesceWellFormed(x, base, i + 1);
    CoalesceNoAdjacentFree(x, i + 1);
    if v[i].alloc && NextFree(x, i + 1) {
      MergeNextAt(x, i + 1);
    }
  }

  /** `extend_blk` keeps the heap tiled without adjacent free blocks, and the block ends up at exactly `asize` bytes. */
  lemma {:induction false} ExtendedSpec(v: seq<Block>, base: nat, i: nat, asize: nat)
    requires WellFormed(v, base) && NoAdjacentFree(v) && i + 1 < |v| && NextFree(v, i)
    requires v[i].size < asize <= v[i].size + v[i + 1].size
    ensures WellFormed(Extended(v, i, asize), base) && Total(Extended(v, i, asize)) == Total(v)
    ensures NoAdjacentFree(Extended(v, i, asize))
    ensures i < |Extended(v, i, asize)| && Extended(v, i, asize)[i] == v[i].(size := asize)
  {
    if v[i].size + v[i + 1].size > asize {
      MoveBoundaryWellFormed(v, base, i, asize);
      MoveBoundaryNoAdjacentFree(v, i, asize);
      MoveBoundaryAt(v, i, asize);
    } else {
      MergeNextWellFormed(v, base, i);
      MergeNextNoAdjacentFree(v, i);
      MergeNextAt(v, i);
    }
  }

  /**
   * `mm_realloc` (with the not-found guard): the answer is 0 or `ptr`, and it
   * is `ptr` exactly when the block at `ptr` exists and already holds the
   * adjusted size or can grow into a free successor; on 0 nothing changes. An
   * allocated block that is answered keeps its address and ends up at exactly
   * the adjusted size. The heap stays tiled without adjacent free blocks.
   */
  lemma {:induction false} ReallocSpec(v: seq<Block>, base: nat, ptr: nat, size: nat)
    requires WellFormed(v, base) && NoAdjacentFree(v) && base > 0
    ensures var r := ReallocResult(v, ptr, size); r.1 == 0 || r.1 == ptr
    ensures var r := ReallocResult(v, ptr, size); r.1 == 0 ==> r.0 == v
    ensures var r := ReallocResult(v, ptr, size);
      WellFormed(r.0, base) && Total(r.0) == Total(v) && NoAdjacentFree(r.0)
    ensures ReallocResult(v, ptr, size).1 != 0 <==> match Find(v, ptr)
      case None => false
      case Some(i) => v[i].size >= ReallocSize(size) || (NextFree(v, i) && v[i].size + v[i + 1].size >= ReallocSize(size))
    ensures var r := ReallocResult(v, ptr, size);
      r.1 != 0 ==> (Find(v, ptr).Some? &&
        var i := Find(v, ptr).value;
        v[i].alloc ==> Find(r.0, ptr) == Some(i) && i < |r.0| && r.0[i] == v[i].(size := ReallocSize(size)))
  {
    match Find(v, ptr)
    case None =>
    case Some(i) =>
      var asize := ReallocSize(size);
      BlockWithinRegion(v, base, i);
      var w := ReallocResult(v, ptr, size).0;
      if v[i].size < asize {
        if NextFree(v, i) && v[i + 1].size + v[i].size >= asize {
          ExtendedSpec(v, base, i, asize);
          FindUnique(w, base, i);
        }
      } else if v[i].size > asize {
        ShrunkSpec(v, base, i, asize);
        if v[i].alloc {
          FindUnique(w, base, i);
        }
      } else {
        assert v[i].(size := asize) == v[i];
      }
  }

  /**
   * `mm_sbrk`: the heap grows by exactly `incr` bytes, stays tiled without
   * adjacent free blocks, and ends in a free block of at least `incr` bytes
   * that reaches the new end of the heap.
   */
  lemma {:induction false} GrownSpec(v: seq<Block>, base: nat, incr: nat)
    requires WellFormed(v, base) && NoAdjacentFree(v) && incr > 0
    ensures WellFormed(Grown(v, base, incr), base) && Total(Grown(v, base, incr)) == Total(v) + incr
    ensures NoAdjacentFree(Grown(v, base, incr))
    ensures var w := Grown(v, base, incr);
      |w| > 0 && !w[|w| - 1].alloc && w[|w| - 1].size >= incr && w[|w| - 1].ptr + w[|w| - 1].size == base + Total(v) + incr
  {
    var x := Append(v, base, incr);
    AppendWellFormed(v, base, incr);
    AppendAdjacentFreeOnlyAt(v, base, incr);
    CoalesceWellFormed(x, base, |v|);
    CoalesceNoAdjacentFree(x, |v|);
    CoalesceCovers(x, base, |v|);
    var w := Grown(v, base, incr);
    EndIsBasePlusTotal(w, base);
    assert CoalescedIndex(x, |v|) == |w| - 1;
  }

  /**
   * The not-found guard of `mm_realloc` as written tests the size of the
   * record the search returned, but the search returns NULL for an unknown
   * address, so the test dereferences NULL; the evident intent is to answer 0
   * and change nothing. For a known address the two agree.
   */
  lemma {:induction false} ReallocGuard(v: seq<Block>, ptr: nat, size: nat)
    ensures Find(v, ptr).None? <==> ReallocAsWritten(v, ptr, size).None?
    ensures Find(v, ptr).None? ==> ReallocResult(v, ptr, size) == (v, 0)
    ensures ReallocAsWritten(v, ptr, size).Some? ==> ReallocAsWritten(v, ptr, size).value == ReallocResult(v, ptr, size)
  {
  }

  /** A heap of one allocated block at 8: a `realloc` of address 16 has no block to read the size of. */
  lemma {:induction false} ReallocUnknownAddress()
    ensures ReallocAsWritten([Block(8, 8, true)], 16, 8) == None
    ensures ReallocResult([Block(8, 8, true)], 16, 8) == ([Block(8, 8, true)], 0)
  {
    var v := [Block(8, 8, true)];
    assert FindFrom(v, 16, 1) == None;
    assert Find(v, 16) == None;
  }
}

/**
 * What the in-memory allocator (an implicit free list with boundary tags and
 * a first-fit search) does to the address-ordered view of its heap. The view
 * and its mutators are the shared ones; what differs from the host engine is
 * the adjusted size (a 16-byte minimum), the split thresholds (`place` splits
 * when at least 8 bytes are left over, `shrink_blk` and `extend_blk` only
 * when more than 8 are), and that a miss grows the heap by at least a chunk
 * and places the request in the grown block.
 */
module ImplicitList {
  import opened Wrappers
  import opened BlockList
  import HostAllocator
  import HostProperties

  /** `CHUNKSIZE`: the least the heap grows by. */
  const CHUNKSIZE: nat := 4096

  /**
   * `asize` of `mm_malloc` and `mm_realloc`: the request plus 8 bytes of
   * header and footer, rounded up to a multiple of 8, and never below the
   * 16-byte minimum block.
   */
  function AdjustedSize(size: nat): (r: nat)
    ensures r % 8 == 0 && r >= 16 && r >= size + 8
    ensures r == 16 || r < size + 16
  {
    if size <= 8 then 16
    else
      var q := (size + 15) / 8;
      assert size + 15 == q * 8 + (size + 15) % 8;
      8 * q
  }

  /** `extendsize` of `mm_malloc`: the adjusted size, but at least a chunk. */
  function GrowSize(asize: nat): (r: nat)
    ensures r >= asize && r >= CHUNKSIZE && (r == asize || r == CHUNKSIZE)
  {
    if asize > 4096 then asize else 4096
  }

  /** `place`: block `i` becomes allocated, split when at least 8 bytes would be left over. */
  function PlaceAt(v: seq<Block>, i: nat, asize: nat): seq<Block>
    requires i < |v|
  {
    if v[i].size >= asize + 8 then SetAlloc(Split(v, i, asize), i, true) else SetAlloc(v, i, true)
  }

  /**
   * `shrink_blk` on a live block: split only when more than 8 bytes are left
   * over, the remainder freed and coalesced.
   */
  function ShrinkAt(v: seq<Block>, i: nat, asize: nat): seq<Block>
    requires i < |v| && v[i].alloc
  {
    if v[i].size > asize + 8 then Coalesce(Split(v, i, asize), i + 1) else v
  }

  /**
   * `extend_blk` on a live block: block `i` takes `asize` bytes of itself
   * and its free successor; the rest stays a free block (coalesced) when it
   * is more than 8 bytes, and is absorbed otherwise.
   */
  function ExtendAt(v: seq<Block>, i: nat, asize: nat): seq<Block>
    requires i + 1 < |v| && v[i].alloc && asize <= v[i].size + v[i + 1].size
  {
    if v[i].size + v[i + 1].size > asize + 8 then Coalesce(MoveBoundary(v, i, asize), i + 1) else MergeNext(v, i)
  }

  /** Growing the heap always leaves at least one block. */
  lemma {:induction false} GrownNonEmpty(v: seq<Block>, base: nat, incr: nat)
    ensures |HostAllocator.Grown(v, base, incr)| > 0
  {
    var x := Append(v, base, incr);
    if PrevFree(x, |v|) {
      MergeNextAt(x, |v| - 1);
    }
  }

  /**
   * `mm_malloc` on a heap starting at `base` whose break can reach `cap`:
   * the new view and the returned address (0 for NULL).
   */
  function MallocOutcome(v: seq<Block>, base: nat, cap: nat, size: nat): (seq<Block>, nat)
  {
    if size == 0 then (v, 0)
    else
      var asize := AdjustedSize(size);
      match FirstFit(v, asize)
      case Some(i) => (PlaceAt(v, i, asize), v[i].ptr)
      case None =>
        var ext := GrowSize(asize);
        if base + Total(v) + ext > cap then (v, 0)
        else
          var g := HostAllocator.Grown(v, base, ext);
          GrownNonEmpty(v, base, ext);
          (PlaceAt(g, |g| - 1, asize), g[|g| - 1].ptr)
  }

  /** With no block fitting, `mm_malloc` grows the heap and places the request in its last block, or returns NULL when the break cannot move. */
  lemma {:induction false} MallocOutcomeGrow(v: seq<Block>, base: nat, cap: nat, size: nat)
    requires size != 0 && FirstFit(v, AdjustedSize(size)).None?
    ensures var asize := AdjustedSize(size); var ext := GrowSize(asize); var g := HostAllocator.Grown(v, base, ext);
      |g| > 0
      && MallocOutcome(v, base, cap, size)
        == if base + Total(v) + ext > cap then (v, 0) else (PlaceAt(g, |g| - 1, asize), g[|g| - 1].ptr)
  {
    GrownNonEmpty(v, base, GrowSize(AdjustedSize(size)));
  }

  /** `mm_realloc` moving a block: a fresh block is malloced, and the old one freed unless that fails. */
  function MoveOutcome(v: seq<Block>, base: nat, cap: nat, ptr: nat, size: nat): (seq<Block>, nat)
  {
    var m := MallocOutcome(v, base, cap, size);
    if m.1 == 0 then (v, 0) else (HostAllocator.Freed(m.0, ptr), m.1)
  }

  /**
   * `mm_realloc` on NULL or a live block: a NULL pointer mallocs; a zero
   * size frees and returns the pointer; a block too small grows into a free
   * successor when the two hold the adjusted size, and otherwise moves to a
   * fresh block (the old one is freed, or kept when the malloc fails); a
   * larger block shrinks; an exact block is left alone.
   */
  function ReallocOutcome(v: seq<Block>, base: nat, cap: nat, ptr: nat, size: nat): (seq<Block>, nat)
    requires ptr != 0 ==> Find(v, ptr).Some? && v[Find(v, ptr).value].alloc
  {
    if ptr == 0 then MallocOutcome(v, base, cap, size)
    else
      var i := Find(v, ptr).value;
      if size == 0 then (HostAllocator.Freed(v, ptr), ptr)
      else
        var asize := AdjustedSize(size);
        if v[i].size < asize then
          if NextFree(v, i) && v[i + 1].size + v[i].size >= asize then (ExtendAt(v, i, asize), ptr)
          else MoveOutcome(v, base, cap, ptr, size)
        else if v[i].size > asize then (ShrinkAt(v, i, asize), ptr)
        else (v, ptr)
  }

  // ---------------------------------------------------------------------------
  // Allocated blocks survive the operations on free ones

  /** Every allocated block of `v` is still a block of `w`. */
  ghost predicate KeepsAllocated(v: seq<Block>, w: seq<Block>)
  {
    forall k :: 0 <= k < |v| && v[k].alloc ==> v[k] in w
  }

  lemma {:induction false} KeepsTrans(u: seq<Block>, v: seq<Block>, w: seq<Block>)
    requires KeepsAllocated(u, v) && KeepsAllocated(v, w)
    ensures KeepsAllocated(u, w)
  {
    forall k | 0 <= k < |u| && u[k].alloc ensures u[k] in w {
      var j :| 0 <= j < |v| && v[j] == u[k];
    }
  }

  /** Changing, splitting or merging only free blocks keeps every allocated block. */
  lemma {:induction false} KeepsOnFree(v: seq<Block>, i: nat, asize: nat)
    requires i < |v| && !v[i].alloc
    ensures KeepsAllocated(v, SetAlloc(v, i, true))
    ensures asize < v[i].size ==> KeepsAllocated(v, Split(v, i, asize))
    ensures i + 1 < |v| && !v[i + 1].alloc ==> KeepsAllocated(v, MergeNext(v, i))
  {
    forall k | 0 <= k < |v| && v[k].alloc ensures v[k] in SetAlloc(v, i, true) {
      assert SetAlloc(v, i, true)[k] == v[k];
    }
    if asize < v[i].size {
      SplitAt(v, i, asize);
      var w := Split(v, i, asize);
      forall k | 0 <= k < |v| && v[k].alloc ensures v[k] in w {
        if k < i { assert w[k] == v[k]; } else { assert w[k + 1] == v[k]; }
      }
    }
    if i + 1 < |v| && !v[i + 1].alloc {
      MergeNextAt(v, i);
      var w := MergeNext(v, i);
      forall k | 0 <= k < |v| && v[k].alloc ensures v[k] in w {
        if k < i { assert w[k] == v[k]; } else { assert w[k - 1] == v[k]; }
      }
    }
  }

  /** Coalescing a free block merges only free blocks. */
  lemma {:induction false} KeepsCoalesce(v: seq<Block>, i: nat)
    requires i < |v| && !v[i].alloc
    ensures KeepsAllocated(v, Coalesce(v, i))
  {
    var p, n := PrevFree(v, i), NextFree(v, i);
    if !p && n {
      KeepsOnFree(v, i, 0);
    } else if p && !n {
      KeepsOnFree(v, i - 1, 0);
    } else if p && n {
      var x := MergeNext(v, i);
      KeepsOnFree(v, i, 0);
      MergeNextAt(v, i);
      KeepsOnFree(x, i - 1, 0);
      KeepsTrans(v, x, Coalesce(v, i));
    } else {
      forall k | 0 <= k < |v| && v[k].alloc ensures v[k] in v {
      }
    }
  }

  /** Placing into a free block keeps every other allocated block. */
  lemma {:induction false} KeepsPlace(v: seq<Block>, i: nat, asize: nat)
    requires i < |v| && !v[i].alloc
    ensures KeepsAllocated(v, PlaceAt(v, i, asize))
  {
    KeepsOnFree(v, i, asize);
    if v[i].size >= asize + 8 {
      var x := Split(v, i, asize);
      SplitAt(v, i, asize);
      KeepsOnFree(x, i, asize);
      KeepsTrans(v, x, PlaceAt(v, i, asize));
    }
  }

  /** Growing the heap keeps every allocated block. */
  lemma {:induction false} KeepsGrown(v: seq<Block>, base: nat, incr: nat)
    ensures KeepsAllocated(v, HostAllocator.Grown(v, base, incr))
  {
    var x := Append(v, base, incr);
    AppendAt(v, base, incr);
    forall k | 0 <= k < |v| && v[k].alloc ensures v[k] in x {
      assert x[k] == v[k];
    }
    KeepsCoalesce(x, |v|);
    KeepsTrans(v, x, HostAllocator.Grown(v, base, incr));
  }

  /** A free block of a heap that kept every allocated block of `v` does not start where one of them does. */
  lemma {:induction false} NotLive(v: seq<Block>, w: seq<Block>, base: nat, j: nat)
    requires WellFormed(w, base) && KeepsAllocated(v, w) && j < |w| && !w[j].alloc
    ensures forall k :: 0 <= k < |v| && v[k].alloc ==> v[k].ptr != w[j].ptr
  {
    forall k | 0 <= k < |v| && v[k].alloc ensures v[k].ptr != w[j].ptr {
      var m :| 0 <= m < |w| && w[m] == v[k];
      DistinctPtrs(w, base, m, j);
    }
  }

  /** An allocated block of `v` is still found at its address in a heap that kept the allocated blocks. */
  lemma {:induction false} StillFound(v: seq<Block>, w: seq<Block>, base: nat, i: nat)
    requires WellFormed(w, base) && KeepsAllocated(v, w) && i < |v| && v[i].alloc
    ensures Find(w, v[i].ptr).Some? && w[Find(w, v[i].ptr).value] == v[i]
  {
    var j :| 0 <= j < |w| && w[j] == v[i];
    FindUnique(w, base, j);
  }

  /** `mm_malloc` changes nothing when it returns NULL, and otherwise a block allocated before is still found at its address. */
  lemma {:induction false} MallocKeeps(v: seq<Block>, base: nat, cap: nat, size: nat, i: nat)
    requires WellFormed(v, base) && NoAdjacentFree(v) && base > 0 && i < |v| && v[i].alloc
    ensures var m := MallocOutcome(v, base, cap, size); m.1 == 0 ==> m.0 == v
    ensures var m := MallocOutcome(v, base, cap, size); m.1 != 0 ==> Find(m.0, v[i].ptr).Some?
  {
    MallocOutcomeSpec(v, base, cap, size);
    StillFound(v, MallocOutcome(v, base, cap, size).0, base, i);
  }

  /** Freeing an address of the heap leaves no allocated block there. */
  lemma {:induction false} FreedReleases(v: seq<Block>, base: nat, ptr: nat)
    requires WellFormed(v, base) && NoAdjacentFree(v) && Find(v, ptr).Some?
    ensures var w := HostAllocator.Freed(v, ptr);
      Find(w, ptr).None? || (Find(w, ptr).value < |w| && !w[Find(w, ptr).value].alloc)
  {
    var i := Find(v, ptr).value;
    var u := SetAlloc(v, i, false);
    FindSpec(v, ptr);
    if PrevFree(u, i) {
      HostProperties.FreedMerged(v, base, ptr, i);
    } else {
      var w := HostAllocator.Freed(v, ptr);
      assert w == Coalesce(u, i);
      HostProperties.FreedSpec(v, base, ptr);
      if NextFree(u, i) {
        MergeNextAt(u, i);
      }
      assert w[i] == u[i].(size := w[i].size) && !w[i].alloc;
      FindUnique(w, base, i);
    }
  }

  // ---------------------------------------------------------------------------
  // What the operations promise

  /**
   * `place` keeps the heap tiled without adjacent free blocks; block `i`
   * becomes allocated at the adjusted size when at least 8 bytes are left
   * over, and whole otherwise, so it holds at least `asize` and wastes fewer
   * than 8 bytes beyond it.
   */
  lemma {:induction false} PlaceAtSpec(v: seq<Block>, base: nat, i: nat, asize: nat)
    requires WellFormed(v, base) && NoAdjacentFree(v) && i < |v| && asize > 0 && Fits(v[i], asize)
    ensures WellFormed(PlaceAt(v, i, asize), base) && Total(PlaceAt(v, i, asize)) == Total(v)
    ensures NoAdjacentFree(PlaceAt(v, i, asize))
    ensures i < |PlaceAt(v, i, asize)| && PlaceAt(v, i, asize)[i].ptr == v[i].ptr && PlaceAt(v, i, asize)[i].alloc
    ensures asize <= PlaceAt(v, i, asize)[i].size < asize + 8
    ensures PlaceAt(v, i, asize)[i].size == if v[i].size >= asize + 8 then asize else v[i].size
    ensures KeepsAllocated(v, PlaceAt(v, i, asize))
  {
    PlaceNoAdjacentFree(v, i, asize);
    KeepsPlace(v, i, asize);
    if v[i].size >= asize + 8 {
      SplitWellFormed(v, base, i, asize);
      SetAllocWellFormed(Split(v, i, asize), base, i, true);
      SplitAt(v, i, asize);
    } else {
      SetAllocWellFormed(v, base, i, true);
    }
  }

  /**
   * `mm_malloc`: NULL exactly for a zero size, or when no free block holds
   * the adjusted size and the heap cannot grow by the grow size, and then
   * nothing changes. Otherwise the answer is an allocated block holding the
   * adjusted size, with fewer than 8 bytes to spare: the first block that
   * fits when one does, and else the block at the end of the heap grown by
   * the grow size. The heap stays tiled without adjacent free blocks, and
   * every block allocated before is still there.
   */
  lemma {:induction false} MallocOutcomeSpec(v: seq<Block>, base: nat, cap: nat, size: nat)
    requires WellFormed(v, base) && NoAdjacentFree(v) && base > 0
    ensures var r := MallocOutcome(v, base, cap, size); var asize := AdjustedSize(size);
      r.1 == 0 <==> size == 0 || ((forall k :: 0 <= k < |v| ==> !Fits(v[k], asize)) && base + Total(v) + GrowSize(asize) > cap)
    ensures var r := MallocOutcome(v, base, cap, size); r.1 == 0 ==> r.0 == v
    ensures var r := MallocOutcome(v, base, cap, size);
      WellFormed(r.0, base) && NoAdjacentFree(r.0) && KeepsAllocated(v, r.0)
    ensures var r := MallocOutcome(v, base, cap, size); var asize := AdjustedSize(size);
      r.1 != 0 ==> (Find(r.0, r.1).Some? && r.0[Find(r.0, r.1).value].alloc
        && asize <= r.0[Find(r.0, r.1).value].size < asize + 8)
    ensures var r := MallocOutcome(v, base, cap, size); var asize := AdjustedSize(size);
      size != 0 && FirstFit(v, asize).Some? ==> (r.1 == v[FirstFit(v, asize).value].ptr && Total(r.0) == Total(v)
        && IsFirstFit(v, asize, FirstFit(v, asize).value))
    ensures var r := MallocOutcome(v, base, cap, size); var asize := AdjustedSize(size);
      r.1 != 0 ==> forall k :: 0 <= k < |v| && v[k].alloc ==> v[k].ptr != r.1
    ensures var r := MallocOutcome(v, base, cap, size); var asize := AdjustedSize(size);
      r.1 != 0 && FirstFit(v, asize).None? ==> (Total(r.0) == Total(v) + GrowSize(asize)
        && r.0[Find(r.0, r.1).value].ptr + r.0[Find(r.0, r.1).value].size <= base + Total(r.0))
  {
    if size != 0 {
      var asize := AdjustedSize(size);
      FirstFitSpec(v, asize);
      match FirstFit(v, asize)
      case Some(i) =>
        MallocFits(v, base, i, asize);
      case None =>
        var ext := GrowSize(asize);
        if base + Total(v) + ext <= cap {
          MallocGrows(v, base, asize, ext);
        }
    }
  }

  /**
   * A heap `w` answering a request of `asize` bytes in heap `v` with the
   * pointer `p`: tiled without adjacent free blocks, every block allocated
   * before still there, and `p` a block not live before, now allocated and
   * holding `asize` bytes with fewer than 8 to spare.
   */
  ghost predicate Granted(v: seq<Block>, w: seq<Block>, base: nat, p: nat, asize: nat)
  {
    && WellFormed(w, base) && NoAdjacentFree(w) && KeepsAllocated(v, w)
    && p != 0 && Find(w, p).Some? && w[Find(w, p).value].alloc
    && asize <= w[Find(w, p).value].size < asize + 8
    && (forall k :: 0 <= k < |v| && v[k].alloc ==> v[k].ptr != p)
  }

  /** Placing a request in a free block that fits grants it there, and the heap keeps its size. */
  lemma {:induction false} MallocFits(v: seq<Block>, base: nat, i: nat, asize: nat)
    requires WellFormed(v, base) && NoAdjacentFree(v) && base > 0 && asize > 0
    requires i < |v| && Fits(v[i], asize)
    ensures Granted(v, PlaceAt(v, i, asize), base, v[i].ptr, asize)
    ensures Total(PlaceAt(v, i, asize)) == Total(v)
  {
    BlockWithinRegion(v, base, i);
    PlaceAtSpec(v, base, i, asize);
    FindUnique(PlaceAt(v, i, asize), base, i);
    NotLive(v, v, base, i);
  }

  /**
   * Placing a request at the end of the heap grown by `ext` grants it there;
   * the heap grows by `ext` and the block granted lies inside it.
   */
  lemma {:induction false} MallocGrows(v: seq<Block>, base: nat, asize: nat, ext: nat)
    requires WellFormed(v, base) && NoAdjacentFree(v) && base > 0 && asize > 0
    requires ext >= asize && ext > 0
    ensures var g := HostAllocator.Grown(v, base, ext);
      |g| > 0 && Granted(v, PlaceAt(g, |g| - 1, asize), base, g[|g| - 1].ptr, asize)
    ensures var g := HostAllocator.Grown(v, base, ext); var w := PlaceAt(g, |g| - 1, asize);
      |g| > 0 && Total(w) == Total(v) + ext
      && Find(w, g[|g| - 1].ptr).Some?
      && w[Find(w, g[|g| - 1].ptr).value].ptr + w[Find(w, g[|g| - 1].ptr).value].size <= base + Total(w)
  {
    var g := HostAllocator.Grown(v, base, ext);
    HostProperties.GrownSpec(v, base, ext);
    KeepsGrown(v, base, ext);
    var j := |g| - 1;
    BlockWithinRegion(g, base, j);
    PlaceAtSpec(g, base, j, asize);
    NotLive(v, g, base, j);
    KeepsTrans(v, g, PlaceAt(g, j, asize));
    FindUnique(PlaceAt(g, j, asize), base, j);
    BlockWithinRegion(PlaceAt(g, j, asize), base, j);
  }

  /** Freeing a block that `place` just allocated undoes the placement. */
  lemma {:induction false} UnplaceAt(v: seq<Block>, i: nat, asize: nat)
    requires NoAdjacentFree(v) && i < |v| && asize > 0 && Fits(v[i], asize)
    ensures Coalesce(SetAlloc(PlaceAt(v, i, asize), i, false), i) == v
  {
    assert !PrevFree(v, i) && !NextFree(v, i);
    if v[i].size >= asize + 8 {
      var u := Split(v, i, asize);
      assert SetAlloc(PlaceAt(v, i, asize), i, false) == u;
      SplitAt(v, i, asize);
      assert !PrevFree(u, i) && NextFree(u, i);
      MergeNextAt(u, i);
      assert MergeNext(u, i) == v;
    } else {
      assert SetAlloc(PlaceAt(v, i, asize), i, false) == v;
    }
  }

  /** Freeing what `mm_malloc` handed out from a block that fitted gives back the heap as it was. */
  lemma {:induction false} MallocFreeRoundTrip(v: seq<Block>, base: nat, cap: nat, size: nat)
    requires WellFormed(v, base) && NoAdjacentFree(v) && base > 0
    requires FirstFit(v, AdjustedSize(size)).Some?
    ensures var r := MallocOutcome(v, base, cap, size); r.1 != 0 ==> HostAllocator.Freed(r.0, r.1) == v
  {
    if size != 0 {
      var asize := AdjustedSize(size);
      FirstFitSpec(v, asize);
      var i := FirstFit(v, asize).value;
      BlockWithinRegion(v, base, i);
      PlaceAtSpec(v, base, i, asize);
      FindUnique(PlaceAt(v, i, asize), base, i);
      UnplaceAt(v, i, asize);
    }
  }

  /**
   * `shrink_blk` keeps the heap tiled without adjacent free blocks; an
   * allocated block ends at the adjusted size when more than 8 bytes are
   * left over, and is left alone otherwise.
   */
  lemma {:induction false} ShrinkAtSpec(v: seq<Block>, base: nat, i: nat, asize: nat)
    requires WellFormed(v, base) && NoAdjacentFree(v) && i < |v| && v[i].alloc && 0 < asize < v[i].size
    ensures WellFormed(ShrinkAt(v, i, asize), base) && Total(ShrinkAt(v, i, asize)) == Total(v)
    ensures NoAdjacentFree(ShrinkAt(v, i, asize))
    ensures i < |ShrinkAt(v, i, asize)|
    ensures ShrinkAt(v, i, asize)[i] == if v[i].size > asize + 8 then v[i].(size := asize) else v[i]
  {
    if v[i].size > asize + 8 {
      HostProperties.ShrunkSpec(v, base, i, asize);
    }
  }

  /**
   * `extend_blk` keeps the heap tiled without adjacent free blocks; the
   * block ends at the adjusted size when more than 8 bytes are left over in
   * the pair, and absorbs its whole successor otherwise.
   */
  lemma {:induction false} ExtendAtSpec(v: seq<Block>, base: nat, i: nat, asize: nat)
    requires WellFormed(v, base) && NoAdjacentFree(v) && i + 1 < |v| && v[i].alloc && NextFree(v, i)
    requires v[i].size < asize <= v[i].size + v[i + 1].size
    ensures WellFormed(ExtendAt(v, i, asize), base) && Total(ExtendAt(v, i, asize)) == Total(v)
    ensures NoAdjacentFree(ExtendAt(v, i, asize))
    ensures i < |ExtendAt(v, i, asize)| && ExtendAt(v, i, asize)[i].ptr == v[i].ptr && ExtendAt(v, i, asize)[i].alloc
    ensures ExtendAt(v, i, asize)[i].size == if v[i].size + v[i + 1].size > asize + 8 then asize else v[i].size + v[i + 1].size
  {
    if v[i].size + v[i + 1].size > asize + 8 {
      var x := MoveBoundary(v, i, asize);
      MoveBoundaryWellFormed(v, base, i, asize);
      MoveBoundaryNoAdjacentFree(v, i, asize);
      MoveBoundaryAt(v, i, asize);
      assert !PrevFree(x, i + 1);
      assert Coalesce(x, i + 1) == x;
    } else {
      MergeNextWellFormed(v, base, i);
      MergeNextNoAdjacentFree(v, i);
      MergeNextAt(v, i);
    }
  }

  /**
   * `mm_realloc` when the block stays put: it does exactly when the block or
   * the block and its free successor hold the adjusted size, and then the
   * block is still allocated at the same address and holds the adjusted
   * size with at most 8 bytes to spare.
   */
  lemma {:induction false} ReallocInPlaceSpec(v: seq<Block>, base: nat, cap: nat, ptr: nat, size: nat)
    requires WellFormed(v, base) && NoAdjacentFree(v) && base > 0
    requires ptr != 0 && size != 0 && Find(v, ptr).Some? && v[Find(v, ptr).value].alloc
    ensures var r := ReallocOutcome(v, base, cap, ptr, size); var i := Find(v, ptr).value; var asize := AdjustedSize(size);
      r.1 == ptr <==> v[i].size >= asize || (NextFree(v, i) && v[i].size + v[i + 1].size >= asize)
    ensures var r := ReallocOutcome(v, base, cap, ptr, size); var i := Find(v, ptr).value; var asize := AdjustedSize(size);
      r.1 == ptr ==> (Find(r.0, ptr) == Some(i) && i < |r.0| && r.0[i].alloc && asize <= r.0[i].size <= asize + 8)
  {
    var i := Find(v, ptr).value;
    var asize := AdjustedSize(size);
    FindSpec(v, ptr);
    if v[i].size < asize {
      if NextFree(v, i) && v[i + 1].size + v[i].size >= asize {
        ExtendAtSpec(v, base, i, asize);
        FindUnique(ExtendAt(v, i, asize), base, i);
      } else {
        MallocOutcomeSpec(v, base, cap, size);
      }
    } else if v[i].size > asize {
      ShrinkAtSpec(v, base, i, asize);
      FindUnique(ShrinkAt(v, i, asize), base, i);
    }
  }

  /**
   * `mm_realloc` when the block moves: the answer is a fresh allocated block
   * holding the adjusted size with fewer than 8 bytes to spare, and no
   * allocated block is left at the old address.
   */
  lemma {:induction false} ReallocMovedSpec(v: seq<Block>, base: nat, cap: nat, ptr: nat, size: nat)
    requires WellFormed(v, base) && NoAdjacentFree(v) && base > 0
    requires ptr != 0 && size != 0 && Find(v, ptr).Some? && v[Find(v, ptr).value].alloc
    ensures var r := ReallocOutcome(v, base, cap, ptr, size); var asize := AdjustedSize(size);
      r.1 != 0 && r.1 != ptr ==> (Find(r.0, r.1).Some? && r.0[Find(r.0, r.1).value].alloc
        && asize <= r.0[Find(r.0, r.1).value].size < asize + 8)
    ensures var r := ReallocOutcome(v, base, cap, ptr, size);
      r.1 != 0 && r.1 != ptr ==> (Find(r.0, ptr).None? || !r.0[Find(r.0, ptr).value].alloc)
  {
    var i := Find(v, ptr).value;
    var asize := AdjustedSize(size);
    FindSpec(v, ptr);
    if v[i].size < asize && !(NextFree(v, i) && v[i + 1].size + v[i].size >= asize) {
      var m := MallocOutcome(v, base, cap, size);
      MallocOutcomeSpec(v, base, cap, size);
      if m.1 != 0 {
        var j := Find(m.0, m.1).value;
        FindSpec(m.0, m.1);
        var k :| 0 <= k < |m.0| && m.0[k] == v[i];
        FindUnique(m.0, base, k);
        assert k != j;
        var u := SetAlloc(m.0, k, false);
        SetAllocWellFormed(m.0, base, k, false);
        assert u[j] == m.0[j];
        KeepsCoalesce(u, k);
        var w := HostAllocator.Freed(m.0, ptr);
        assert w == Coalesce(u, k);
        var n :| 0 <= n < |w| && w[n] == u[j];
        HostProperties.FreedSpec(m.0, base, ptr);
        FindUnique(w, base, n);
        FreedReleases(m.0, base, ptr);
      }
    }
  }

  /**
   * `mm_realloc` keeps the heap tiled without adjacent free blocks; NULL
   * leaves the heap as it was; a zero size frees the block and returns the
   * pointer unchanged.
   */
  lemma {:induction false} ReallocOutcomeSpec(v: seq<Block>, base: nat, cap: nat, ptr: nat, size: nat)
    requires WellFormed(v, base) && NoAdjacentFree(v) && base > 0
    requires ptr != 0 ==> Find(v, ptr).Some? && v[Find(v, ptr).value].alloc
    ensures var r := ReallocOutcome(v, base, cap, ptr, size); WellFormed(r.0, base) && NoAdjacentFree(r.0)
    ensures var r := ReallocOutcome(v, base, cap, ptr, size); r.1 == 0 ==> r.0 == v
    ensures ptr != 0 && size == 0 ==> ReallocOutcome(v, base, cap, ptr, size) == (HostAllocator.Freed(v, ptr), ptr)
  {
    if ptr == 0 {
      MallocOutcomeSpec(v, base, cap, size);
    } else {
      var i := Find(v, ptr).value;
      var asize := AdjustedSize(size);
      FindSpec(v, ptr);
      if size == 0 {
        HostProperties.FreedSpec(v, base, ptr);
      } else if v[i].size < asize {
        if NextFree(v, i) && v[i + 1].size + v[i].size >= asize {
          ExtendAtSpec(v, base, i, asize);
        } else {
          var m := MallocOutcome(v, base, cap, size);
          MallocOutcomeSpec(v, base, cap, size);
          if m.1 != 0 {
            HostProperties.FreedSpec(m.0, base, ptr);
          }
        }
      } else if v[i].size > asize {
        ShrinkAtSpec(v, base, i, asize);
      }
    }
  }
}

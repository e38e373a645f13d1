/**
 * The in-memory allocator: an implicit free list with boundary tags over the
 * words of its own heap, and a first-fit search. `heap_listp` points at the
 * prologue block's payload; every block's header and footer carry its size
 * and allocated bit; a size-0 allocated header ends the list just before the
 * break. The heap's words are an array, and the ghost list `blocks` is the
 * address-ordered view those words lay out; every operation is proved to do
 * to that view what the allocator's specification says.
 */
module InMemoryHeap {
  import opened Wrappers
  import opened BlockList
  import opened BoundaryTags
  import HostAllocator
  import ImplicitList
  import HostProperties

  /** `DSIZE`: a double word, the header and footer together. */
  const DSIZE: nat := 8

  /** `(size_t)-1`, the starting best size of the best-fit search. */
  const SIZE_MAX: nat := 0xFFFF_FFFF

  /** One past the largest block size a 32-bit header word can carry. */
  const HEADER_LIMIT: nat := 0x1_0000_0000

  /** `extend_heap`'s size: the words rounded up to an even count, in bytes. */
  function ExtendBytes(words: nat): (r: nat)
    ensures r % 8 == 0 && 4 * words <= r < 4 * words + 8
    ensures words % 2 == 0 ==> r == 4 * words
  {
    if words % 2 == 1 then (words + 1) * 4 else words * 4
  }

  /** A byte count that is a multiple of 8, passed as words, comes back unchanged. */
  lemma {:induction false} ExtendBytesExact(x: nat)
    requires x % 8 == 0
    ensures ExtendBytes(x / 4) == x
  {
    var q := x / 8;
    assert x == 8 * q && x / 4 == 2 * q;
  }

  /** Growing a heap with no adjacent free blocks leaves a free last block at least as large as the growth. */
  lemma {:induction false} GrownLast(v: seq<Block>, base: nat, incr: nat)
    requires WellFormed(v, base) && NoAdjacentFree(v) && incr > 0
    ensures var g := HostAllocator.Grown(v, base, incr);
      |g| > 0 && !g[|g| - 1].alloc && g[|g| - 1].size >= incr
  {
    HostProperties.GrownSpec(v, base, incr);
  }

  /** The block `coalesce` leaves: block `i` with whichever of its neighbours are free, as one free block. */
  function Merged(v: seq<Block>, i: nat): Block
    requires i < |v|
  {
    var before := if PrevFree(v, i) then v[i - 1].size else 0;
    var after := if NextFree(v, i) then v[i + 1].size else 0;
    Block(v[CoalescedIndex(v, i)].ptr, before + v[i].size + after, false)
  }

  /** Coalescing with the next block only. */
  lemma {:induction false} SpanNext(v: seq<Block>, base: nat, i: nat)
    requires WellFormed(v, base) && i + 1 < |v| && !v[i].alloc && !PrevFree(v, i) && NextFree(v, i)
    ensures Coalesce(v, i) == v[..i] + [Merged(v, i)] + v[i + 2..]
  {
  }

  /** Coalescing with the previous block only. */
  lemma {:induction false} SpanPrev(v: seq<Block>, base: nat, i: nat)
    requires WellFormed(v, base) && 0 < i < |v| && !v[i].alloc && PrevFree(v, i) && !NextFree(v, i)
    ensures Coalesce(v, i) == v[..i - 1] + [Merged(v, i)] + v[i + 1..]
  {
  }

  /** Coalescing with both neighbours. */
  lemma {:induction false} SpanBoth(v: seq<Block>, base: nat, i: nat)
    requires WellFormed(v, base) && 0 < i && i + 1 < |v| && !v[i].alloc && PrevFree(v, i) && NextFree(v, i)
    ensures Coalesce(v, i) == v[..i - 1] + [Merged(v, i)] + v[i + 2..]
  {
    var x := MergeNext(v, i);
    MergeNextAt(v, i);
    MergeNextAt(x, i - 1);
    assert Coalesce(v, i) == MergeNext(x, i - 1);
  }

  /** When block `i` has a free neighbour, coalescing replaces it and its free neighbours by the merged block. */
  lemma {:induction false} CoalesceSpan(v: seq<Block>, base: nat, i: nat)
    requires WellFormed(v, base) && i < |v| && !v[i].alloc && (PrevFree(v, i) || NextFree(v, i))
    ensures var hi := if NextFree(v, i) then i + 1 else i;
      Coalesce(v, i) == v[..CoalescedIndex(v, i)] + [Merged(v, i)] + v[hi + 1..]
  {
    var p, n := PrevFree(v, i), NextFree(v, i);
    if !p && n {
      SpanNext(v, base, i);
    } else if p && !n {
      SpanPrev(v, base, i);
    } else {
      SpanBoth(v, base, i);
    }
  }

  /**
   * Writing the merged block's tags lays out the coalesced list, which ends
   * at the same break, has no adjacent free blocks, and holds the merged
   * block where the first of the merged blocks was.
   */
  lemma {:induction false} CoalesceLaid(w: seq<nat>, v: seq<Block>, listp: nat, i: nat)
    requires Laid(w, v, listp) && i < |v| && !v[i].alloc && (PrevFree(v, i) || NextFree(v, i))
    requires AdjacentFreeOnlyAt(v, i)
    ensures Shaped(Merged(v, i)) && Merged(v, i).ptr + Merged(v, i).size <= |w|
    ensures Laid(Stamp(w, Merged(v, i)), Coalesce(v, i), listp)
    ensures Break(Coalesce(v, i), listp) == Break(v, listp) && NoAdjacentFree(Coalesce(v, i))
    ensures CoalescedIndex(v, i) < |Coalesce(v, i)| && Coalesce(v, i)[CoalescedIndex(v, i)].ptr == Merged(v, i).ptr
  {
    var lo, hi := CoalescedIndex(v, i), if NextFree(v, i) then i + 1 else i;
    CoalesceSpan(v, listp + 8, i);
    CoalesceWellFormed(v, listp + 8, i);
    CoalesceNoAdjacentFree(v, i);
    LaidStamp(w, v, listp, lo, hi, Merged(v, i));
  }

  /** `place` splitting block `i`: the allocated head and the free tail, in the list. */
  lemma {:induction false} PlaceSplitLayout(v: seq<Block>, i: nat, asize: nat)
    requires i < |v| && v[i].size >= asize + 8
    ensures ImplicitList.PlaceAt(v, i, asize)
      == v[..i] + [Block(v[i].ptr, asize, true), Block(v[i].ptr + asize, v[i].size - asize, false)] + v[i + 1..]
  {
    SplitAt(v, i, asize);
  }

  /** `place` or `extend_blk` using a whole block: one block replaced by its allocated self. */
  lemma {:induction false} WholeLayout(v: seq<Block>, i: nat, b: Block)
    requires i < |v| && b == v[i].(alloc := b.alloc)
    ensures SetAlloc(v, i, b.alloc) == v[..i] + [b] + v[i + 1..]
  {
  }

  /** `mm_init`'s first extension gives a heap of one free chunk. */
  lemma {:induction false} FirstChunk(base: nat)
    ensures HostAllocator.Grown([], base, ImplicitList.CHUNKSIZE) == [Block(base, ImplicitList.CHUNKSIZE, false)]
  {
    var x := Append([], base, ImplicitList.CHUNKSIZE);
    assert x == [Block(base, ImplicitList.CHUNKSIZE, false)];
  }

  /** The header after block `i`: the next block's, or the allocated epilogue's after the last block. */
  lemma {:induction false} NextHeader(w: seq<nat>, v: seq<Block>, listp: nat, i: nat)
    requires Laid(w, v, listp) && i < |v|
    ensures var c := v[i].ptr + v[i].size;
      && HasTag(w, v[i]) && 8 <= c && c - 4 < |w|
      && (i + 1 < |v| ==> c == v[i + 1].ptr && GetSize(w[c - 4]) == v[i + 1].size && GetAlloc(w[c - 4]) == v[i + 1].alloc)
      && (i + 1 == |v| ==> GetAlloc(w[c - 4]))
  {
    Walk(w, v, listp, i + 1);
    Walk(w, v, listp, i + 2);
  }

  /** Coalescing the last block leaves the merged block last. */
  lemma {:induction false} CoalesceLast(v: seq<Block>, i: nat)
    requires i + 1 == |v|
    ensures CoalescedIndex(v, i) + 1 == |Coalesce(v, i)|
  {
    if PrevFree(v, i) {
      MergeNextAt(v, i - 1);
    }
  }

  /**
   * `extend_heap`'s writes at the old break lay out the list with a free
   * block of `size` bytes appended, the only block that may have a free
   * neighbour, and the break moves up by `size`.
   */
  lemma {:induction false} ExtendLayout(w: seq<nat>, v: seq<Block>, listp: nat, size: nat)
    requires Laid(w, v, listp) && NoAdjacentFree(v) && size % 8 == 0 && size >= 8
    requires Break(v, listp) + size <= |w|
    ensures var brk := Break(v, listp); var u := Append(v, listp + 8, size);
      && brk % 8 == 0 && brk >= 16 && (brk + size) % 8 == 0
      && Laid(ExtendWords(w, brk, size), u, listp) && Break(u, listp) == brk + size
      && |u| == |v| + 1 && u[|v|].ptr == brk && !u[|v|].alloc && AdjacentFreeOnlyAt(u, |v|)
  {
    LaidAppend(w, v, listp, size);
    AppendWellFormed(v, listp + 8, size);
    AppendAdjacentFreeOnlyAt(v, listp + 8, size);
    EndAligned(Break(v, listp), size);
  }

  /**
   * `place`'s writes over block `i` when at least 8 bytes are left over:
   * the free tail and then the allocated head lay out the placed list,
   * which ends at the same break and has no adjacent free blocks.
   */
  lemma {:induction false} PlaceSplitLaid(w: seq<nat>, v: seq<Block>, listp: nat, i: nat, asize: nat)
    requires Laid(w, v, listp) && NoAdjacentFree(v) && i < |v| && Fits(v[i], asize) && asize % 8 == 0 && asize >= 16
    requires v[i].size >= asize + 8
    ensures var u := ImplicitList.PlaceAt(v, i, asize);
      var a, f := Block(v[i].ptr, asize, true), Block(v[i].ptr + asize, v[i].size - asize, false);
      && Shaped(a) && Shaped(f) && f.ptr + f.size <= |w|
      && Laid(Stamp(Stamp(w, f), a), u, listp) && Break(u, listp) == Break(v, listp) && NoAdjacentFree(u)
  {
    ImplicitList.PlaceAtSpec(v, listp + 8, i, asize);
    PlaceSplitLayout(v, i, asize);
    LaidStampPair(w, v, listp, i, i, Block(v[i].ptr, asize, true), Block(v[i].ptr + asize, v[i].size - asize, false));
  }

  /**
   * `place`'s writes over block `i` when fewer than 8 bytes would be left
   * over: the whole block marked allocated lays out the placed list.
   */
  lemma {:induction false} PlaceWholeLaid(w: seq<nat>, v: seq<Block>, listp: nat, i: nat, asize: nat)
    requires Laid(w, v, listp) && NoAdjacentFree(v) && i < |v| && Fits(v[i], asize) && asize > 0
    requires v[i].size < asize + 8
    ensures var u := ImplicitList.PlaceAt(v, i, asize);
      && HasTag(w, v[i]) && Laid(Stamp(w, v[i].(alloc := true)), u, listp)
      && Break(u, listp) == Break(v, listp) && NoAdjacentFree(u)
  {
    ImplicitList.PlaceAtSpec(v, listp + 8, i, asize);
    assert HasTag(w, v[i]);
    WholeLayout(v, i, v[i].(alloc := true));
    LaidStamp(w, v, listp, i, i, v[i].(alloc := true));
  }

  /**
   * `shrink_blk`'s writes over allocated block `i` when more than 8 bytes
   * are left over: the free tail, then the shrunk allocated head, lay out
   * the split list, whose tail is the only block that may have a free
   * neighbour.
   */
  lemma {:induction false} ShrinkLaid(w: seq<nat>, v: seq<Block>, listp: nat, i: nat, asize: nat)
    requires Laid(w, v, listp) && NoAdjacentFree(v) && i < |v| && v[i].alloc
    requires asize % 8 == 0 && asize >= 16 && v[i].size > asize + 8
    ensures var u := Split(v, i, asize);
      var a, f := Block(v[i].ptr, asize, true), Block(v[i].ptr + asize, v[i].size - asize, false);
      && HasTag(w, v[i]) && Shaped(a) && Shaped(f) && f.ptr + f.size <= |w|
      && Laid(Stamp(Stamp(w, f), a), u, listp) && Break(u, listp) == Break(v, listp)
      && i + 1 < |u| && u[i + 1] == f && AdjacentFreeOnlyAt(u, i + 1)
  {
    var u := Split(v, i, asize);
    assert HasTag(w, v[i]);
    SplitAt(v, i, asize);
    SplitWellFormed(v, listp + 8, i, asize);
    SplitTailAdjacentFreeOnlyAt(v, i, asize);
    LaidStampPair(w, v, listp, i, i, Block(v[i].ptr, asize, true), Block(v[i].ptr + asize, v[i].size - asize, false));
  }

  /**
   * `extend_blk`'s writes over allocated block `i` and its free successor
   * when more than 8 bytes of the pair are left over: the free remainder,
   * then the grown allocated block, lay out the list with the boundary
   * moved, which has no adjacent free blocks.
   */
  lemma {:induction false} ExtendSplitLaid(w: seq<nat>, v: seq<Block>, listp: nat, i: nat, asize: nat)
    requires Laid(w, v, listp) && NoAdjacentFree(v) && i + 1 < |v| && v[i].alloc && !v[i + 1].alloc
    requires asize % 8 == 0 && asize >= 16 && v[i].size + v[i + 1].size > asize + 8
    ensures var u := MoveBoundary(v, i, asize);
      var a, f := Block(v[i].ptr, asize, true), Block(v[i].ptr + asize, v[i].size + v[i + 1].size - asize, false);
      && Shaped(a) && Shaped(f) && f.ptr + f.size <= |w|
      && Laid(Stamp(Stamp(w, f), a), u, listp) && Break(u, listp) == Break(v, listp)
      && i + 1 < |u| && u[i + 1] == f && NoAdjacentFree(u) && AdjacentFreeOnlyAt(u, i + 1)
  {
    assert HasTag(w, v[i]) && HasTag(w, v[i + 1]);
    MoveBoundaryAt(v, i, asize);
    MoveBoundaryWellFormed(v, listp + 8, i, asize);
    MoveBoundaryNoAdjacentFree(v, i, asize);
    LaidStampPair(w, v, listp, i, i + 1, Block(v[i].ptr, asize, true), Block(v[i].ptr + asize, v[i].size + v[i + 1].size - asize, false));
  }

  /**
   * `extend_blk`'s writes when at most 8 bytes of the pair would be left
   * over: the allocated block covering both lays out the merged list.
   */
  lemma {:induction false} ExtendWholeLaid(w: seq<nat>, v: seq<Block>, listp: nat, i: nat)
    requires Laid(w, v, listp) && NoAdjacentFree(v) && i + 1 < |v| && v[i].alloc && !v[i + 1].alloc
    ensures var u := MergeNext(v, i); var m := v[i].(size := v[i].size + v[i + 1].size);
      && HasTag(w, v[i]) && HasTag(w, v[i + 1]) && v[i + 1].ptr == v[i].ptr + v[i].size
      && Shaped(m) && m.ptr + m.size <= |w|
      && Laid(Stamp(w, m), u, listp) && Break(u, listp) == Break(v, listp) && NoAdjacentFree(u)
  {
    assert HasTag(w, v[i]) && HasTag(w, v[i + 1]);
    MergeNextWellFormed(v, listp + 8, i);
    MergeNextNoAdjacentFree(v, i);
    LaidStamp(w, v, listp, i, i + 1, v[i].(size := v[i].size + v[i + 1].size));
  }

  /**
   * `mm_free`'s writes over block `i`: its tags marked free lay out the list
   * with the block freed, the only block that may have a free neighbour.
   */
  lemma {:induction false} FreeLaid(w: seq<nat>, v: seq<Block>, listp: nat, i: nat)
    requires Laid(w, v, listp) && NoAdjacentFree(v) && i < |v|
    ensures var u := SetAlloc(v, i, false);
      && HasTag(w, v[i]) && Shaped(v[i])
      && Laid(Stamp(w, v[i].(alloc := false)), u, listp) && Break(u, listp) == Break(v, listp)
      && |u| == |v| && u[i] == v[i].(alloc := false) && AdjacentFreeOnlyAt(u, i)
  {
    assert HasTag(w, v[i]);
    SetAllocWellFormed(v, listp + 8, i, false);
    FreeAdjacentFreeOnlyAt(v, i);
    WholeLayout(v, i, v[i].(alloc := false));
    LaidStamp(w, v, listp, i, i, v[i].(alloc := false));
  }

  /** The payload address a search returns: the found block's, or `NULL` (0) when nothing was found. */
  function Payload(v: seq<Block>, r: Option<nat>): nat
    requires r.Some? ==> r.value < |v|
  {
    if r.None? then 0 else v[r.value].ptr
  }

  /** The heap: its words, the break, `heap_listp`, and the list of blocks the words lay out. */
  class Heap {
    /** The heap's words by byte address: the word at byte address `a` is `mem[a]`. */
    const mem: array<nat>
    /** The break: the heap's bytes in use end here. */
    var brk: nat
    /** `heap_listp`: the prologue block's payload. */
    var listp: nat
    ghost var blocks: seq<Block>

    /** The break is 8-aligned inside the words, and the words hold no more bytes than a header can size. */
    ghost predicate Ready()
      reads this
    {
      brk % 8 == 0 && brk <= mem.Length && mem.Length <= HEADER_LIMIT
    }

    /** The words lay out `blocks` between the prologue and the epilogue, which sits just before the break. */
    ghost predicate Tiled()
      reads this, mem
    {
      Ready() && Laid(mem[..], blocks, listp) && brk == Break(blocks, listp)
    }

    /** The allocator's invariant: the heap is laid out and no two free blocks are adjacent. */
    ghost predicate Valid()
      reads this, mem
    {
      Tiled() && NoAdjacentFree(blocks)
    }

    /** An empty heap of `bytes` bytes, the break at its start. */
    constructor (bytes: nat)
      requires bytes <= HEADER_LIMIT
      ensures Ready() && brk == 0 && mem.Length == bytes && blocks == []
    {
      mem := new nat[bytes];
      brk, listp := 0, 0;
      blocks := [];
    }

    /** `GET(p)`. */
    function Get(p: int): nat
      reads this, mem
      requires 0 <= p < mem.Length
    {
      mem[p]
    }

    /** `FTRP(bp)`: the footer address, from the size in the header. */
    function Ftrp(bp: int): int
      reads this, mem
      requires 4 <= bp < mem.Length + 4
    {
      bp + GetSize(Get(bp - 4)) - DSIZE
    }

    /** `NEXT_BLKP(bp)`: the next payload, from the size in the header. */
    function NextBlkp(bp: int): int
      reads this, mem
      requires 4 <= bp < mem.Length + 4
    {
      bp + GetSize(Get(bp - 4))
    }

    /** `PREV_BLKP(bp)`: the previous payload, from the size in the previous footer. */
    function PrevBlkp(bp: int): int
      reads this, mem
      requires 8 <= bp < mem.Length + 8
    {
      bp - GetSize(Get(bp - DSIZE))
    }

    /** `PUT(p, val)`. */
    method Put(p: nat, x: nat)
      requires p < mem.Length
      modifies mem
      ensures mem[..] == old(mem[..])[p := x]
    {
      mem[p] := x;
    }

    /** `PUT(HDRP(bp), PACK(size, alloc)); PUT(FTRP(bp), PACK(size, alloc));` the footer found through the new header. */
    method PutTags(bp: nat, size: nat, alloc: bool)
      requires Shaped(Block(bp, size, alloc)) && bp + size <= mem.Length
      modifies mem
      ensures mem[..] == Stamp(old(mem[..]), Block(bp, size, alloc))
    {
      BlockWords(Block(bp, size, alloc));
      Put(bp - 4, Pack(size, alloc));
      Put(Ftrp(bp), Pack(size, alloc));
    }

    /**
     * `mem_sbrk`: the break advances by `incr` and the old break is
     * returned, unless that would pass the end of the words.
     */
    method Sbrk(incr: nat) returns (p: Option<nat>)
      modifies this
      ensures listp == old(listp) && blocks == old(blocks)
      ensures old(brk) + incr <= mem.Length ==> p == Some(old(brk)) && brk == old(brk) + incr
      ensures old(brk) + incr > mem.Length ==> p == None && brk == old(brk)
    {
      if brk + incr > mem.Length {
        return None;
      }
      p := Some(brk);
      brk := brk + incr;
    }

    /**
     * `coalesce`: block `i`, free and the only block that may have free
     * neighbours, merges with whichever of them are free; the merged block's
     * payload is returned.
     */
    method Coalesce(bp: nat, ghost i: nat) returns (r: nat)
      requires Tiled() && i < |blocks| && blocks[i].ptr == bp && !blocks[i].alloc
      requires AdjacentFreeOnlyAt(blocks, i)
      modifies this, mem
      ensures Valid() && brk == old(brk) && listp == old(listp)
      ensures blocks == BlockList.Coalesce(old(blocks), i)
      ensures CoalescedIndex(old(blocks), i) < |blocks| && r == blocks[CoalescedIndex(old(blocks), i)].ptr
    {
      ghost var v, w := blocks, mem[..];
      Neighbours(w, v, listp, i);
      var prevFooter := Ftrp(PrevBlkp(bp));
      assert prevFooter == bp - 8;
      var prevAlloc := GetAlloc(Get(prevFooter));
      var nextHeader := NextBlkp(bp) - 4;
      assert nextHeader == bp + v[i].size - 4;
      var nextAlloc := GetAlloc(Get(nextHeader));
      var size := GetSize(Get(bp - 4));
      if prevAlloc && nextAlloc {
        CoalesceNoAdjacentFree(v, i);
        return bp;
      }
      if prevAlloc && !nextAlloc {
        r := MergeWithNext(bp, size, i);
      } else if !prevAlloc && nextAlloc {
        r := MergeWithPrev(bp, size, i);
      } else {
        r := MergeWithBoth(bp, size, i);
      }
    }

    /** The block merges with the next one only. */
    method MergeWithNext(bp: nat, size: nat, ghost i: nat) returns (r: nat)
      requires Tiled() && i < |blocks| && blocks[i].ptr == bp && !blocks[i].alloc && size == blocks[i].size
      requires AdjacentFreeOnlyAt(blocks, i) && !PrevFree(blocks, i) && NextFree(blocks, i)
      modifies this, mem
      ensures Valid() && brk == old(brk) && listp == old(listp)
      ensures blocks == BlockList.Coalesce(old(blocks), i)
      ensures CoalescedIndex(old(blocks), i) < |blocks| && r == blocks[CoalescedIndex(old(blocks), i)].ptr
    {
      ghost var v, w := blocks, mem[..];
      ghost var m, u := Merged(v, i), BlockList.Coalesce(v, i);
      CoalesceLaid(w, v, listp, i);
      assert HasTag(w, v[i]) && HasTag(w, v[i + 1]);
      JoinNext(bp, size, v[i], v[i + 1], m);
      r := bp;
      blocks := u;
    }

    /** The block merges with the previous one only. */
    method MergeWithPrev(bp: nat, size: nat, ghost i: nat) returns (r: nat)
      requires Tiled() && i < |blocks| && blocks[i].ptr == bp && !blocks[i].alloc && size == blocks[i].size
      requires AdjacentFreeOnlyAt(blocks, i) && PrevFree(blocks, i) && !NextFree(blocks, i)
      modifies this, mem
      ensures Valid() && brk == old(brk) && listp == old(listp)
      ensures blocks == BlockList.Coalesce(old(blocks), i)
      ensures CoalescedIndex(old(blocks), i) < |blocks| && r == blocks[CoalescedIndex(old(blocks), i)].ptr
    {
      ghost var v, w := blocks, mem[..];
      ghost var m, u := Merged(v, i), BlockList.Coalesce(v, i);
      CoalesceLaid(w, v, listp, i);
      assert HasTag(w, v[i - 1]) && HasTag(w, v[i]);
      r := JoinPrev(bp, size, v[i - 1], v[i], m);
      blocks := u;
    }

    /** The block merges with both neighbours. */
    method MergeWithBoth(bp: nat, size: nat, ghost i: nat) returns (r: nat)
      requires Tiled() && i < |blocks| && blocks[i].ptr == bp && !blocks[i].alloc && size == blocks[i].size
      requires AdjacentFreeOnlyAt(blocks, i) && PrevFree(blocks, i) && NextFree(blocks, i)
      modifies this, mem
      ensures Valid() && brk == old(brk) && listp == old(listp)
      ensures blocks == BlockList.Coalesce(old(blocks), i)
      ensures CoalescedIndex(old(blocks), i) < |blocks| && r == blocks[CoalescedIndex(old(blocks), i)].ptr
    {
      ghost var v, w := blocks, mem[..];
      ghost var m, u := Merged(v, i), BlockList.Coalesce(v, i);
      CoalesceLaid(w, v, listp, i);
      assert HasTag(w, v[i - 1]) && HasTag(w, v[i]) && HasTag(w, v[i + 1]);
      r := JoinBoth(bp, size, v[i - 1], v[i], v[i + 1], m);
      blocks := u;
    }

    /** The second case of `coalesce`: the size grows by the next block's, and the header and then the footer it now locates are written. */
    method JoinNext(bp: nat, size: nat, ghost a: Block, ghost b: Block, ghost m: Block)
      requires HasTag(mem[..], a) && HasTag(mem[..], b) && a.ptr == bp && b.ptr == bp + a.size && size == a.size
      requires m == Block(bp, a.size + b.size, false) && Shaped(m) && bp + m.size <= mem.Length
      modifies mem
      ensures mem[..] == Stamp(old(mem[..]), m)
    {
      var next := NextBlkp(bp);
      assert next == b.ptr;
      var merged := size + GetSize(Get(next - 4));
      assert merged == m.size;
      PutTags(bp, merged, false);
    }

    /**
     * The third case of `coalesce`: the size grows by the previous block's;
     * the footer located through the block's own, still unchanged, header is
     * written, then the previous block's header; the previous payload is
     * returned.
     */
    method JoinPrev(bp: nat, size: nat, ghost p: Block, ghost a: Block, ghost m: Block) returns (r: nat)
      requires HasTag(mem[..], p) && HasTag(mem[..], a) && a.ptr == bp && p.ptr + p.size == bp && size == a.size
      requires m == Block(p.ptr, p.size + a.size, false) && Shaped(m) && m.ptr + m.size <= mem.Length
      modifies mem
      ensures mem[..] == Stamp(old(mem[..]), m) && r == p.ptr
    {
      ghost var w := mem[..];
      var prev := PrevBlkp(bp);
      assert prev == p.ptr;
      var merged := size + GetSize(Get(prev - 4));
      assert merged == m.size;
      var footer := Ftrp(bp);
      assert footer == m.ptr + m.size - 8;
      Put(footer, Pack(merged, false));
      ghost var w1 := mem[..];
      assert w1 == w[m.ptr + m.size - 8 := Tag(m)];
      assert mem[bp - 8] == w[bp - 8];
      prev := PrevBlkp(bp);
      assert prev == p.ptr;
      Put(prev - 4, Pack(merged, false));
      assert mem[..] == w1[m.ptr - 4 := Tag(m)];
      assert mem[bp - 8] == w[bp - 8];
      r := PrevBlkp(bp);
      StampFooterFirst(w, m);
    }

    /**
     * The fourth case of `coalesce`: the size grows by both neighbours';
     * the previous block's header is written, then the footer of the next
     * block, located through its unchanged header; the previous payload is
     * returned.
     */
    method JoinBoth(bp: nat, size: nat, ghost p: Block, ghost a: Block, ghost b: Block, ghost m: Block) returns (r: nat)
      requires HasTag(mem[..], p) && HasTag(mem[..], a) && HasTag(mem[..], b)
      requires a.ptr == bp && p.ptr + p.size == bp && b.ptr == bp + a.size && size == a.size
      requires m == Block(p.ptr, p.size + a.size + b.size, false) && Shaped(m) && m.ptr + m.size <= mem.Length
      modifies mem
      ensures mem[..] == Stamp(old(mem[..]), m) && r == p.ptr
    {
      ghost var w := mem[..];
      var next := NextBlkp(bp);
      assert next == b.ptr;
      var prev := PrevBlkp(bp);
      assert prev == p.ptr;
      var merged := size + GetSize(Get(next - 4)) + GetSize(Get(prev - 4));
      assert merged == m.size;
      Put(prev - 4, Pack(merged, false));
      PutNextFooter(bp, merged, a, b, m, w);
      assert mem[bp - 8] == w[bp - 8];
      r := PrevBlkp(bp);
    }

    /** The end of the fourth case: the footer located through the next block's unchanged header is written. */
    method PutNextFooter(bp: nat, merged: nat, ghost a: Block, ghost b: Block, ghost m: Block, ghost w: seq<nat>)
      requires HasTag(w, a) && HasTag(w, b) && a.ptr == bp && b.ptr == bp + a.size
      requires Shaped(m) && !m.alloc && m.ptr + 8 <= bp && m.ptr + m.size == b.ptr + b.size && merged == m.size
      requires |w| == mem.Length && mem[..] == w[m.ptr - 4 := Tag(m)]
      modifies mem
      ensures mem[..] == Stamp(w, m)
    {
      assert mem[bp - 4] == w[bp - 4] && mem[b.ptr - 4] == w[b.ptr - 4];
      var next := NextBlkp(bp);
      assert next == b.ptr;
      var footer := Ftrp(next);
      assert footer == m.ptr + m.size - 8;
      Put(footer, Pack(merged, false));
    }

    /**
     * `first_fit`: walk the headers from the prologue to the epilogue and
     * return the first free block of at least `asize` bytes.
     */
    method FirstFit(asize: nat) returns (bp: nat)
      requires Valid()
      ensures bp == Payload(blocks, BlockList.FirstFit(blocks, asize))
    {
      var cur := listp;
      ghost var k: nat := 0;
      Walk(mem[..], blocks, listp, 0);
      while GetSize(Get(cur - 4)) != 0
        invariant k <= |blocks| + 1 && cur == Stop(blocks, listp, k)
        invariant 8 <= cur && cur - 4 < mem.Length
        invariant (GetSize(mem[cur - 4]) == 0 <==> k == |blocks| + 1)
        invariant k > 0 ==> FirstFitFrom(blocks, asize, k - 1) == BlockList.FirstFit(blocks, asize)
        decreases |blocks| + 1 - k
      {
        Walk(mem[..], blocks, listp, k);
        if !GetAlloc(Get(cur - 4)) && GetSize(Get(cur - 4)) >= asize {
          return cur;
        }
        cur := NextBlkp(cur);
        k := k + 1;
        Walk(mem[..], blocks, listp, k);
      }
      return 0;
    }

    /**
     * `best_fit`: walk every header and keep the smallest free block of at
     * least `asize` bytes, the earliest among equals.
     */
    method BestFit(asize: nat) returns (bp: nat)
      requires Valid()
      ensures bp == Payload(blocks, BlockList.BestFit(blocks, asize))
    {
      var cur := listp;
      var curSize := 0;
      var bestResult := 0;
      var bestSize := SIZE_MAX;
      ghost var k: nat := 0;
      ghost var best: Option<nat> := None;
      Walk(mem[..], blocks, listp, 0);
      while GetSize(Get(cur - 4)) != 0
        invariant k <= |blocks| + 1 && cur == Stop(blocks, listp, k)
        invariant 8 <= cur && cur - 4 < mem.Length
        invariant (GetSize(mem[cur - 4]) == 0 <==> k == |blocks| + 1)
        invariant best.Some? ==> k > 0 && best.value < k - 1
        invariant k > 0 ==> BestFitFrom(blocks, asize, k - 1, best) == BlockList.BestFit(blocks, asize)
        invariant k == 0 ==> best.None?
        invariant bestResult == Payload(blocks, best)
        invariant bestSize == if best.None? then SIZE_MAX else blocks[best.value].size
        decreases |blocks| + 1 - k
      {
        Walk(mem[..], blocks, listp, k);
        curSize := GetSize(Get(cur - 4));
        if !GetAlloc(Get(cur - 4)) && curSize >= asize {
          if GetSize(Get(cur - 4)) < bestSize {
            bestSize := curSize;
            bestResult := cur;
            best := Some(k - 1);
          }
        }
        cur := NextBlkp(cur);
        k := k + 1;
        Walk(mem[..], blocks, listp, k);
      }
      return bestResult;
    }

    /**
     * `extend_heap`: the break advances by the even number of words asked
     * for; the new bytes become a free block whose header replaces the old
     * epilogue, a new epilogue follows it, and the block is coalesced with a
     * free block before it. Returns `NULL` (0) when the break cannot move.
     */
    method ExtendHeap(words: nat) returns (bp: nat)
      requires Valid() && words > 0
      modifies this, mem
      ensures Valid() && listp == old(listp)
      ensures old(brk) + ExtendBytes(words) > mem.Length ==> bp == 0 && brk == old(brk) && blocks == old(blocks)
      ensures old(brk) + ExtendBytes(words) <= mem.Length ==>
        && brk == old(brk) + ExtendBytes(words)
        && blocks == HostAllocator.Grown(old(blocks), listp + 8, ExtendBytes(words))
        && |blocks| > 0 && bp == blocks[|blocks| - 1].ptr && bp > listp
        && !blocks[|blocks| - 1].alloc && blocks[|blocks| - 1].size >= ExtendBytes(words)
    {
      var size := ExtendBytes(words);
      ghost var v := blocks;
      EndAligned(brk, size);
      var p := Sbrk(size);
      if p.None? {
        return 0;
      }
      assert blocks == v && p.value == Break(v, listp);
      bp := LayChunk(p.value, size);
      GrownLast(v, listp + 8, size);
    }

    /** The part of `extend_heap` after the break has moved by `size` past `bp`, the old break. */
    method LayChunk(bp: nat, size: nat) returns (r: nat)
      requires Ready() && Laid(mem[..], blocks, listp) && NoAdjacentFree(blocks)
      requires bp == Break(blocks, listp) && brk == bp + size && size % 8 == 0 && size >= 8
      modifies this, mem
      ensures Valid() && listp == old(listp) && brk == old(brk)
      ensures blocks == HostAllocator.Grown(old(blocks), listp + 8, size)
      ensures |blocks| > 0 && r == blocks[|blocks| - 1].ptr && r > listp
    {
      ghost var v := blocks;
      AppendChunk(bp, size);
      ghost var u := blocks;
      assert u == Append(v, listp + 8, size);
      CoalesceLast(u, |v|);
      ghost var last := CoalescedIndex(u, |v|);
      r := Coalesce(bp, |v|);
      assert blocks == BlockList.Coalesce(u, |v|);
      assert last == |blocks| - 1;
      BlockWithinRegion(blocks, listp + 8, last);
    }

    /** `extend_heap`'s writes at the old break: the list gains a free block of `size` bytes there, the only block that may have a free neighbour. */
    method AppendChunk(bp: nat, size: nat)
      requires Ready() && Laid(mem[..], blocks, listp) && NoAdjacentFree(blocks)
      requires bp == Break(blocks, listp) && brk == bp + size && size % 8 == 0 && size >= 8
      modifies this, mem
      ensures Tiled() && listp == old(listp) && brk == old(brk)
      ensures blocks == Append(old(blocks), listp + 8, size) && |blocks| == |old(blocks)| + 1
      ensures blocks[|old(blocks)|].ptr == bp && !blocks[|old(blocks)|].alloc
      ensures AdjacentFreeOnlyAt(blocks, |old(blocks)|)
    {
      ghost var v, w := blocks, mem[..];
      ghost var u := Append(v, listp + 8, size);
      ExtendLayout(w, v, listp, size);
      PutChunk(bp, size);
      assert Laid(mem[..], u, listp);
      blocks := u;
    }

    /** `extend_heap`'s writes: the new free block's header and footer, then the new epilogue header its header locates. */
    method PutChunk(bp: nat, size: nat)
      requires bp % 8 == 0 && bp >= 16 && size % 8 == 0 && size >= 8 && bp + size <= mem.Length
      modifies mem
      ensures mem[..] == ExtendWords(old(mem[..]), bp, size)
    {
      PutTags(bp, size, false);
      Put(NextBlkp(bp) - 4, Pack(0, true));
    }

    /**
     * `place`: block `i`, free and at least `asize` bytes, becomes allocated;
     * when at least 8 bytes are left over, the rest becomes a free block
     * after it.
     */
    method Place(bp: nat, asize: nat, ghost i: nat)
      requires Valid() && i < |blocks| && blocks[i].ptr == bp && Fits(blocks[i], asize)
      requires asize % 8 == 0 && asize >= 16
      modifies this, mem
      ensures Valid() && brk == old(brk) && listp == old(listp)
      ensures blocks == ImplicitList.PlaceAt(old(blocks), i, asize)
    {
      ghost var v, w := blocks, mem[..];
      assert HasTag(w, v[i]);
      var originalSize := GetSize(Get(bp - 4));
      if originalSize >= asize + DSIZE {
        PlaceSplitLaid(w, v, listp, i, asize);
        var freeSize := originalSize - asize;
        var freeP := bp + asize;
        PutPair(bp, asize, freeP, freeSize);
      } else {
        PlaceWholeLaid(w, v, listp, i, asize);
        PutTags(bp, originalSize, true);
      }
      blocks := ImplicitList.PlaceAt(v, i, asize);
    }

    /**
     * `shrink_blk`: allocated block `i` keeps only `asize` bytes when more
     * than 8 would be left over; the rest becomes a free block, coalesced
     * with a free block after it.
     */
    method ShrinkBlk(bp: nat, asize: nat, ghost i: nat)
      requires Valid() && i < |blocks| && blocks[i].ptr == bp && blocks[i].alloc
      requires asize % 8 == 0 && asize >= 16 && asize < blocks[i].size
      modifies this, mem
      ensures Valid() && brk == old(brk) && listp == old(listp)
      ensures blocks == ImplicitList.ShrinkAt(old(blocks), i, asize)
    {
      ghost var v, w := blocks, mem[..];
      assert HasTag(w, v[i]);
      var originalSize := GetSize(Get(bp - 4));
      assert originalSize == v[i].size;
      if originalSize > asize + DSIZE {
        ShrinkLaid(w, v, listp, i, asize);
        var freeSize := originalSize - asize;
        var freeP := bp + asize;
        PutSplit(bp, freeP, originalSize, freeSize, asize);

        blocks := Split(v, i, asize);
        var merged := Coalesce(freeP, i + 1);
      }
    }

    /**
     * `shrink_blk`'s writes: the tail's header, the old footer (found through
     * the unchanged header), then the head's header and its new footer.
     */
    method PutSplit(bp: nat, freeP: nat, originalSize: nat, freeSize: nat, asize: nat)
      requires freeP == bp + asize && originalSize == asize + freeSize
      requires Shaped(Block(bp, asize, true)) && Shaped(Block(freeP, freeSize, false)) && freeP + freeSize <= mem.Length
      requires GetSize(mem[bp - 4]) == originalSize
      modifies mem
      ensures mem[..] == Stamp(Stamp(old(mem[..]), Block(freeP, freeSize, false)), Block(bp, asize, true))
    {
      ghost var w := mem[..];
      Put(freeP - 4, Pack(freeSize, false));
      Put(Ftrp(bp), Pack(freeSize, false));
      assert mem[..] == Stamp(w, Block(freeP, freeSize, false));
      PutTags(bp, asize, true);
    }

    /**
     * `extend_blk`: allocated block `i` grows into its free successor to
     * `asize` bytes; the rest of the pair stays a free block (coalesced) when
     * it is more than 8 bytes, and is absorbed otherwise.
     */
    method ExtendBlk(bp: nat, asize: nat, ghost i: nat)
      requires Valid() && i + 1 < |blocks| && blocks[i].ptr == bp && blocks[i].alloc && NextFree(blocks, i)
      requires asize % 8 == 0 && asize >= 16 && blocks[i].size < asize <= blocks[i].size + blocks[i + 1].size
      modifies this, mem
      ensures Valid() && brk == old(brk) && listp == old(listp)
      ensures blocks == ImplicitList.ExtendAt(old(blocks), i, asize)
    {
      ghost var v, w := blocks, mem[..];
      assert HasTag(w, v[i]) && HasTag(w, v[i + 1]);
      var next := NextBlkp(bp);
      assert next == v[i + 1].ptr;
      var combinedSize := GetSize(Get(bp - 4)) + GetSize(Get(next - 4));
      if combinedSize > asize + DSIZE {
        ExtendSplit(bp, asize, combinedSize, i);
      } else {
        ExtendWhole(bp, combinedSize, i);
      }
    }

    /** The branch of `extend_blk` that leaves the rest of the pair as a free block. */
    method ExtendSplit(bp: nat, asize: nat, combinedSize: nat, ghost i: nat)
      requires Valid() && i + 1 < |blocks| && blocks[i].ptr == bp && blocks[i].alloc && NextFree(blocks, i)
      requires asize % 8 == 0 && asize >= 16 && combinedSize == blocks[i].size + blocks[i + 1].size > asize + DSIZE
      modifies this, mem
      ensures Valid() && brk == old(brk) && listp == old(listp)
      ensures blocks == BlockList.Coalesce(MoveBoundary(old(blocks), i, asize), i + 1)
    {
      ghost var v, w := blocks, mem[..];
      ExtendSplitLaid(w, v, listp, i, asize);
      var freeP := bp + asize;
      PutPair(bp, asize, freeP, combinedSize - asize);
      blocks := MoveBoundary(v, i, asize);
      var merged := Coalesce(freeP, i + 1);
    }

    /** The branch of `extend_blk` that absorbs the whole free successor. */
    method ExtendWhole(bp: nat, combinedSize: nat, ghost i: nat)
      requires Valid() && i + 1 < |blocks| && blocks[i].ptr == bp && blocks[i].alloc && NextFree(blocks, i)
      requires combinedSize == blocks[i].size + blocks[i + 1].size
      modifies this, mem
      ensures Valid() && brk == old(brk) && listp == old(listp)
      ensures blocks == MergeNext(old(blocks), i)
    {
      ghost var v, w := blocks, mem[..];
      ExtendWholeLaid(w, v, listp, i);
      PutTags(bp, combinedSize, true);
      assert mem[..] == Stamp(w, v[i].(size := combinedSize));
      blocks := MergeNext(v, i);
    }

    /** `mm_free`: the block's tags are marked free and it is coalesced with its free neighbours. */
    method Free(ptr: nat)
      requires Valid() && Find(blocks, ptr).Some?
      modifies this, mem
      ensures Valid() && brk == old(brk) && listp == old(listp)
      ensures blocks == HostAllocator.Freed(old(blocks), ptr)
    {
      ghost var v, w, i := blocks, mem[..], Find(blocks, ptr).value;
      FreeLaid(w, v, listp, i);
      var size := GetSize(Get(ptr - 4));
      PutTags(ptr, size, false);
      blocks := SetAlloc(v, i, false);
      var merged := Coalesce(ptr, i);
    }

    /**
     * `mm_init`: four words at the break (padding, the prologue's header and
     * footer, the epilogue header), then a first chunk. Returns -1 when the
     * break cannot move by those 16 bytes or by the chunk after them, and 0
     * otherwise.
     */
    method Init() returns (r: int)
      requires Ready()
      modifies this, mem
      ensures r == 0 || r == -1
      ensures old(brk) + 16 > mem.Length ==> r == -1 && brk == old(brk)
      ensures old(brk) + 16 <= mem.Length ==> Valid() && listp == old(brk) + 8
      ensures r == 0 <==> old(brk) + 16 + ImplicitList.CHUNKSIZE <= mem.Length
      ensures r == 0 ==> blocks == [Block(listp + 8, ImplicitList.CHUNKSIZE, false)] && brk == listp + 8 + ImplicitList.CHUNKSIZE
    {
      var p := Sbrk(16);
      if p.None? {
        return -1;
      }
      var start := p.value;
      Put(start, 0);
      Put(start + 4, Pack(DSIZE, true));
      Put(start + 8, Pack(DSIZE, true));
      Put(start + 12, Pack(0, true));
      listp := start + 8;
      blocks := [];
      LaidEmpty(mem[..], listp);
      FirstChunk(listp + 8);
      var bp := ExtendHeap(ImplicitList.CHUNKSIZE / 4);
      if bp == 0 {
        return -1;
      }
      return 0;
    }

    /**
     * `mm_malloc`: NULL (0) for a zero size; otherwise the adjusted size is
     * placed in the first block that fits, or, when none does, in the block
     * the heap grows by at least a chunk, and NULL when it cannot grow.
     */
    method Malloc(size: nat) returns (bp: nat)
      requires Valid()
      modifies this, mem
      ensures Valid() && listp == old(listp)
      ensures (blocks, bp) == ImplicitList.MallocOutcome(old(blocks), old(listp) + 8, mem.Length, size)
    {
      if size == 0 {
        return 0;
      }
      var asize := ImplicitList.AdjustedSize(size);
      ghost var v := blocks;
      FirstFitSpec(v, asize);
      bp := FirstFit(asize);
      if bp != 0 {
        Place(bp, asize, BlockList.FirstFit(v, asize).value);
        return bp;
      }
      if BlockList.FirstFit(v, asize).Some? {
        BlockWithinRegion(v, listp + 8, BlockList.FirstFit(v, asize).value);
      }
      bp := MallocGrow(size, asize);
    }

    /** The end of `mm_malloc` when no block fits: grow by the adjusted size or a chunk, whichever is more, and place there. */
    method MallocGrow(ghost size: nat, asize: nat) returns (bp: nat)
      requires Valid() && size != 0 && asize == ImplicitList.AdjustedSize(size)
      requires BlockList.FirstFit(blocks, asize).None?
      modifies this, mem
      ensures Valid() && listp == old(listp)
      ensures (blocks, bp) == ImplicitList.MallocOutcome(old(blocks), old(listp) + 8, mem.Length, size)
    {
      ImplicitList.MallocOutcomeGrow(blocks, listp + 8, mem.Length, size);
      var extendSize := if asize > ImplicitList.CHUNKSIZE then asize else ImplicitList.CHUNKSIZE;
      assert ExtendBytes(extendSize / 4) == extendSize == ImplicitList.GrowSize(asize) by { ExtendBytesExact(extendSize); }
      ghost var g := HostAllocator.Grown(blocks, listp + 8, extendSize);
      bp := ExtendHeap(extendSize / 4);
      if bp == 0 {
        return 0;
      }
      assert blocks == g;
      Place(bp, asize, |g| - 1);
    }

    /**
     * `mm_realloc`: NULL mallocs, a zero size frees and returns the pointer;
     * a block too small for the adjusted size grows into a free successor
     * when the pair holds it, and otherwise moves to a fresh block (the old
     * one freed, or kept when the malloc fails); a larger block shrinks; an
     * exact one is returned as it is.
     */
    method Realloc(ptr: nat, size: nat) returns (r: nat)
      requires Valid()
      requires ptr != 0 ==> Find(blocks, ptr).Some? && blocks[Find(blocks, ptr).value].alloc
      modifies this, mem
      ensures Valid() && listp == old(listp)
      ensures (blocks, r) == ImplicitList.ReallocOutcome(old(blocks), old(listp) + 8, mem.Length, ptr, size)
    {
      if ptr == 0 {
        r := Malloc(size);
        return r;
      }
      if size == 0 {
        Free(ptr);
        return ptr;
      }
      ghost var i := Find(blocks, ptr).value;
      assert i < |blocks| && blocks[i].ptr == ptr by { FindSpec(blocks, ptr); }
      r := Resize(ptr, size, i);
    }

    /** `mm_realloc` on a live block and a non-zero size: compare the block with the adjusted size. */
    method Resize(ptr: nat, size: nat, ghost i: nat) returns (r: nat)
      requires Valid() && i < |blocks| && blocks[i].ptr == ptr && blocks[i].alloc && size > 0
      modifies this, mem
      ensures Valid() && listp == old(listp)
      ensures var v, asize := old(blocks), ImplicitList.AdjustedSize(size);
        (blocks, r) ==
          if v[i].size < asize then
            if NextFree(v, i) && v[i + 1].size + v[i].size >= asize then (ImplicitList.ExtendAt(v, i, asize), ptr)
            else ImplicitList.MoveOutcome(v, old(listp) + 8, mem.Length, ptr, size)
          else if v[i].size > asize then (ImplicitList.ShrinkAt(v, i, asize), ptr)
          else (v, ptr)
    {
      assert HasTag(mem[..], blocks[i]);
      var blkSize := GetSize(Get(ptr - 4));
      var asize := ImplicitList.AdjustedSize(size);
      if blkSize < asize {
        r := ReallocGrow(ptr, size, asize, i);
      } else if blkSize > asize {
        ShrinkBlk(ptr, asize, i);
        return ptr;
      } else {
        return ptr;
      }
    }

    /** The branch of `mm_realloc` for a block smaller than the adjusted size: grow in place into a free successor, or move. */
    method ReallocGrow(ptr: nat, size: nat, asize: nat, ghost i: nat) returns (r: nat)
      requires Valid() && i < |blocks| && blocks[i].ptr == ptr && blocks[i].alloc
      requires asize == ImplicitList.AdjustedSize(size) && blocks[i].size < asize
      modifies this, mem
      ensures Valid() && listp == old(listp)
      ensures NextFree(old(blocks), i) && old(blocks)[i + 1].size + old(blocks)[i].size >= asize ==>
        blocks == ImplicitList.ExtendAt(old(blocks), i, asize) && r == ptr
      ensures !(NextFree(old(blocks), i) && old(blocks)[i + 1].size + old(blocks)[i].size >= asize) ==>
        (blocks, r) == ImplicitList.MoveOutcome(old(blocks), old(listp) + 8, mem.Length, ptr, size)
    {
      ghost var v, c := blocks, ptr + blocks[i].size;
      assert && 8 <= ptr && c - 4 < mem.Length && GetSize(mem[ptr - 4]) == v[i].size
        && ((!GetAlloc(mem[c - 4]) && GetSize(mem[c - 4]) + v[i].size >= asize) == (NextFree(v, i) && v[i + 1].size + v[i].size >= asize))
      by {
        NextHeader(mem[..], v, listp, i);
      }
      var blkSize := GetSize(Get(ptr - 4));
      var next := NextBlkp(ptr);
      var nextSize := GetSize(Get(next - 4));
      var nextAlloc := GetAlloc(Get(next - 4));
      if !nextAlloc && nextSize + blkSize >= asize {
        ExtendBlk(ptr, asize, i);
        return ptr;
      }
      r := ReallocMove(ptr, size, i);
    }

    /** `mm_realloc` moving the block: malloc a new one, and free the old one when that succeeds. */
    method ReallocMove(ptr: nat, size: nat, ghost i: nat) returns (r: nat)
      requires Valid() && i < |blocks| && blocks[i].ptr == ptr && blocks[i].alloc
      modifies this, mem
      ensures Valid() && listp == old(listp)
      ensures (blocks, r) == ImplicitList.MoveOutcome(old(blocks), old(listp) + 8, mem.Length, ptr, size)
    {
      ghost var v := blocks;
      ImplicitList.MallocKeeps(v, listp + 8, mem.Length, size, i);
      r := Malloc(size);
      if r == 0 {
        return 0;
      }
      Free(ptr);
    }

    /** The free tail's header and footer, then the allocated head's, as `place` and `extend_blk` write them. */
    method PutPair(bp: nat, asize: nat, freeP: nat, freeSize: nat)
      requires freeP == bp + asize && Shaped(Block(bp, asize, true)) && Shaped(Block(freeP, freeSize, false))
      requires freeP + freeSize <= mem.Length
      modifies mem
      ensures mem[..] == Stamp(Stamp(old(mem[..]), Block(freeP, freeSize, false)), Block(bp, asize, true))
    {
      PutTags(freeP, freeSize, false);
      PutTags(bp, asize, true);
    }
  }
}

/**
 * The host side of the offload heap (pc_side/pc_mm.c). The host keeps the
 * only record of the device heap: a circular doubly linked list of block
 * records in address order, closed by a sentinel record of size 0 that counts
 * as allocated, and an index from block address to record (AddressIndex).
 * The device asks for addresses; the host answers from this bookkeeping and
 * never touches device memory.
 *
 * Every operation of the `Engine` is specified by what it does to the
 * address-ordered view of the heap (BlockList), and keeps the invariant
 * `Valid()`: the ring is linked, the blocks tile the heap from the sentinel's
 * address, no two neighbours are both free, and the index maps exactly the
 * address of every block to its record.
 */
module HostAllocator {
  import opened Wrappers
  import opened BlockList
  import opened HostRecords
  import AddressIndex

  /** Double word: the allocation granularity and the per-block overhead that `mm_malloc` adds. */
  const DSIZE: nat := 8

  /** `(size_t)-1`, the starting bound of the best-fit search. */
  const SIZE_MAX: nat := 0xFFFF_FFFF_FFFF_FFFF

  /** Device addresses are 32-bit: the heap ends at or below this. */
  const ADDRESS_LIMIT: nat := 0x1_0000_0000

  /** `mm_sbrk` and `mem_sbrk` take the growth as an `int`: from this value on it reads as negative. */
  const INCR_LIMIT: nat := 0x8000_0000

  // ---------------------------------------------------------------------------
  // The operations on the view

  /** `mm_malloc`'s adjusted size: 8 for requests up to 8 bytes, else the request plus 8 bytes of overhead, rounded up to a multiple of 8. */
  function MallocSize(size: nat): (r: nat)
    ensures r % DSIZE == 0 && r >= DSIZE
    ensures size > DSIZE ==> size + DSIZE <= r < size + 2 * DSIZE
    ensures size <= DSIZE ==> r == DSIZE
  {
    if size <= DSIZE then DSIZE else DSIZE * ((size + DSIZE + (DSIZE - 1)) / DSIZE)
  }

  /** `mm_realloc`'s adjusted size: the request rounded up to a multiple of 8, at least 8, with no overhead. */
  function ReallocSize(size: nat): (r: nat)
    ensures r % DSIZE == 0 && r >= DSIZE && r >= size
    ensures size >= DSIZE ==> r < size + DSIZE
    ensures size < DSIZE ==> r == DSIZE
  {
    if size < DSIZE then DSIZE else DSIZE * ((size + (DSIZE - 1)) / DSIZE)
  }

  /** `place`: block `i` becomes allocated; a remainder beyond `asize` is split off as a free block. */
  function Placed(v: seq<Block>, i: nat, asize: nat): seq<Block>
    requires i < |v|
  {
    if v[i].size > asize then SetAlloc(Split(v, i, asize), i, true) else SetAlloc(v, i, true)
  }

  /** `shrink_blk`: a remainder beyond `asize` is split off as a free block and coalesced with its right neighbour. */
  function Shrunk(v: seq<Block>, i: nat, asize: nat): seq<Block>
    requires i < |v|
  {
    if v[i].size > asize then Coalesce(Split(v, i, asize), i + 1) else v
  }

  /** `extend_blk`: block `i` grows to `asize` into its successor, which keeps the rest or, when nothing is left, disappears. */
  function Extended(v: seq<Block>, i: nat, asize: nat): seq<Block>
    requires i + 1 < |v| && asize <= v[i].size + v[i + 1].size
  {
    if v[i].size + v[i + 1].size > asize then MoveBoundary(v, i, asize) else MergeNext(v, i)
  }

  /** `mm_free`: the block at `ptr`, if there is one, becomes free and is coalesced; an unknown address changes nothing. */
  function Freed(v: seq<Block>, ptr: nat): seq<Block>
  {
    match Find(v, ptr)
    case None => v
    case Some(i) => Coalesce(SetAlloc(v, i, false), i)
  }

  /** `mm_sbrk`: a free block of `incr` bytes is appended at the end of the heap and coalesced. */
  function Grown(v: seq<Block>, base: nat, incr: nat): seq<Block>
  {
    Coalesce(Append(v, base, incr), |v|)
  }

  /** `mm_malloc`: the new view and the returned address (0 for a zero size or when nothing fits). */
  function MallocResult(v: seq<Block>, size: nat, bestFit: bool): (seq<Block>, nat)
  {
    if size == 0 then (v, 0)
    else match FindFit(v, MallocSize(size), bestFit)
      case None => (v, 0)
      case Some(i) => (Placed(v, i, MallocSize(size)), v[i].ptr)
  }

  /**
   * `mm_realloc` with the not-found guard the code evidently intends: an
   * unknown address returns 0. A known block is extended in place into a free
   * successor with room enough, shrunk, or left alone, and the address is
   * returned; when it cannot grow in place it is left alone and 0 is returned.
   */
  function ReallocResult(v: seq<Block>, ptr: nat, size: nat): (seq<Block>, nat)
  {
    match Find(v, ptr)
    case None => (v, 0)
    case Some(i) => ReallocFound(v, i, ptr, size)
  }

  /** `mm_realloc` once the block `i` at `ptr` has been found. */
  function ReallocFound(v: seq<Block>, i: nat, ptr: nat, size: nat): (seq<Block>, nat)
    requires i < |v|
  {
    var asize := ReallocSize(size);
    if v[i].size < asize then
      if NextFree(v, i) && v[i + 1].size + v[i].size >= asize then (Extended(v, i, asize), ptr) else (v, 0)
    else if v[i].size > asize then (Shrunk(v, i, asize), ptr)
    else (v, ptr)
  }

  /**
   * `mm_realloc` as written: the result of the search is dereferenced before
   * it is tested, so an unknown address is a NULL dereference (None here).
   */
  function ReallocAsWritten(v: seq<Block>, ptr: nat, size: nat): Option<(seq<Block>, nat)>
  {
    match Find(v, ptr)
    case None => None
    case Some(i) => Some(ReallocFound(v, i, ptr, size))
  }

  /** The record a lookup of `ptr` must find: the one holding the block at that address. */
  ghost function FoundIn(v: seq<Block>, order: seq<Handle>, ptr: nat): Option<Handle>
    requires |v| == |order|
  {
    match Find(v, ptr)
    case None => None
    case Some(i) => Some(order[i])
  }

  /** The record at the position an index-level search found, if any. */
  function HandleAt(order: seq<Handle>, j: Option<nat>): Option<Handle>
  {
    if j.Some? && j.value < |order| then Some(order[j.value]) else None
  }

  // ---------------------------------------------------------------------------
  // The list surgery of the engine, on views

  /** `place`'s field updates followed by the link of the remainder give `Placed`. */
  lemma {:induction false} PlaceSplitView(v: seq<Block>, i: nat, asize: nat)
    requires i < |v| && asize < v[i].size
    ensures var w := v[i := v[i].(size := asize, alloc := true)];
      var nb := Block(v[i].ptr + asize, v[i].size - asize, false);
      w[..i + 1] + [nb] + w[i + 1..] == SetAlloc(Split(v, i, asize), i, true)
  {
    var w := v[i := v[i].(size := asize, alloc := true)];
    var nb := Block(v[i].ptr + asize, v[i].size - asize, false);
    SplitAt(v, i, asize);
    InsertBlockAt(w, i + 1, nb);
  }

  /** `shrink_blk`'s size update of the block and link of the remainder give `Split`. */
  lemma {:induction false} ShrinkSplitView(v: seq<Block>, i: nat, asize: nat)
    requires i < |v| && asize < v[i].size
    ensures var w := v[i := v[i].(size := asize)];
      var nb := Block(v[i].ptr + asize, v[i].size - asize, false);
      w[..i + 1] + [nb] + w[i + 1..] == Split(v, i, asize)
  {
    var w := v[i := v[i].(size := asize)];
    var nb := Block(v[i].ptr + asize, v[i].size - asize, false);
    SplitAt(v, i, asize);
    InsertBlockAt(w, i + 1, nb);
  }

  /** `extend_blk`'s two field updates give `MoveBoundary`. */
  lemma {:induction false} ExtendMoveView(v: seq<Block>, i: nat, asize: nat)
    requires i + 1 < |v| && asize < v[i].size + v[i + 1].size
    ensures var n := v[i + 1].(size := v[i].size + v[i + 1].size - asize, ptr := v[i].ptr + asize);
      v[i + 1 := n][i := v[i].(size := asize)] == MoveBoundary(v, i, asize)
  {
    MoveBoundaryAt(v, i, asize);
  }

  /** Linking after the last block appends. */
  lemma {:induction false} InsertAtEnd(v: seq<Block>, b: Block)
    ensures v[..|v|] + [b] + v[|v|..] == v + [b]
  {
    assert v[..|v|] == v && v[|v|..] == [];
  }

  /** In a well-formed heap below the address limit, no block is as large as `SIZE_MAX`. */
  lemma {:induction false} SizeBelowMax(v: seq<Block>, base: nat, i: nat)
    requires WellFormed(v, base) && base + Total(v) <= ADDRESS_LIMIT && i < |v|
    ensures v[i].size < SIZE_MAX
  {
    BlockWithinRegion(v, base, i);
  }

  /** Everything `merge_next` does to the records, the view and the holders of each address. */
  lemma {:induction false} MergeStep(nodes: map<Handle, Node>, order: seq<Handle>, s: Handle, i: nat, base: nat)
    requires Linked(nodes, order, s) && i + 1 < |order| && WellFormed(ViewOf(nodes, order), base) && base > 0
    ensures var b := order[i]; var t := order[i + 1];
      && b in nodes && t in nodes && nodes[b].next == t && nodes[t].next in nodes
      && nodes[t].next != t && nodes[t].ptr > 0
    ensures var v := ViewOf(nodes, order); var t := order[i + 1];
      var m := MergeRecords(nodes, order[i]); var o := RemoveAt(order, i + 1);
      && Linked(m, o, s)
      && m[s].ptr == nodes[s].ptr && m[s].size == nodes[s].size && m[s].alloc == nodes[s].alloc
      && (forall h :: h in m ==> h in nodes)
      && ViewOf(m, o) == BlockList.MergeNext(v, i)
      && WellFormed(ViewOf(m, o), base) && Total(ViewOf(m, o)) == Total(v)
      && Index(v, order)[nodes[t].ptr] == [t]
      && Index(ViewOf(m, o), o) == Index(v, order)[nodes[t].ptr := []]
  {
    var v := ViewOf(nodes, order);
    MergeSetup(nodes, order, s, i);
    MergeRecordsLinked(nodes, order, s, i);
    MergeRecordsView(nodes, order, s, i);
    MergeRecordsMap(nodes, order[i]);
    MergeNextWellFormed(v, base, i);
    BlockWithinRegion(v, base, i + 1);
    MergeIndex(v, base, order, i);
  }

  /** Merging block `i + 1` into block `i` drops its address from the index. */
  lemma {:induction false} MergeIndex(v: seq<Block>, base: nat, o: seq<Handle>, i: nat)
    requires WellFormed(v, base) && |v| == |o| && i + 1 < |v|
    ensures Index(v, o)[v[i + 1].ptr] == [o[i + 1]]
    ensures Index(BlockList.MergeNext(v, i), RemoveAt(o, i + 1)) == Index(v, o)[v[i + 1].ptr := []]
  {
    var o' := RemoveAt(o, i + 1);
    forall k: nat ensures Holders(BlockList.MergeNext(v, i), o', k) == if k == v[i + 1].ptr then [] else Holders(v, o, k) {
      HoldersMergeNext(v, base, o, i, k);
    }
    HoldersMergeNext(v, base, o, i, 0);
    IndexUpdate(v, o, BlockList.MergeNext(v, i), o', v[i + 1].ptr, []);
  }

  /** Allocating or freeing a block in place keeps the shape and what the index must hold. */
  lemma {:induction false} AllocStep(v: seq<Block>, base: nat, o: seq<Handle>, i: nat, a: bool)
    requires WellFormed(v, base) && |v| == |o| && i < |v|
    ensures WellFormed(SetAlloc(v, i, a), base) && Total(SetAlloc(v, i, a)) == Total(v)
    ensures Index(SetAlloc(v, i, a), o) == Index(v, o)
  {
    SetAllocWellFormed(v, base, i, a);
    forall k: nat ensures Holders(SetAlloc(v, i, a), o, k) == Holders(v, o, k) {
      HoldersSetAlloc(v, o, i, a, k);
    }
    assert Index(SetAlloc(v, i, a), o) == Index(v, o);
  }

  /** What `place` does when it splits: block `i` is allocated at `asize` bytes and the remainder becomes a free block under `h`. */
  lemma {:induction false} PlaceStep(v: seq<Block>, base: nat, o: seq<Handle>, i: nat, asize: nat, h: Handle)
    requires WellFormed(v, base) && |v| == |o| && i < |v| && 0 < asize < v[i].size
    ensures v[i := v[i].(size := asize, alloc := true)][..i + 1] + [Block(v[i].ptr + asize, v[i].size - asize, false)]
      + v[i := v[i].(size := asize, alloc := true)][i + 1..] == Placed(v, i, asize)
    ensures WellFormed(Placed(v, i, asize), base) && Total(Placed(v, i, asize)) == Total(v)
    ensures Index(v, o)[v[i].ptr + asize] == []
    ensures Index(Placed(v, i, asize), InsertAt(o, i + 1, h)) == Index(v, o)[v[i].ptr + asize := [h]]
  {
    PlaceSplitView(v, i, asize);
    SplitWellFormed(v, base, i, asize);
    SplitIndex(v, base, o, i, asize, h);
    AllocStep(Split(v, i, asize), base, InsertAt(o, i + 1, h), i, true);
  }

  /** Splitting block `i` adds the address of the remainder, held by `h`, to the index. */
  lemma {:induction false} SplitIndex(v: seq<Block>, base: nat, o: seq<Handle>, i: nat, asize: nat, h: Handle)
    requires WellFormed(v, base) && |v| == |o| && i < |v| && 0 < asize < v[i].size
    ensures Index(v, o)[v[i].ptr + asize] == []
    ensures Index(Split(v, i, asize), InsertAt(o, i + 1, h)) == Index(v, o)[v[i].ptr + asize := [h]]
  {
    var o' := InsertAt(o, i + 1, h);
    forall k: nat ensures Holders(Split(v, i, asize), o', k) == if k == v[i].ptr + asize then [h] else Holders(v, o, k) {
      HoldersSplit(v, base, o, i, asize, h, k);
    }
    HoldersSplit(v, base, o, i, asize, h, 0);
    IndexUpdate(v, o, Split(v, i, asize), o', v[i].ptr + asize, [h]);
  }

  /** What `shrink_blk` does before coalescing: the remainder of block `i` beyond `asize` becomes a free block under `h`. */
  lemma {:induction false} ShrinkStep(v: seq<Block>, base: nat, o: seq<Handle>, i: nat, asize: nat, h: Handle)
    requires WellFormed(v, base) && |v| == |o| && i < |v| && 0 < asize < v[i].size
    ensures v[i := v[i].(size := asize)][..i + 1] + [Block(v[i].ptr + asize, v[i].size - asize, false)]
      + v[i := v[i].(size := asize)][i + 1..] == Split(v, i, asize)
    ensures WellFormed(Split(v, i, asize), base) && Total(Split(v, i, asize)) == Total(v)
    ensures Index(v, o)[v[i].ptr + asize] == []
    ensures Index(Split(v, i, asize), InsertAt(o, i + 1, h)) == Index(v, o)[v[i].ptr + asize := [h]]
  {
    ShrinkSplitView(v, i, asize);
    SplitWellFormed(v, base, i, asize);
    SplitIndex(v, base, o, i, asize, h);
  }

  /** What `extend_blk` does when some of the successor is left: the boundary moves and the successor's record changes address. */
  lemma {:induction false} ExtendStep(v: seq<Block>, base: nat, o: seq<Handle>, i: nat, asize: nat)
    requires WellFormed(v, base) && |v| == |o| && i + 1 < |v| && v[i].size < asize < v[i].size + v[i + 1].size
    ensures var n := v[i + 1].(size := v[i].size + v[i + 1].size - asize, ptr := v[i].ptr + asize);
      && v[i + 1 := n][i := v[i].(size := asize)] == MoveBoundary(v, i, asize)
      && WellFormed(MoveBoundary(v, i, asize), base) && Total(MoveBoundary(v, i, asize)) == Total(v)
      && v[i].ptr + asize != v[i + 1].ptr
      && Index(v, o)[v[i + 1].ptr] == [o[i + 1]]
      && Index(v, o)[v[i + 1].ptr := []][v[i].ptr + asize] == []
      && Index(MoveBoundary(v, i, asize), o) == Index(v, o)[v[i + 1].ptr := []][v[i].ptr + asize := [o[i + 1]]]
  {
    ExtendMoveView(v, i, asize);
    MoveBoundaryWellFormed(v, base, i, asize);
    MoveBoundaryIndex(v, base, o, i, asize);
  }

  /** Moving the boundary re-files the successor's record under its new address. */
  lemma {:induction false} MoveBoundaryIndex(v: seq<Block>, base: nat, o: seq<Handle>, i: nat, asize: nat)
    requires WellFormed(v, base) && |v| == |o| && i + 1 < |v| && v[i].size < asize < v[i].size + v[i + 1].size
    ensures v[i].ptr + asize != v[i + 1].ptr
    ensures Index(v, o)[v[i + 1].ptr] == [o[i + 1]]
    ensures Index(v, o)[v[i + 1].ptr := []][v[i].ptr + asize] == []
    ensures Index(MoveBoundary(v, i, asize), o) == Index(v, o)[v[i + 1].ptr := []][v[i].ptr + asize := [o[i + 1]]]
  {
    var w := MoveBoundary(v, i, asize);
    var p, q := v[i + 1].ptr, v[i].ptr + asize;
    forall k: nat ensures Holders(w, o, k) == if k == p then [] else if k == q then [o[i + 1]] else Holders(v, o, k) {
      HoldersMoveBoundary(v, base, o, i, asize, k);
    }
    HoldersMoveBoundary(v, base, o, i, asize, 0);
    assert Index(w, o) == Index(v, o)[p := []][q := [o[i + 1]]];
  }

  /** What `mm_sbrk` does before coalescing: a free block of `incr` bytes under `h` is linked after the last block. */
  lemma {:induction false} GrowStep(v: seq<Block>, base: nat, o: seq<Handle>, incr: nat, h: Handle)
    requires WellFormed(v, base) && |v| == |o| && incr > 0
    ensures v[..|v|] + [Block(base + Total(v), incr, false)] + v[|v|..] == Append(v, base, incr)
    ensures WellFormed(Append(v, base, incr), base) && Total(Append(v, base, incr)) == Total(v) + incr
    ensures |v| > 0 ==> v[|v| - 1].ptr + v[|v| - 1].size == base + Total(v)
    ensures Index(v, o)[base + Total(v)] == []
    ensures Index(Append(v, base, incr), InsertAt(o, |o|, h)) == Index(v, o)[base + Total(v) := [h]]
  {
    InsertAtEnd(v, Block(base + Total(v), incr, false));
    AppendWellFormed(v, base, incr);
    if |v| > 0 {
      EndIsBasePlusTotal(v, base);
    }
    AppendIndex(v, base, o, incr, h);
  }

  /** Appending a block files its record under the old end of the heap. */
  lemma {:induction false} AppendIndex(v: seq<Block>, base: nat, o: seq<Handle>, incr: nat, h: Handle)
    requires WellFormed(v, base) && |v| == |o|
    ensures Index(v, o)[base + Total(v)] == []
    ensures Index(Append(v, base, incr), InsertAt(o, |o|, h)) == Index(v, o)[base + Total(v) := [h]]
  {
    InsertAtLast(o, h);
    var w := Append(v, base, incr);
    forall k: nat ensures Holders(w, o + [h], k) == if k == base + Total(v) then [h] else Holders(v, o, k) {
      HoldersGrow(v, base, o, incr, h, k);
    }
    HoldersGrow(v, base, o, incr, h, 0);
    IndexUpdate(v, o, w, o + [h], base + Total(v), [h]);
  }

  /** Filing the record `mm_sbrk` appends: nothing was filed at the old end of the heap, and now exactly the new record is. */
  lemma {:induction false} SbrkIndexStep(c: imap<nat, seq<Handle>>, v: seq<Block>, o: seq<Handle>, base: nat, incr: nat, h: Handle, key: nat, w: seq<Block>, o2: seq<Handle>)
    requires WellFormed(v, base) && |v| == |o| && c == Index(v, o) && key == base + Total(v)
    requires w == Append(v, base, incr) && o2 == o + [h]
    ensures c[key] == [] && Index(w, o2) == c[key := [h]]
  {
    AppendIndex(v, base, o, incr, h);
    InsertAtLast(o, h);
  }

  lemma {:induction false} InsertAtLast(o: seq<Handle>, h: Handle)
    ensures InsertAt(o, |o|, h) == o + [h]
  {
  }

  /** `place` on the records, when it splits: what happens to the ring and the view. */
  lemma {:induction false} PlaceRecordsStep(nodes: map<Handle, Node>, order: seq<Handle>, s: Handle, v: seq<Block>, i: nat, asize: nat, h: Handle)
    requires Linked(nodes, order, s) && v == ViewOf(nodes, order)
    requires i < |order| && h !in nodes && 0 < asize < v[i].size
    ensures order[i] in nodes && nodes[order[i]].next in nodes && asize <= nodes[order[i]].size
    ensures nodes[order[i]].ptr == v[i].ptr && v[i].ptr + asize != 0
    ensures Linked(SplitRecords(nodes, order[i], h, asize, true), InsertAt(order, i + 1, h), s)
    ensures BlockOf(SplitRecords(nodes, order[i], h, asize, true)[s]) == BlockOf(nodes[s])
    ensures forall x :: x in SplitRecords(nodes, order[i], h, asize, true) ==> x in nodes || x == h
    ensures h in SplitRecords(nodes, order[i], h, asize, true)
    ensures SplitRecords(nodes, order[i], h, asize, true)[h].ptr == v[i].ptr + asize
    ensures SplitRecords(nodes, order[i], h, asize, true)[order[i]].ptr == v[i].ptr
    ensures ViewOf(SplitRecords(nodes, order[i], h, asize, true), InsertAt(order, i + 1, h)) == Placed(v, i, asize)
  {
    LinkedAt(nodes, order, s, i);
    SplitRecordsLinked(nodes, order, s, i, asize, true, h);
    PlaceRecordsView(nodes, order, v, i, asize, h);
  }

  /** The view half of `PlaceRecordsStep`, stated without the ring so that its proof stays small. */
  lemma {:induction false} PlaceRecordsView(nodes: map<Handle, Node>, order: seq<Handle>, v: seq<Block>, i: nat, asize: nat, h: Handle)
    requires i < |order| && (forall x :: x in order ==> x in nodes) && h !in nodes
    requires forall a, c :: 0 <= a < c < |order| ==> order[a] != order[c]
    requires nodes[order[i]].next in nodes && v == ViewOf(nodes, order) && asize < v[i].size
    ensures ViewOf(SplitRecords(nodes, order[i], h, asize, true), InsertAt(order, i + 1, h)) == Placed(v, i, asize)
  {
    SplitRecordsView(nodes, order, i, asize, true, h);
    PlaceSplitView(v, i, asize);
  }

  /** `shrink_blk` on the records, before coalescing: what happens to the ring and the view. */
  lemma {:induction false} ShrinkRecordsStep(nodes: map<Handle, Node>, order: seq<Handle>, s: Handle, v: seq<Block>, i: nat, asize: nat, h: Handle)
    requires Linked(nodes, order, s) && v == ViewOf(nodes, order)
    requires i < |order| && h !in nodes && 0 < asize < v[i].size
    ensures order[i] in nodes && nodes[order[i]].next in nodes && asize <= nodes[order[i]].size
    ensures nodes[order[i]].ptr == v[i].ptr && v[i].ptr + asize != 0
    ensures Linked(SplitRecords(nodes, order[i], h, asize, nodes[order[i]].alloc), InsertAt(order, i + 1, h), s)
    ensures BlockOf(SplitRecords(nodes, order[i], h, asize, nodes[order[i]].alloc)[s]) == BlockOf(nodes[s])
    ensures forall x :: x in SplitRecords(nodes, order[i], h, asize, nodes[order[i]].alloc) ==> x in nodes || x == h
    ensures h in SplitRecords(nodes, order[i], h, asize, nodes[order[i]].alloc)
    ensures SplitRecords(nodes, order[i], h, asize, nodes[order[i]].alloc)[h].ptr == v[i].ptr + asize
    ensures ViewOf(SplitRecords(nodes, order[i], h, asize, nodes[order[i]].alloc), InsertAt(order, i + 1, h)) == Split(v, i, asize)
  {
    LinkedAt(nodes, order, s, i);
    SplitRecordsLinked(nodes, order, s, i, asize, nodes[order[i]].alloc, h);
    ShrinkRecordsView(nodes, order, v, i, asize, h);
  }

  /** The view half of `ShrinkRecordsStep`, stated without the ring so that its proof stays small. */
  lemma {:induction false} ShrinkRecordsView(nodes: map<Handle, Node>, order: seq<Handle>, v: seq<Block>, i: nat, asize: nat, h: Handle)
    requires i < |order| && (forall x :: x in order ==> x in nodes) && h !in nodes
    requires forall a, c :: 0 <= a < c < |order| ==> order[a] != order[c]
    requires nodes[order[i]].next in nodes && v == ViewOf(nodes, order) && asize < v[i].size
    ensures ViewOf(SplitRecords(nodes, order[i], h, asize, nodes[order[i]].alloc), InsertAt(order, i + 1, h)) == Split(v, i, asize)
  {
    var a := nodes[order[i]].alloc;
    SplitRecordsView(nodes, order, i, asize, a, h);
    assert v[i].(size := asize, alloc := a) == v[i].(size := asize);
    ShrinkSplitView(v, i, asize);
  }

  /** `extend_blk` on the records, when the successor keeps some bytes: what happens to the ring, the view and the index. */
  lemma {:induction false} MoveRecordsStep(nodes: map<Handle, Node>, order: seq<Handle>, s: Handle, v: seq<Block>, i: nat, asize: nat, base: nat)
    requires Linked(nodes, order, s) && v == ViewOf(nodes, order) && WellFormed(v, base) && base > 0 && i + 1 < |order|
    requires v[i].size < asize < v[i].size + v[i + 1].size
    ensures order[i] in nodes && nodes[order[i]].next == order[i + 1] && order[i + 1] in nodes
    ensures asize <= nodes[order[i]].size + nodes[order[i + 1]].size
    ensures nodes[order[i + 1]].ptr == v[i + 1].ptr && v[i + 1].ptr != 0 && v[i].ptr + asize != 0
    ensures Linked(MoveRecords(nodes, order[i], asize), order, s)
    ensures MoveRecords(nodes, order[i], asize)[s] == nodes[s] && MoveRecords(nodes, order[i], asize).Keys == nodes.Keys
    ensures ViewOf(MoveRecords(nodes, order[i], asize), order) == MoveBoundary(v, i, asize)
    ensures WellFormed(MoveBoundary(v, i, asize), base) && Total(MoveBoundary(v, i, asize)) == Total(v)
    ensures Index(v, order)[v[i + 1].ptr] == [order[i + 1]]
    ensures Index(v, order)[v[i + 1].ptr := []][v[i].ptr + asize] == []
    ensures Index(MoveBoundary(v, i, asize), order) == Index(v, order)[v[i + 1].ptr := []][v[i].ptr + asize := [order[i + 1]]]
  {
    LinkedAt(nodes, order, s, i);
    LinkedAt(nodes, order, s, i + 1);
    assert v[i + 1].ptr != 0 && v[i].ptr + asize != 0 by {
      BlockWithinRegion(v, base, i);
    }
    MoveRecordsLinked(nodes, order, s, i, asize);
    MoveRecordsViewStep(nodes, order, v, i, asize);
    ExtendStep(v, base, order, i, asize);
  }

  /** The view half of `MoveRecordsStep`, stated without the ring so that its proof stays small. */
  lemma {:induction false} MoveRecordsViewStep(nodes: map<Handle, Node>, order: seq<Handle>, v: seq<Block>, i: nat, asize: nat)
    requires i + 1 < |order| && (forall x :: x in order ==> x in nodes)
    requires forall a, c :: 0 <= a < c < |order| ==> order[a] != order[c]
    requires nodes[order[i]].next == order[i + 1] && v == ViewOf(nodes, order)
    requires v[i].size < asize < v[i].size + v[i + 1].size
    ensures ViewOf(MoveRecords(nodes, order[i], asize), order) == MoveBoundary(v, i, asize)
  {
    MoveRecordsView(nodes, order, i, asize);
    ExtendMoveView(v, i, asize);
  }

  /** `mm_sbrk` on the records, before coalescing: what happens to the ring and the view. */
  lemma {:induction false} AppendRecordsStep(nodes: map<Handle, Node>, order: seq<Handle>, s: Handle, v: seq<Block>, incr: nat, h: Handle, base: nat)
    requires Linked(nodes, order, s) && v == ViewOf(nodes, order) && WellFormed(v, base) && h !in nodes
    requires nodes[s].ptr == base && nodes[s].size == 0
    ensures nodes[s].prev in nodes && nodes[nodes[s].prev].next in nodes
    ensures Linked(AppendRecords(nodes, s, h, incr), InsertAt(order, |order|, h), s)
    ensures BlockOf(AppendRecords(nodes, s, h, incr)[s]) == BlockOf(nodes[s])
    ensures forall x :: x in AppendRecords(nodes, s, h, incr) ==> x in nodes || x == h
    ensures h in AppendRecords(nodes, s, h, incr) && AppendRecords(nodes, s, h, incr)[h].ptr == base + Total(v)
    ensures ViewOf(AppendRecords(nodes, s, h, incr), InsertAt(order, |order|, h)) == Append(v, base, incr)
  {
    Around(nodes, order, s, |order|);
    AppendRecordsLinked(nodes, order, s, incr, h);
    var last := nodes[nodes[s].prev];
    assert last.ptr + last.size == base + Total(v) by {
      if order != [] {
        LinkedAt(nodes, order, s, |order| - 1);
        EndIsBasePlusTotal(v, base);
      }
    }
    AppendRecordsViewStep(nodes, order, s, v, incr, h, base);
  }

  /** The view half of `AppendRecordsStep`, stated without the ring so that its proof stays small. */
  lemma {:induction false} AppendRecordsViewStep(nodes: map<Handle, Node>, order: seq<Handle>, s: Handle, v: seq<Block>, incr: nat, h: Handle, base: nat)
    requires (forall x :: x in order ==> x in nodes) && h !in nodes && v == ViewOf(nodes, order)
    requires s in nodes && nodes[s].prev in nodes && nodes[nodes[s].prev].next in nodes
    requires nodes[nodes[s].prev].ptr + nodes[nodes[s].prev].size == base + Total(v)
    ensures ViewOf(AppendRecords(nodes, s, h, incr), InsertAt(order, |order|, h)) == Append(v, base, incr)
  {
    AppendRecordsView(nodes, order, s, incr, h);
    InsertAtEnd(v, Block(base + Total(v), incr, false));
  }


  /** The allocated bits `coalesce` reads off the neighbours of a record are the view's, with the sentinel allocated. */
  lemma {:induction false} NeighbourAlloc(nodes: map<Handle, Node>, order: seq<Handle>, s: Handle, i: nat)
    requires Linked(nodes, order, s) && nodes[s].alloc && i < |order|
    ensures order[i] in nodes && nodes[order[i]].prev in nodes && nodes[order[i]].next in nodes
    ensures nodes[order[i]].prev == if i == 0 then s else order[i - 1]
    ensures nodes[nodes[order[i]].prev].alloc == !PrevFree(ViewOf(nodes, order), i)
    ensures nodes[nodes[order[i]].next].alloc == !NextFree(ViewOf(nodes, order), i)
  {
    LinkedAt(nodes, order, s, i);
    if i > 0 {
      LinkedAt(nodes, order, s, i - 1);
    }
    if i + 1 < |order| {
      LinkedAt(nodes, order, s, i + 1);
    }
  }

  // ---------------------------------------------------------------------------
  // The engine

  /** The records left once `mm_heap_reset` has freed the first `idx` listed ones. */
  function Without(nodes: map<Handle, Node>, order: seq<Handle>, idx: nat): map<Handle, Node>
    requires idx <= |order|
  {
    map h | h in nodes && h !in order[..idx] :: nodes[h]
  }

  /** Freeing the next listed record: it is still there, with its old contents, and then it is gone. */
  lemma {:induction false} WithoutStep(nodes: map<Handle, Node>, order: seq<Handle>, s: Handle, idx: nat)
    requires Linked(nodes, order, s) && idx < |order|
    ensures order[idx] in Without(nodes, order, idx)
    ensures Without(nodes, order, idx)[order[idx]] == nodes[order[idx]]
    ensures Without(nodes, order, idx + 1) == Without(nodes, order, idx) - {order[idx]}
  {
    assert order[idx] !in order[..idx] by {
      forall k | 0 <= k < idx ensures order[k] != order[idx] {
      }
    }
    assert order[..idx + 1] == order[..idx] + [order[idx]];
  }

  /** Once the walk has freed every listed record, only the sentinel is left, unchanged. */
  lemma {:induction false} WithoutAll(nodes: map<Handle, Node>, order: seq<Handle>, s: Handle)
    requires Linked(nodes, order, s)
    ensures s in Without(nodes, order, |order|) && Without(nodes, order, |order|)[s] == nodes[s]
    ensures Without(nodes, order, |order|) == map[s := nodes[s]]
  {
    assert order[..|order|] == order;
  }

  /** An empty heap has nothing to index: every address has no holder, as in a freshly created index. */
  lemma {:induction false} EmptyIndex(c: imap<nat, seq<Handle>>)
    requires forall k: nat :: k in c && c[k] == []
    ensures Index([], []) == c
  {
    forall k: nat ensures Index([], [])[k] == c[k] {
    }
  }

  /**
   * The globals of pc_mm.c and dict.c: `list_start` (with `started` for
   * "not NULL") and the records reachable from it, the address index, and
   * the two compile-time switches BEST_FIT and DICT_SEARCH as fields.
   */
  class Engine {
    const bestFit: bool
    const dictSearch: bool
    var started: bool
    var listStart: Handle
    var nodes: map<Handle, Node>
    /** Handles above every record ever allocated: where the next `malloc` of a record lands. */
    var nextHandle: Handle
    const dict: AddressIndex.Dict
    ghost var order: seq<Handle>
    ghost var Repr: set<object>

    /** The engine owns the index and nothing else. */
    ghost predicate Frame()
      reads this, Repr
    {
      dict in Repr && Repr == {this} + dict.Repr && this !in dict.Repr
    }

    /** The list exists, is linked through `order`, and closes on a sentinel of size 0 that counts as allocated. */
    ghost predicate ListOk()
      reads this
    {
      && started
      && Linked(nodes, order, listStart)
      && nodes[listStart].size == 0 && nodes[listStart].alloc && nodes[listStart].ptr > 0
      && (forall h :: h in nodes ==> h < nextHandle)
    }

    /** The blocks in address order. */
    ghost function View(): seq<Block>
      reads this
      requires ListOk()
    {
      ViewOf(nodes, order)
    }

    /** The start of the heap: the sentinel's address. */
    ghost function Base(): nat
      reads this
      requires ListOk()
    {
      nodes[listStart].ptr
    }

    /**
     * The state between operations, coalescing aside: the blocks tile the heap
     * from `Base()` within the 32-bit address space, and the index lists under
     * every address exactly the record of the block at that address.
     */
    ghost predicate Wf()
      reads this, Repr
    {
      && Frame()
      && dict.Valid()
      && ListOk()
      && WellFormed(View(), Base())
      && Base() + Total(View()) <= ADDRESS_LIMIT
      && dict.Contents() == Index(View(), order)
    }

    /** `Wf` and no two neighbouring blocks both free. */
    ghost predicate Valid()
      reads this, Repr
    {
      Wf() && NoAdjacentFree(View())
    }

    /** The zero-initialised globals: no list yet, and an index that `dict_create` has not yet set up. */
    constructor (bestFit: bool, dictSearch: bool)
      ensures Frame() && fresh(Repr) && !started
      ensures this.bestFit == bestFit && this.dictSearch == dictSearch
    {
      this.bestFit := bestFit;
      this.dictSearch := dictSearch;
      started := false;
      listStart := 0;
      nodes := map[];
      nextHandle := 0;
      dict := new AddressIndex.Dict();
      order := [];
      new;
      Repr := {this} + dict.Repr;
    }

    /** `linear_blk_search`: walk the list from the sentinel's successor until the sentinel. */
    method LinearBlkSearch(ptr: nat) returns (r: Option<Handle>)
      requires Wf()
      ensures r == FoundIn(View(), order, ptr)
    {
      ghost var v := View();
      var cur := nodes[listStart].next;
      ghost var idx := 0;
      while nodes[cur].size != 0
        invariant idx <= |order| && cur in nodes && cur == (if idx < |order| then order[idx] else listStart)
        invariant FindFrom(v, ptr, idx) == Find(v, ptr)
        decreases |order| - idx
      {
        LinkedAt(nodes, order, listStart, idx);
        if nodes[cur].ptr == ptr {
          return Some(cur);
        }
        cur := nodes[cur].next;
        idx := idx + 1;
      }
      return None;
    }

    /** `dict_blk_search`: ask the index. */
    method DictBlkSearch(ptr: nat) returns (r: Option<Handle>)
      requires Wf()
      ensures r == FoundIn(View(), order, ptr)
    {
      HoldersFind(View(), Base(), order, ptr);
      r := dict.Search(ptr);
    }

    /** `blk_search`: the index or the walk, as DICT_SEARCH selects; both find the same record. */
    method BlkSearch(ptr: nat) returns (r: Option<Handle>)
      requires Wf()
      ensures r == FoundIn(View(), order, ptr)
    {
      if dictSearch {
        r := DictBlkSearch(ptr);
      } else {
        r := LinearBlkSearch(ptr);
      }
    }

    /** The list surgery of `merge_next`: record `blk` (at position `i`) absorbs its successor, which is unlinked. */
    method UnlinkNext(blk: Handle, ghost i: nat) returns (tptr: nat)
      requires ListOk() && WellFormed(View(), Base()) && i + 1 < |order| && order[i] == blk
      modifies this
      ensures ListOk() && WellFormed(View(), Base()) && Total(View()) == old(Total(View()))
      ensures order == RemoveAt(old(order), i + 1) && View() == BlockList.MergeNext(old(View()), i)
      ensures tptr == old(View())[i + 1].ptr && tptr != 0
      ensures old(Index(View(), order))[tptr] == [old(order)[i + 1]]
      ensures Index(View(), order) == old(Index(View(), order))[tptr := []]
      ensures Base() == old(Base()) && listStart == old(listStart) && nextHandle == old(nextHandle)
      ensures Repr == old(Repr)
    {
      MergeStep(nodes, order, listStart, i, Base());
      tptr := nodes[nodes[blk].next].ptr;
      nodes, order := MergeRecords(nodes, blk), RemoveAt(order, i + 1);
    }

    /** `merge_next`: record `blk` (at position `i`) absorbs its successor, whose record and index entry go. */
    method MergeNext(blk: Handle, ghost i: nat)
      requires Wf() && i + 1 < |order| && order[i] == blk
      modifies Repr
      ensures Wf() && Repr == old(Repr) && order == RemoveAt(old(order), i + 1)
      ensures View() == BlockList.MergeNext(old(View()), i) && Base() == old(Base())
      ensures listStart == old(listStart) && nextHandle == old(nextHandle)
    {
      ghost var before := Index(View(), order);
      var tptr := UnlinkNext(blk, i);
      assert AddressIndex.DropFirst(before[tptr]) == [];
      dict.Delete(tptr);
    }

    /**
     * `dict_insert` of a record the list already holds: the index lacks only
     * the entry of `h` under `key`, and gets it.
     */
    method IndexInsert(key: nat, h: Handle)
      requires Frame() && dict.Valid() && ListOk() && WellFormed(View(), Base()) && Base() + Total(View()) <= ADDRESS_LIMIT
      requires key != 0 && dict.Contents()[key] == [] && Index(View(), order) == dict.Contents()[key := [h]]
      modifies Repr
      ensures Wf() && fresh(Repr - old(Repr))
      ensures nodes == old(nodes) && order == old(order) && listStart == old(listStart)
      ensures started == old(started) && nextHandle == old(nextHandle)
    {
      assert dict.Contents()[key] + [h] == [h];
      dict.Insert(key, h);
      Repr := {this} + dict.Repr;
    }

    /**
     * `dict_delete` then `dict_insert` of a record the list has moved: the
     * index still files `h` under `oldKey` and must file it under `newKey`.
     */
    method IndexMove(oldKey: nat, newKey: nat, h: Handle)
      requires Frame() && dict.Valid() && ListOk() && WellFormed(View(), Base()) && Base() + Total(View()) <= ADDRESS_LIMIT
      requires oldKey != 0 && newKey != 0 && dict.Contents()[oldKey] == [h] && dict.Contents()[oldKey := []][newKey] == []
      requires Index(View(), order) == dict.Contents()[oldKey := []][newKey := [h]]
      modifies Repr
      ensures Wf() && fresh(Repr - old(Repr))
      ensures nodes == old(nodes) && order == old(order) && listStart == old(listStart)
      ensures started == old(started) && nextHandle == old(nextHandle)
    {
      assert AddressIndex.DropFirst(dict.Contents()[oldKey]) == [];
      dict.Delete(oldKey);
      IndexInsert(newKey, h);
    }

    /** The allocated bit of record `blk` (at position `i`) becomes `a`; nothing else changes. */
    method SetAllocAt(blk: Handle, ghost i: nat, a: bool)
      requires Wf() && i < |order| && order[i] == blk
      modifies this
      ensures Wf() && Repr == old(Repr) && order == old(order) && nodes[blk] == old(nodes[blk]).(alloc := a)
      ensures View() == SetAlloc(old(View()), i, a) && Base() == old(Base())
      ensures listStart == old(listStart) && nextHandle == old(nextHandle)
    {
      AllocStep(View(), Base(), order, i, a);
      UpdateStep(nodes, order, listStart, i, nodes[blk].(alloc := a));
      nodes := nodes[blk := nodes[blk].(alloc := a)];
    }

    /**
     * `coalesce`: the free record `blk` (at position `i`) merges with whichever
     * neighbours are free. The sentinel counts as allocated on either side.
     */
    method Coalesce(blk: Handle, ghost i: nat)
      requires Wf() && i < |order| && order[i] == blk
      requires !View()[i].alloc && AdjacentFreeOnlyAt(View(), i)
      modifies Repr
      ensures Valid() && Repr == old(Repr)
      ensures View() == BlockList.Coalesce(old(View()), i) && Base() == old(Base())
      ensures listStart == old(listStart) && nextHandle == old(nextHandle)
    {
      CoalesceNoAdjacentFree(View(), i);
      NeighbourAlloc(nodes, order, listStart, i);
      var prevAlloc := nodes[nodes[blk].prev].alloc;
      var nextAlloc := nodes[nodes[blk].next].alloc;
      if prevAlloc && nextAlloc {
      } else if prevAlloc && !nextAlloc {
        MergeNext(blk, i);
      } else if !prevAlloc && nextAlloc {
        MergeNext(nodes[blk].prev, i - 1);
      } else {
        MergeBoth(blk, i);
      }
    }

    /** The last case of `coalesce`: `blk` absorbs its successor, then its predecessor absorbs it. */
    method MergeBoth(blk: Handle, ghost i: nat)
      requires Wf() && 0 < i && i + 1 < |order| && order[i] == blk
      modifies Repr
      ensures Wf() && Repr == old(Repr)
      ensures View() == BlockList.MergeNext(BlockList.MergeNext(old(View()), i), i - 1) && Base() == old(Base())
      ensures listStart == old(listStart) && nextHandle == old(nextHandle)
    {
      MergeNext(blk, i);
      LinkedAt(nodes, order, listStart, i);
      MergeNext(nodes[blk].prev, i - 1);
    }

    /** `first_fit`: walk from the sentinel's successor and stop at the first free block large enough. */
    method FirstFitSearch(asize: nat) returns (r: Option<Handle>, ghost i: nat)
      requires Wf()
      ensures r == HandleAt(order, FirstFit(View(), asize))
      ensures r.Some? ==> FirstFit(View(), asize) == Some(i)
    {
      ghost var v := View();
      var cur := nodes[listStart].next;
      i := 0;
      while nodes[cur].size != 0
        invariant i <= |order| && cur in nodes && cur == (if i < |order| then order[i] else listStart)
        invariant FirstFitFrom(v, asize, i) == FirstFit(v, asize)
        decreases |order| - i
      {
        LinkedAt(nodes, order, listStart, i);
        if !nodes[cur].alloc && nodes[cur].size >= asize {
          return Some(cur), i;
        }
        cur := nodes[cur].next;
        i := i + 1;
      }
      return None, i;
    }

    /**
     * `best_fit`: walk the whole list keeping the smallest free block large
     * enough; a block replaces the candidate only when strictly smaller than
     * the candidate's size, which starts at `SIZE_MAX`.
     */
    method BestFitSearch(asize: nat) returns (r: Option<Handle>, ghost i: nat)
      requires Wf()
      ensures r == HandleAt(order, BestFit(View(), asize))
      ensures r.Some? ==> BestFit(View(), asize) == Some(i)
    {
      ghost var v := View();
      var cur := nodes[listStart].next;
      var bestSize := SIZE_MAX;
      r := None;
      ghost var best: Option<nat> := None;
      ghost var idx := 0;
      i := 0;
      while nodes[cur].size != 0
        invariant idx <= |order| && cur in nodes && cur == (if idx < |order| then order[idx] else listStart)
        invariant best.Some? ==> best.value < idx
        invariant BestFitFrom(v, asize, idx, best) == BestFit(v, asize)
        invariant r == HandleAt(order, best) && (best.Some? ==> i == best.value)
        invariant bestSize == if best.None? then SIZE_MAX else v[best.value].size
        decreases |order| - idx
      {
        LinkedAt(nodes, order, listStart, idx);
        SizeBelowMax(v, Base(), idx);
        var curSize := nodes[cur].size;
        if !nodes[cur].alloc && curSize >= asize {
          if curSize < bestSize {
            bestSize := curSize;
            r := Some(cur);
            best, i := Some(idx), idx;
          }
        }
        cur := nodes[cur].next;
        idx := idx + 1;
      }
    }

    /** `find_fit`: the search BEST_FIT selects. */
    method FindFitSearch(asize: nat) returns (r: Option<Handle>, ghost i: nat)
      requires Wf()
      ensures r == HandleAt(order, FindFit(View(), asize, bestFit))
      ensures r.Some? ==> FindFit(View(), asize, bestFit) == Some(i)
    {
      if bestFit {
        r, i := BestFitSearch(asize);
      } else {
        r, i := FirstFitSearch(asize);
      }
    }

    /** The list surgery of `place` when it splits: record `blk` is allocated at `asize` bytes and a new free record `nb` takes the rest. */
    method SplitPlaced(blk: Handle, ghost i: nat, asize: nat) returns (nb: Handle)
      requires ListOk() && WellFormed(View(), Base()) && i < |order| && order[i] == blk && 0 < asize < View()[i].size
      modifies this
      ensures ListOk() && WellFormed(View(), Base()) && Total(View()) == old(Total(View()))
      ensures order == InsertAt(old(order), i + 1, nb) && View() == Placed(old(View()), i, asize)
      ensures nb in nodes && nodes[nb].ptr == old(View())[i].ptr + asize && nodes[nb].ptr != 0
      ensures blk in nodes && nodes[blk].ptr == old(View())[i].ptr
      ensures old(Index(View(), order))[nodes[nb].ptr] == []
      ensures Index(View(), order) == old(Index(View(), order))[nodes[nb].ptr := [nb]]
      ensures Base() == old(Base()) && listStart == old(listStart) && Repr == old(Repr)
    {
      ghost var v := View();
      nb := nextHandle;
      PlaceRecordsStep(nodes, order, listStart, v, i, asize, nb);
      PlaceStep(v, Base(), order, i, asize, nb);
      nodes, order := SplitRecords(nodes, blk, nb, asize, true), InsertAt(order, i + 1, nb);
      nextHandle := nextHandle + 1;
    }

    /**
     * `place`: the free record `blk` (at position `i`), large enough for
     * `asize`, is allocated; what is left beyond `asize` becomes a new free
     * record, filed in the index under its address.
     */
    method Place(blk: Handle, ghost i: nat, asize: nat)
      requires Valid() && i < |order| && order[i] == blk && asize > 0 && Fits(View()[i], asize)
      modifies Repr
      ensures Valid() && fresh(Repr - old(Repr))
      ensures View() == Placed(old(View()), i, asize) && Base() == old(Base()) && listStart == old(listStart)
    {
      PlaceNoAdjacentFree(View(), i, asize);
      if nodes[blk].size > asize {
        var nb := SplitPlaced(blk, i, asize);
        IndexInsert(nodes[nb].ptr, nb);
      } else {
        SetAllocAt(blk, i, true);
      }
    }

    /** The list surgery of `shrink_blk`: a new free record `nb` takes what record `blk` (at position `i`) has beyond `asize`. */
    method SplitShrunk(blk: Handle, ghost i: nat, asize: nat) returns (nb: Handle)
      requires ListOk() && WellFormed(View(), Base()) && i < |order| && order[i] == blk && 0 < asize < View()[i].size
      modifies this
      ensures ListOk() && WellFormed(View(), Base()) && Total(View()) == old(Total(View()))
      ensures order == InsertAt(old(order), i + 1, nb) && View() == Split(old(View()), i, asize)
      ensures nb in nodes && nodes[nb].ptr == old(View())[i].ptr + asize && nodes[nb].ptr != 0
      ensures old(Index(View(), order))[nodes[nb].ptr] == []
      ensures Index(View(), order) == old(Index(View(), order))[nodes[nb].ptr := [nb]]
      ensures Base() == old(Base()) && listStart == old(listStart) && Repr == old(Repr)
    {
      ghost var v := View();
      nb := nextHandle;
      ShrinkRecordsStep(nodes, order, listStart, v, i, asize, nb);
      ShrinkStep(v, Base(), order, i, asize, nb);
      nodes, order := SplitRecords(nodes, blk, nb, asize, nodes[blk].alloc), InsertAt(order, i + 1, nb);
      nextHandle := nextHandle + 1;
    }

    /** `shrink_blk`'s split: a new free record takes what record `blk` (at position `i`) has beyond `asize` and is filed in the index. */
    method ShrinkSplit(blk: Handle, ghost i: nat, asize: nat) returns (nb: Handle)
      requires Wf() && i < |order| && order[i] == blk && 0 < asize < View()[i].size
      modifies Repr
      ensures Wf() && fresh(Repr - old(Repr)) && i + 1 < |order| && order[i + 1] == nb
      ensures View() == Split(old(View()), i, asize) && Base() == old(Base()) && listStart == old(listStart)
    {
      nb := SplitShrunk(blk, i, asize);
      IndexInsert(nodes[nb].ptr, nb);
    }

    /**
     * `shrink_blk`: when record `blk` (at position `i`) is larger than
     * `asize`, the rest becomes a new free record, filed in the index and
     * coalesced with its right neighbour.
     */
    method ShrinkBlk(blk: Handle, ghost i: nat, asize: nat)
      requires Valid() && i < |order| && order[i] == blk && asize > 0
      modifies Repr
      ensures Valid() && fresh(Repr - old(Repr))
      ensures View() == Shrunk(old(View()), i, asize) && Base() == old(Base()) && listStart == old(listStart)
    {
      if nodes[blk].size > asize {
        SplitTailAdjacentFreeOnlyAt(View(), i, asize);
        var nb := ShrinkSplit(blk, i, asize);
        Coalesce(nb, i + 1);
      }
    }

    /**
     * The list surgery of `extend_blk` when the successor keeps some bytes:
     * record `blk` (at position `i`) grows to `asize` and its successor `t`
     * shrinks and moves up; `t` leaves the index under `oldKey` and belongs
     * under `newKey`.
     */
    method MoveBoundaryRecords(blk: Handle, ghost i: nat, asize: nat) returns (oldKey: nat, newKey: nat, t: Handle)
      requires ListOk() && WellFormed(View(), Base()) && i + 1 < |order| && order[i] == blk
      requires View()[i].size < asize < View()[i].size + View()[i + 1].size
      modifies this
      ensures ListOk() && WellFormed(View(), Base()) && Total(View()) == old(Total(View()))
      ensures order == old(order) && View() == MoveBoundary(old(View()), i, asize)
      ensures oldKey != 0 && newKey != 0 && t == order[i + 1]
      ensures old(Index(View(), order))[oldKey] == [t]
      ensures old(Index(View(), order))[oldKey := []][newKey] == []
      ensures Index(View(), order) == old(Index(View(), order))[oldKey := []][newKey := [t]]
      ensures Base() == old(Base()) && listStart == old(listStart) && nextHandle == old(nextHandle) && Repr == old(Repr)
    {
      ghost var v := View();
      MoveRecordsStep(nodes, order, listStart, v, i, asize, Base());
      t := nodes[blk].next;
      oldKey := nodes[t].ptr;
      newKey := nodes[blk].ptr + asize;
      nodes := MoveRecords(nodes, blk, asize);
    }

    /** `extend_blk` when the successor keeps some bytes: the boundary moves and the successor is refiled under its new address. */
    method ExtendMove(blk: Handle, ghost i: nat, asize: nat)
      requires Wf() && i + 1 < |order| && order[i] == blk
      requires View()[i].size < asize < View()[i].size + View()[i + 1].size
      modifies Repr
      ensures Wf() && fresh(Repr - old(Repr))
      ensures View() == MoveBoundary(old(View()), i, asize) && Base() == old(Base()) && listStart == old(listStart)
    {
      var oldKey, newKey, t := MoveBoundaryRecords(blk, i, asize);
      IndexMove(oldKey, newKey, t);
    }

    /**
     * `extend_blk`: record `blk` (at position `i`) grows to `asize` into its
     * free successor, which keeps what is left under its new address or, when
     * nothing is left, is merged away.
     */
    method ExtendBlk(blk: Handle, ghost i: nat, asize: nat)
      requires Valid() && i + 1 < |order| && order[i] == blk && NextFree(View(), i)
      requires View()[i].size < asize <= View()[i].size + View()[i + 1].size
      modifies Repr
      ensures Valid() && fresh(Repr - old(Repr))
      ensures View() == Extended(old(View()), i, asize) && Base() == old(Base()) && listStart == old(listStart)
    {
      LinkedAt(nodes, order, listStart, i);
      var next := nodes[blk].next;
      if nodes[blk].size + nodes[next].size > asize {
        MoveBoundaryNoAdjacentFree(View(), i, asize);
        ExtendMove(blk, i, asize);
      } else {
        MergeNextNoAdjacentFree(View(), i);
        MergeNext(blk, i);
      }
    }

    /** The list surgery of `mm_sbrk`: a new free record `nb` of `incr` bytes is linked in before the sentinel. */
    method LinkLast(incr: nat) returns (nb: Handle)
      requires ListOk() && WellFormed(View(), Base()) && incr > 0
      modifies this
      ensures ListOk() && order == old(order) + [nb] && View() == Append(old(View()), Base(), incr)
      ensures nb in nodes && nodes[nb].ptr == Base() + old(Total(View())) && nodes[nb].ptr != 0
      ensures Base() == old(Base()) && listStart == old(listStart) && Repr == old(Repr)
    {
      ghost var v := View();
      nb := nextHandle;
      AppendRecordsStep(nodes, order, listStart, v, incr, nb, Base());
      InsertAtLast(order, nb);
      nodes, order := AppendRecords(nodes, listStart, nb, incr), InsertAt(order, |order|, nb);
      nextHandle := nextHandle + 1;
    }

    /** `mm_sbrk`'s new record: `incr` free bytes linked in before the sentinel and filed in the index. */
    method SbrkLink(incr: nat) returns (nb: Handle)
      requires Wf() && incr > 0 && Base() + Total(View()) + incr <= ADDRESS_LIMIT
      modifies Repr
      ensures Wf() && fresh(Repr - old(Repr)) && |order| > 0 && order[|order| - 1] == nb
      ensures View() == Append(old(View()), old(Base()), incr) && Base() == old(Base()) && listStart == old(listStart)
    {
      ghost var v, o, base, c := View(), order, Base(), dict.Contents();
      nb := LinkLast(incr);
      var key := nodes[nb].ptr;
      assert c == dict.Contents();
      SbrkIndexStep(c, v, o, base, incr, nb, key, View(), order);
      AppendWellFormed(v, base, incr);
      IndexInsert(key, nb);
    }

    /**
     * `mm_sbrk`: the device grew its heap by `incr` bytes; a free record for
     * them is filed in the index, linked at the end and coalesced.
     */
    method Sbrk(incr: nat)
      requires Valid() && 0 < incr < INCR_LIMIT && Base() + Total(View()) + incr <= ADDRESS_LIMIT
      modifies Repr
      ensures Valid() && fresh(Repr - old(Repr))
      ensures View() == Grown(old(View()), old(Base()), incr) && Base() == old(Base()) && listStart == old(listStart)
    {
      AppendAdjacentFreeOnlyAt(View(), Base(), incr);
      var nb := SbrkLink(incr);
      Coalesce(nb, |order| - 1);
    }

    /** The loop of `mm_heap_reset`: walk from the sentinel's successor and free every record until the sentinel. */
    method FreeRecords()
      requires ListOk() && PositiveSizes(View())
      modifies this
      ensures nodes == map[listStart := old(nodes[listStart])]
      ensures order == old(order) && started && listStart == old(listStart) && nextHandle == old(nextHandle) && Repr == old(Repr)
    {
      ghost var n0, o0 := nodes, order;
      assert nodes == Without(n0, o0, 0);
      var cur := nodes[listStart].next;
      ghost var idx := 0;
      if o0 != [] {
        assert ViewOf(n0, o0)[0].size > 0;
      }
      while nodes[cur].size != 0
        invariant idx <= |o0| && cur == (if idx < |o0| then o0[idx] else listStart)
        invariant nodes == Without(n0, o0, idx) && cur in nodes && nodes[cur] == n0[cur]
        invariant idx < |o0| ==> n0[cur].size > 0
        invariant listStart == old(listStart) && nextHandle == old(nextHandle) && Repr == old(Repr)
        invariant order == o0 && started
        decreases |o0| - idx
      {
        LinkedAt(n0, o0, listStart, idx);
        WithoutStep(n0, o0, listStart, idx);
        var temp := cur;
        cur := nodes[cur].next;
        nodes := nodes - {temp};
        idx := idx + 1;
        if idx < |o0| {
          assert ViewOf(n0, o0)[idx].size > 0;
          WithoutStep(n0, o0, listStart, idx);
        } else {
          WithoutAll(n0, o0, listStart);
        }
      }
      WithoutAll(n0, o0, listStart);
    }

    /**
     * `mm_heap_reset`: every block record is freed and the sentinel closes on
     * itself. The index is left as it is; `mm_init` recreates it first.
     */
    method HeapReset()
      requires ListOk() && PositiveSizes(View())
      modifies this
      ensures ListOk() && order == [] && View() == [] && Base() == old(Base())
      ensures nodes == map[listStart := old(nodes[listStart]).(next := listStart, prev := listStart)]
      ensures listStart == old(listStart) && nextHandle == old(nextHandle) && Repr == old(Repr)
    {
      FreeRecords();
      nodes := nodes[listStart := nodes[listStart].(next := listStart, prev := listStart)];
      order := [];
    }

    /**
     * `mm_init`: the index is recreated; a list that exists is reset, keeping
     * its sentinel and so the sentinel's address, whatever `ptr` says; the
     * first call makes the sentinel at `ptr`.
     */
    method Init(ptr: nat)
      requires Frame() && (started ==> Wf()) && (started || 0 < ptr < ADDRESS_LIMIT)
      modifies Repr
      ensures Valid() && fresh(Repr - old(Repr)) && order == []
      ensures View() == [] && Base() == if old(started) then old(Base()) else ptr
    {
      dict.Create();
      if started {
        HeapReset();
      } else {
        NewSentinel(ptr);
      }
      Repr := {this} + dict.Repr;
      EmptyIndex(dict.Contents());
    }

    /** The first `mm_init`: a sentinel record at `ptr`, closed on itself, size 0 and allocated. */
    method NewSentinel(ptr: nat)
      requires !started && 0 < ptr
      modifies this
      ensures ListOk() && order == [] && View() == [] && Base() == ptr && Repr == old(Repr)
    {
      listStart := nextHandle;
      nextHandle := nextHandle + 1;
      nodes := map[listStart := Node(listStart, listStart, ptr, 0, true)];
      order := [];
      started := true;
    }

    /**
     * `mm_malloc`: a zero size returns 0; otherwise the adjusted size is
     * placed in the block the fit policy finds and its address returned, or 0
     * when nothing fits (the device then grows the heap and asks again).
     */
    method Malloc(size: nat) returns (p: nat)
      requires Valid()
      modifies Repr
      ensures Valid() && fresh(Repr - old(Repr))
      ensures (View(), p) == MallocResult(old(View()), size, bestFit) && Base() == old(Base())
    {
      if size == 0 {
        return 0;
      }
      var asize := if size <= DSIZE then DSIZE else DSIZE * ((size + DSIZE + (DSIZE - 1)) / DSIZE);
      assert asize == MallocSize(size);
      var blk, i := FindFitSearch(asize);
      if blk.Some? {
        p := PlaceFound(blk.value, i, asize);
      } else {
        p := 0;
      }
    }

    /** The hit branch of `mm_malloc`: the block the fit policy found is placed and its address returned. */
    method PlaceFound(blk: Handle, ghost i: nat, asize: nat) returns (p: nat)
      requires Valid() && asize > 0 && FindFit(View(), asize, bestFit) == Some(i) && i < |order| && order[i] == blk
      modifies Repr
      ensures Valid() && fresh(Repr - old(Repr))
      ensures View() == Placed(old(View()), i, asize) && p == old(View())[i].ptr && Base() == old(Base())
    {
      FindFitSpec(View(), asize, bestFit);
      LinkedAt(nodes, order, listStart, i);
      p := nodes[blk].ptr;
      Place(blk, i, asize);
    }

    /**
     * `mm_free`: the block at `ptr`, if the search finds one, is marked free
     * and coalesced; an unknown address changes nothing.
     */
    method Free(ptr: nat)
      requires Valid()
      modifies Repr
      ensures Valid() && fresh(Repr - old(Repr))
      ensures View() == Freed(old(View()), ptr) && Base() == old(Base())
    {
      var r := BlkSearch(ptr);
      if r.Some? {
        ghost var i := Find(View(), ptr).value;
        FreeAdjacentFreeOnlyAt(View(), i);
        SetAllocAt(r.value, i, false);
        Coalesce(r.value, i);
      }
    }

    /**
     * `mm_realloc`, with the not-found guard taking effect: an unknown
     * address returns 0 and changes nothing. A block smaller than the
     * adjusted size grows into a free successor with room enough, or else is
     * left alone and 0 returned; a larger one shrinks; the address is returned
     * whenever the block now has the size.
     */
    method Realloc(ptr: nat, size: nat) returns (p: nat)
      requires Valid()
      modifies Repr
      ensures Valid() && fresh(Repr - old(Repr))
      ensures (View(), p) == ReallocResult(old(View()), ptr, size) && Base() == old(Base())
    {
      var r := BlkSearch(ptr);
      if r.None? {
        return 0;
      }
      ghost var i := Find(View(), ptr).value;
      p := ResizeFound(r.value, i, ptr, size);
    }

    /** `mm_realloc` once the search has found record `blk`, at position `i`, for `ptr`. */
    method ResizeFound(blk: Handle, ghost i: nat, ptr: nat, size: nat) returns (p: nat)
      requires Valid() && i < |order| && order[i] == blk
      modifies Repr
      ensures Valid() && fresh(Repr - old(Repr))
      ensures (View(), p) == ReallocFound(old(View()), i, ptr, size) && Base() == old(Base())
    {
      LinkedAt(nodes, order, listStart, i);
      var blkSize := nodes[blk].size;
      var asize := if size < DSIZE then DSIZE else DSIZE * ((size + (DSIZE - 1)) / DSIZE);
      assert asize == ReallocSize(size);
      if blkSize < asize {
        var grown := TryExtend(blk, i, asize);
        p := if grown then ptr else 0;
      } else if blkSize > asize {
        ShrinkBlk(blk, i, asize);
        p := ptr;
      } else {
        p := ptr;
      }
    }

    /**
     * The growing branch of `mm_realloc`: record `blk` (at position `i`)
     * extends into its successor when that is free and the two together hold
     * `asize`; otherwise nothing changes.
     */
    method TryExtend(blk: Handle, ghost i: nat, asize: nat) returns (grown: bool)
      requires Valid() && i < |order| && order[i] == blk && View()[i].size < asize
      modifies Repr
      ensures Valid() && fresh(Repr - old(Repr)) && Base() == old(Base())
      ensures grown == (NextFree(old(View()), i) && old(View())[i + 1].size + old(View())[i].size >= asize)
      ensures View() == if grown then Extended(old(View()), i, asize) else old(View())
    {
      NeighbourAlloc(nodes, order, listStart, i);
      var next := nodes[blk].next;
      grown := !nodes[next].alloc && nodes[next].size + nodes[blk].size >= asize;
      if grown {
        ExtendBlk(blk, i, asize);
      }
    }
  }
}

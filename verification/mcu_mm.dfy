/**
 * The device's allocator: a client of the host. It checks the host's
 * handshake, sets up the break, and then forwards each `malloc`, `free` and
 * `realloc` as a request, returning the host's answer. When the host has no
 * room for a `malloc`, the device grows its break, which the host mirrors,
 * and asks once more.
 */
module DeviceClient {
  import opened Protocol
  import opened BlockList
  import HostAllocator
  import HostProperties
  import DeviceLink
  import DeviceBreak

  /** A word, the unit in which `extend_heap` counts. */
  const WSIZE: nat := 4
  /** The smallest growth of the break `mm_malloc` asks for. */
  const CHUNKSIZE: nat := 4096

  function Max(x: nat, y: nat): (r: nat)
    ensures r >= x && r >= y && (r == x || r == y)
  {
    if x > y then x else y
  }

  /** `extend_heap`'s byte count: the words rounded up to an even number, so that the growth keeps 8-byte alignment. */
  function ExtendBytes(words: nat): (r: nat)
    ensures r % 8 == 0 && words * WSIZE <= r <= words * WSIZE + WSIZE
    ensures words % 2 == 0 ==> r == words * WSIZE
  {
    if words % 2 == 1 then (words + 1) * WSIZE else words * WSIZE
  }

  /**
   * `mm_malloc`'s adjusted size as written: one word of overhead, rounded
   * to whole words, with a one-word minimum.
   */
  function GrowthSizeAsWritten(size: nat): (r: nat)
    ensures r % WSIZE == 0 && r >= WSIZE
    ensures size > WSIZE ==> size + WSIZE <= r < size + 2 * WSIZE
    ensures size <= WSIZE ==> r == WSIZE
  {
    if size <= WSIZE then WSIZE else WSIZE * ((size + WSIZE + (WSIZE - 1)) / WSIZE)
  }

  /** The growth of the break after a refused `malloc`, as written: the adjusted size or a chunk, whichever is larger, in even words. */
  function GrowBytesAsWritten(size: nat): (r: nat)
    ensures r % 8 == 0 && r >= CHUNKSIZE && r >= GrowthSizeAsWritten(size)
    ensures r <= Max(GrowthSizeAsWritten(size), CHUNKSIZE) + WSIZE
  {
    ExtendBytes(Max(GrowthSizeAsWritten(size), CHUNKSIZE) / WSIZE)
  }

  /**
   * The growth of the break after a refused `malloc`, sized by the adjusted
   * size the host's `mm_malloc` looks for: 8 bytes of overhead, rounded to
   * 8 bytes. It is never less than a chunk, never less than what the host
   * needs, and never more than either requires.
   */
  function GrowBytes(size: nat): (r: nat)
    ensures r % 8 == 0 && r >= CHUNKSIZE && r >= HostAllocator.MallocSize(size)
    ensures r == CHUNKSIZE || r == HostAllocator.MallocSize(size)
  {
    ExtendBytes(Max(HostAllocator.MallocSize(size), CHUNKSIZE) / WSIZE)
  }

  /**
   * After the host refuses a `malloc` and then takes a growth of
   * `GrowBytes(size)` bytes, its `mm_malloc` of the same size succeeds,
   * whatever the heap held and whichever fit policy it uses: the retry
   * cannot be refused.
   */
  lemma {:induction false} RetryFits(v: seq<Block>, base: nat, size: nat, bestFit: bool)
    requires WellFormed(v, base) && NoAdjacentFree(v) && base > 0 && size > 0
    ensures HostAllocator.MallocResult(HostAllocator.Grown(v, base, GrowBytes(size)), size, bestFit).1 != 0
  {
    RetryFitsWith(v, base, size, GrowBytes(size), bestFit);
  }

  /** A growth of at least the host's adjusted size makes the retried `malloc` succeed. */
  lemma {:induction false} RetryFitsWith(v: seq<Block>, base: nat, size: nat, g: nat, bestFit: bool)
    requires WellFormed(v, base) && NoAdjacentFree(v) && base > 0 && size > 0
    requires g >= HostAllocator.MallocSize(size)
    ensures HostAllocator.MallocResult(HostAllocator.Grown(v, base, g), size, bestFit).1 != 0
  {
    var w := HostAllocator.Grown(v, base, g);
    HostProperties.GrownSpec(v, base, g);
    HostProperties.MallocSpec(w, base, size, bestFit);
    assert Fits(w[|w| - 1], HostAllocator.MallocSize(size));
  }

  /**
   * The growth as written covers the host's adjusted size exactly when the
   * request is at most 4088 bytes or leaves a remainder of 0 or of 5 to 7
   * modulo 8; for the other sizes it falls 8 bytes short.
   */
  lemma {:induction false} GrowCoversAsWritten(size: nat)
    ensures GrowBytesAsWritten(size) >= HostAllocator.MallocSize(size)
      <==> size <= CHUNKSIZE - HostAllocator.DSIZE || size % 8 == 0 || size % 8 >= 5
    ensures GrowBytesAsWritten(size) < HostAllocator.MallocSize(size)
      ==> GrowBytesAsWritten(size) + 8 == HostAllocator.MallocSize(size)
  {
    var q, m := size / 8, size % 8;
    assert size == 8 * q + m;
    if size > HostAllocator.DSIZE {
      var k := (size + WSIZE + (WSIZE - 1)) / WSIZE;
      assert GrowthSizeAsWritten(size) == WSIZE * k;
      assert k == 2 * q + (if m == 0 then 1 else if m <= 4 then 2 else 3);
      assert HostAllocator.MallocSize(size) == 8 * q + (if m == 0 then 8 else 16);
      var w := Max(WSIZE * k, CHUNKSIZE) / WSIZE;
      assert w == Max(k, 1024);
      if k >= 1024 {
        assert GrowBytesAsWritten(size) == 8 * q + (if m <= 4 then 8 else 16);
      } else {
        assert GrowBytesAsWritten(size) == CHUNKSIZE;
      }
    } else {
      assert GrowBytesAsWritten(size) == CHUNKSIZE;
    }
  }

  /**
   * The retry as written succeeds, whatever the heap held, for every size
   * whose growth covers the host's adjusted size.
   */
  lemma {:induction false} RetryFitsAsWritten(v: seq<Block>, base: nat, size: nat, bestFit: bool)
    requires WellFormed(v, base) && NoAdjacentFree(v) && base > 0 && size > 0
    requires size <= CHUNKSIZE - HostAllocator.DSIZE || size % 8 == 0 || size % 8 >= 5
    ensures HostAllocator.MallocResult(HostAllocator.Grown(v, base, GrowBytesAsWritten(size)), size, bestFit).1 != 0
  {
    GrowCoversAsWritten(size);
    RetryFitsWith(v, base, size, GrowBytesAsWritten(size), bestFit);
  }

  /**
   * With the growth as written the retry can be refused: when the heap is
   * one allocated 4096-byte block, a `malloc(4097)` makes the device grow
   * by 4104 bytes, but the host needs a free block of 4112.
   */
  lemma {:induction false} RetryRefusedAsWritten(bestFit: bool)
    ensures GrowBytesAsWritten(4097) == 4104 && HostAllocator.MallocSize(4097) == 4112
    ensures var v := [Block(8, 4096, true)];
      HostAllocator.MallocResult(v, 4097, bestFit).1 == 0 &&
      HostAllocator.MallocResult(HostAllocator.Grown(v, 8, GrowBytesAsWritten(4097)), 4097, bestFit).1 == 0
  {
    var v := [Block(8, 4096, true)];
    assert Total(v[1..]) == 0;
    var x := Append(v, 8, 4104);
    assert x == [Block(8, 4096, true), Block(4104, 4104, false)];
    assert HostAllocator.Grown(v, 8, 4104) == x;
    FindFitSpec(v, 4112, bestFit);
    FindFitSpec(x, 4112, bestFit);
  }

  /** What one call of the client does on the link and to the break: the requests it sends, its result, the bytes the break grew and the replies it read. */
  datatype Run = Run(sent: seq<Request>, result: nat, grown: nat, used: nat)

  /**
   * `mm_malloc` against replies `replies(at)`, `replies(at + 1)`, … with the
   * break at `brk` and the stack pointer at `stackTop`: a zero size sends
   * nothing; a nonzero first reply is the result; a zero one grows the
   * break by the growth as written (`GrowBytesAsWritten`) and asks again,
   * unless the growth would reach past the stack, in which case the result
   * is 0.
   */
  function MallocRun(size: Word, brk: nat, stackTop: nat, replies: nat -> Word, at: nat): Run
    requires GrowBytesAsWritten(size) < WORD_LIMIT
  {
    if size == 0 then Run([], 0, 0, 0)
    else if replies(at) != 0 then Run([Encode(Malloc(size))], replies(at), 0, 1)
    else if brk + GrowBytesAsWritten(size) > stackTop then Run([Encode(Malloc(size))], 0, 0, 1)
    else Run([Encode(Malloc(size)), Encode(Grow(GrowBytesAsWritten(size))), Encode(Malloc(size))], replies(at + 1), GrowBytesAsWritten(size), 2)
  }

  /**
   * A `malloc` sends nothing exactly when the size is zero, and otherwise
   * asks for the size at most twice, the second time only after the host
   * refused and the break grew by the growth as written, past no stack.
   * The result is 0 or the host's answer to the last request; a nonzero
   * first answer is the result. The host reads every request as the
   * device means it.
   */
  lemma {:induction false} MallocRunSpec(size: Word, brk: nat, stackTop: nat, replies: nat -> Word, at: nat)
    requires GrowBytesAsWritten(size) < WORD_LIMIT
    ensures var r := MallocRun(size, brk, stackTop, replies, at);
      && (r.sent == [] <==> size == 0)
      && (size > 0 && replies(at) != 0 ==> r.result == replies(at) && r.grown == 0)
      && (r.result == 0 || (r.used > 0 && r.result == replies(at + r.used - 1)))
      && (r.grown > 0 ==> replies(at) == 0 && r.grown == GrowBytesAsWritten(size) && brk + r.grown <= stackTop)
      && (r.grown == 0 <==> |r.sent| <= 1)
      && |r.sent| == r.used + (if r.grown > 0 then 1 else 0)
      && forall m :: m in r.sent ==> Decode(m) == Malloc(size) || (r.grown > 0 && Decode(m) == Grow(r.grown))
  {
    DecodeEncode(Malloc(size));
    DecodeEncode(Grow(GrowBytesAsWritten(size)));
  }

  /**
   * `mm_realloc` against the same replies: a null pointer is a `malloc`; a
   * zero size frees the block and answers the pointer; otherwise the host
   * is asked, and an answer other than the pointer makes the device
   * `malloc` afresh and free the old block.
   */
  function ReallocRun(ptr: Word, size: Word, brk: nat, stackTop: nat, replies: nat -> Word, at: nat): Run
    requires GrowBytesAsWritten(size) < WORD_LIMIT
  {
    if ptr == 0 then MallocRun(size, brk, stackTop, replies, at)
    else if size == 0 then Run([Encode(Free(ptr))], ptr, 0, 0)
    else if replies(at) == ptr then Run([Encode(Realloc(ptr, size))], ptr, 0, 1)
    else
      var m := MallocRun(size, brk, stackTop, replies, at + 1);
      Run([Encode(Realloc(ptr, size))] + m.sent + [Encode(Free(ptr))], m.result, m.grown, 1 + m.used)
  }

  /**
   * A `realloc` of a block frees it exactly when the size is zero or the
   * host moved it, and then as its last request. The result is the pointer
   * itself when the host kept the block in place or the size is zero, and
   * otherwise the result of a fresh `malloc`.
   */
  lemma {:induction false} ReallocRunSpec(ptr: Word, size: Word, brk: nat, stackTop: nat, replies: nat -> Word, at: nat)
    requires GrowBytesAsWritten(size) < WORD_LIMIT
    ensures var r := ReallocRun(ptr, size, brk, stackTop, replies, at);
      && (ptr != 0 ==> (|r.sent| > 0 && r.sent[|r.sent| - 1] == Encode(Free(ptr)) <==> size == 0 || replies(at) != ptr))
      && (ptr != 0 && (size == 0 || replies(at) == ptr) ==> r.result == ptr && r.grown == 0)
      && (ptr != 0 && size > 0 && replies(at) != ptr ==> r.result == MallocRun(size, brk, stackTop, replies, at + 1).result)
      && (ptr != 0 && size > 0 ==> r.sent[0] == Encode(Realloc(ptr, size)))
  {
    if ptr != 0 && size > 0 && replies(at) != ptr {
      var m := MallocRun(size, brk, stackTop, replies, at + 1);
      MallocRunSpec(size, brk, stackTop, replies, at + 1);
      assert Encode(Free(ptr)) !in m.sent by {
        DecodeEncode(Free(ptr));
        DecodeEncode(Malloc(size));
      }
    }
    if ptr != 0 && size > 0 && replies(at) == ptr {
      DecodeEncode(Free(ptr));
      DecodeEncode(Realloc(ptr, size));
    }
  }

  /** The device's allocator state: the break and the link to the host. */
  class Client {
    const mem: DeviceBreak.Break
    const link: DeviceLink.Link

    /** A client over a fresh break and the given link. */
    constructor (link: DeviceLink.Link)
      ensures this.link == link && fresh(mem) && mem.Valid() && mem.brk == 0
    {
      this.link := link;
      mem := new DeviceBreak.Break();
    }

    /**
     * `extend_heap`: the break grows by `ExtendBytes(words)`; the result
     * tells whether `mem_sbrk` succeeded.
     */
    method ExtendHeap(words: nat, stackTop: Word) returns (ok: bool)
      requires mem.Valid() && ExtendBytes(words) < WORD_LIMIT
      modifies mem, link
      ensures mem.Valid() && mem.startBrk == old(mem.startBrk) && link.received == old(link.received)
      ensures ok <==> words == 0 || old(mem.brk) + ExtendBytes(words) <= stackTop
      ensures mem.brk == old(mem.brk) + if ok then ExtendBytes(words) else 0
      ensures link.sent == old(link.sent) + if ok && words > 0 then [Encode(Grow(ExtendBytes(words)))] else []
    {
      var r := mem.Sbrk(ExtendBytes(words), stackTop, link);
      ok := r.Some?;
    }

    /**
     * `mm_init`: the host's first word must be the handshake 1. Then the
     * break is set up at `sbrkStart` and the heap grows by a chunk, and the
     * result is true; otherwise the device halts, here the result false,
     * with nothing sent.
     */
    method Init(sbrkStart: nat, stackTop: Word) returns (ok: bool)
      requires DeviceBreak.Align(sbrkStart) < WORD_LIMIT
      modifies mem, link
      ensures ok <==> link.replies(old(link.received)) == 1
      ensures link.received == old(link.received) + 1
      ensures !ok ==> link.sent == old(link.sent) && mem.startBrk == old(mem.startBrk) && mem.brk == old(mem.brk)
      ensures ok ==> mem.Valid() && mem.startBrk == DeviceBreak.Align(sbrkStart)
      ensures ok ==> var grew := mem.startBrk + CHUNKSIZE <= stackTop;
        && mem.brk == mem.startBrk + (if grew then CHUNKSIZE else 0)
        && link.sent == old(link.sent) + [Encode(SetOrigin(mem.startBrk))] + (if grew then [Encode(Grow(CHUNKSIZE))] else [])
    {
      var w := link.Receive();
      if w == 1 {
        mem.Init(sbrkStart, link);
        var _ := ExtendHeap(CHUNKSIZE / WSIZE, stackTop);
        ok := true;
      } else {
        ok := false;
      }
    }

    /** `mm_malloc`: the run `MallocRun` describes, against the replies still unread. */
    method Malloc(size: Word, stackTop: Word) returns (p: nat)
      requires mem.Valid() && GrowBytesAsWritten(size) < WORD_LIMIT
      modifies mem, link
      ensures mem.Valid() && mem.startBrk == old(mem.startBrk)
      ensures var r := MallocRun(size, old(mem.brk), stackTop, link.replies, old(link.received));
        && p == r.result && mem.brk == old(mem.brk) + r.grown
        && link.sent == old(link.sent) + r.sent && link.received == old(link.received) + r.used
    {
      if size == 0 {
        return 0;
      }
      link.Send(Encode(Command.Malloc(size)));
      p := link.Receive();
      if p == 0 {
        var ok := ExtendHeap(Max(GrowthSizeAsWritten(size), CHUNKSIZE) / WSIZE, stackTop);
        if ok {
          link.Send(Encode(Command.Malloc(size)));
          p := link.Receive();
        }
      }
    }

    /** `mm_free`: the request goes out and no reply is read. */
    method Free(ptr: Word)
      modifies link
      ensures link.sent == old(link.sent) + [Encode(Command.Free(ptr))] && link.received == old(link.received)
    {
      link.Send(Encode(Command.Free(ptr)));
    }

    /** `mm_realloc`: the run `ReallocRun` describes; the copy of the old contents is not modelled. */
    method Realloc(ptr: Word, size: Word, stackTop: Word) returns (p: nat)
      requires mem.Valid() && GrowBytesAsWritten(size) < WORD_LIMIT
      modifies mem, link
      ensures mem.Valid() && mem.startBrk == old(mem.startBrk)
      ensures var r := ReallocRun(ptr, size, old(mem.brk), stackTop, link.replies, old(link.received));
        && p == r.result && mem.brk == old(mem.brk) + r.grown
        && link.sent == old(link.sent) + r.sent && link.received == old(link.received) + r.used
    {
      if ptr == 0 {
        p := Malloc(size, stackTop);
        return;
      }
      if size == 0 {
        Free(ptr);
        return ptr;
      }
      link.Send(Encode(Command.Realloc(ptr, size)));
      var response := link.Receive();
      if response == ptr {
        return response;
      }
      p := Malloc(size, stackTop);
      Free(ptr);
    }

    /** `mm_finish`: the request that ends the session. */
    method Finish()
      modifies link
      ensures link.sent == old(link.sent) + [Encode(End)] && link.received == old(link.received)
      ensures Decode(link.sent[|link.sent| - 1]) == End
    {
      link.Send(Encode(End));
    }
  }
}

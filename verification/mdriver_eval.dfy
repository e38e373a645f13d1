/**
 * `eval_mm_valid`: the driver replays a trace against the allocator under
 * test and checks every block it gets back. The allocator's answers are a
 * parameter: for each request, the address returned (0 for NULL), for a
 * reallocation the bytes found at the start of the new block, and the heap
 * bounds at that moment.
 */
module ValidityCheck {
  import opened MallocRanges
  import opened TraceFile

  /**
   * The allocator's answer to one request, with what `mem_heap_lo()` and
   * `mem_heap_hi()` give when `add_range` checks it: the device heap can
   * grow during the replay, so each request is checked against the bounds
   * of its own moment.
   */
  datatype Reply = Reply(addr: nat, data: seq<nat>, heapLo: int, heapHi: int)

  /** The fill byte of block `index`, `index & 0xFF`. */
  function Pattern(index: nat): (b: nat)
    ensures b < 256 && (index - b) % 256 == 0
  {
    index % 256
  }

  /** The number of bytes that must survive a reallocation: the smaller of the old and new sizes. */
  function Kept(oldSize: nat, size: nat): (n: nat)
    ensures n <= oldSize && n <= size && (n == oldSize || n == size)
  {
    if size < oldSize then size else oldSize
  }

  /** The first `count` bytes all hold `pattern`. */
  predicate Preserved(data: seq<nat>, count: nat, pattern: nat)
    requires count <= |data|
  {
    forall j :: 0 <= j < count ==> data[j] == pattern
  }

  /** The driver's record: the range list and, per block id, the block's address and size. */
  datatype Book = Book(ranges: seq<Range>, blocks: seq<nat>, sizes: seq<nat>)

  /**
   * What the trace and the answers must satisfy for the replay to be
   * defined: one answer per request, ids within the block table, a positive
   * size wherever the allocator returned a block (`add_range` asserts it; a
   * NULL answer fails before that) and enough bytes read back after a
   * reallocation.
   */
  predicate Replayable(ops: seq<TraceOp>, replies: seq<Reply>, ids: nat)
  {
    |replies| == |ops|
    && forall i :: 0 <= i < |ops| ==>
         ops[i].index < ids
         && (ops[i].kind != Free && replies[i].addr != 0 ==> ops[i].size > 0)
         && (ops[i].kind == Realloc ==> |replies[i].data| >= ops[i].size)
  }

  /**
   * One request of the replay: whether it passed, and the record after it.
   * A failed request leaves whatever the driver had changed before it
   * noticed the failure.
   */
  function Step(b: Book, op: TraceOp, reply: Reply): (r: (bool, Book))
    requires op.index < |b.blocks| && |b.sizes| == |b.blocks|
    requires op.kind != Free && reply.addr != 0 ==> op.size > 0
    requires op.kind == Realloc ==> |reply.data| >= op.size
    ensures |r.1.blocks| == |b.blocks| && |r.1.sizes| == |b.sizes|
  {
    match op.kind
    case Alloc =>
      if reply.addr == 0 then (false, b)
      else if Check(b.ranges, reply.addr, op.size, reply.heapLo, reply.heapHi) != Added then (false, b)
      else
        (true, Book([Range(reply.addr, reply.addr + op.size - 1)] + b.ranges,
                    b.blocks[op.index := reply.addr], b.sizes[op.index := op.size]))
    case Realloc =>
      if reply.addr == 0 then (false, b)
      else
        var removed := RemoveFirst(b.ranges, b.blocks[op.index]);
        if Check(removed, reply.addr, op.size, reply.heapLo, reply.heapHi) != Added then (false, b.(ranges := removed))
        else
          var added := [Range(reply.addr, reply.addr + op.size - 1)] + removed;
          if !Preserved(reply.data, Kept(b.sizes[op.index], op.size), Pattern(op.index)) then
            (false, b.(ranges := added))
          else
            (true, Book(added, b.blocks[op.index := reply.addr], b.sizes[op.index := op.size]))
    case Free =>
      (true, b.(ranges := RemoveFirst(b.ranges, b.blocks[op.index])))
  }

  /** The replay of `ops` from record `b`: it stops at the first request that fails. */
  function Run(b: Book, ops: seq<TraceOp>, replies: seq<Reply>): (r: (bool, Book))
    requires Replayable(ops, replies, |b.blocks|) && |b.sizes| == |b.blocks|
    ensures |r.1.blocks| == |b.blocks| && |r.1.sizes| == |b.sizes|
    decreases |ops|
  {
    if |ops| == 0 then (true, b)
    else
      var s := Step(b, ops[0], replies[0]);
      if !s.0 then s
      else Run(s.1, ops[1..], replies[1..])
  }

  /** The answers to the requests from `i` on still form a replayable trace. */
  lemma {:induction false} ReplayableFrom(ops: seq<TraceOp>, replies: seq<Reply>, ids: nat, i: nat)
    requires Replayable(ops, replies, ids) && i <= |ops|
    ensures Replayable(ops[i..], replies[i..], ids)
  {
    forall k | 0 <= k < |ops[i..]|
      ensures ops[i..][k] == ops[i + k] && replies[i..][k] == replies[i + k]
    {
    }
  }

  /**
   * Two 8-byte allocations, the second one placed after the heap grew from
   * 8 to 16 bytes: the replay passes when each block is checked against the
   * bounds of its own moment, and would refuse the second block had the
   * bounds of the first request been kept.
   */
  lemma GrownHeapAccepted()
    ensures var ops := [TraceOp(Alloc, 0, 8), TraceOp(Alloc, 1, 8)];
      var b := Book([], [0, 0], [0, 0]);
      Run(b, ops, [Reply(8, [], 8, 15), Reply(16, [], 8, 23)]).0
      && !Run(b, ops, [Reply(8, [], 8, 15), Reply(16, [], 8, 15)]).0
  {
  }

  /**
   * A replay that passes has checked every block the allocator returned:
   * each is non-NULL, aligned, and lies inside the heap as it was when that
   * request was checked.
   */
  lemma {:induction false} PassedBlocksChecked(b: Book, ops: seq<TraceOp>, replies: seq<Reply>)
    requires Replayable(ops, replies, |b.blocks|) && |b.sizes| == |b.blocks|
    requires Run(b, ops, replies).0
    decreases |ops|
    ensures forall i :: 0 <= i < |ops| && ops[i].kind != Free ==>
      var p := replies[i].addr;
      p != 0 && p % ALIGNMENT == 0 && replies[i].heapLo <= p && p + ops[i].size - 1 <= replies[i].heapHi
  {
    if |ops| > 0 {
      var s := Step(b, ops[0], replies[0]);
      ReplayableFrom(ops, replies, |b.blocks|, 1);
      PassedBlocksChecked(s.1, ops[1..], replies[1..]);
      forall i | 1 <= i < |ops| && ops[i].kind != Free
        ensures replies[i].addr != 0 && replies[i].addr % ALIGNMENT == 0
          && replies[i].heapLo <= replies[i].addr && replies[i].addr + ops[i].size - 1 <= replies[i].heapHi
      {
        assert ops[1..][i - 1] == ops[i] && replies[1..][i - 1] == replies[i];
      }
    }
  }

  /** A replay that passes passes on every prefix of the trace too. */
  lemma {:induction false} PassedPrefix(b: Book, ops: seq<TraceOp>, replies: seq<Reply>, n: nat)
    requires Replayable(ops, replies, |b.blocks|) && |b.sizes| == |b.blocks| && n <= |ops|
    requires Run(b, ops, replies).0
    decreases n
    ensures Replayable(ops[..n], replies[..n], |b.blocks|)
    ensures Run(b, ops[..n], replies[..n]).0
  {
    assert Replayable(ops[..n], replies[..n], |b.blocks|) by {
      forall k | 0 <= k < n
        ensures ops[..n][k] == ops[k] && replies[..n][k] == replies[k]
      {
      }
    }
    if n > 0 {
      var s := Step(b, ops[0], replies[0]);
      ReplayableFrom(ops, replies, |b.blocks|, 1);
      PassedPrefix(s.1, ops[1..], replies[1..], n - 1);
      assert ops[..n][1..] == ops[1..][..n - 1];
      assert replies[..n][1..] == replies[1..][..n - 1];
    }
  }

  /**
   * The loop of `eval_mm_valid` that compares the surviving bytes of a
   * reallocated block with the old block's fill byte.
   */
  method CheckPreserved(data: seq<nat>, count: nat, pattern: nat) returns (ok: bool)
    requires count <= |data|
    ensures ok <==> Preserved(data, count, pattern)
  {
    var j := 0;
    while j < count
      invariant 0 <= j <= count
      invariant forall k :: 0 <= k < j ==> data[k] == pattern
    {
      if data[j] != pattern {
        return false;
      }
      j := j + 1;
    }
    return true;
  }

  /** The number of requests the loop of `eval_mm_valid` replays: the header's `num_ops`, none when that is negative. */
  function Replayed(t: Trace): nat
  {
    if t.numOps < 0 then 0 else t.numOps
  }

  /**
   * `eval_mm_valid`: the range list is cleared, then the first `num_ops`
   * requests of the trace are replayed in order until one fails. The result
   * and the final record are those of `Run` on those requests from an empty
   * range list; requests parsed beyond `num_ops` are not replayed.
   */
  method EvalValid(trace: Trace, replies: seq<Reply>,
                   ranges: RangeList, blocks: array<nat>, sizes: array<nat>) returns (ok: bool)
    requires blocks != sizes && blocks.Length == sizes.Length
    requires trace.numOps <= |trace.ops|
    requires Replayable(trace.ops[..Replayed(trace)], replies, blocks.Length)
    modifies ranges, blocks, sizes
    ensures (ok, Book(ranges.ranges, blocks[..], sizes[..]))
      == Run(Book([], old(blocks[..]), old(sizes[..])), trace.ops[..Replayed(trace)], replies)
  {
    ranges.ClearRanges();
    ghost var ops := trace.ops[..Replayed(trace)];
    ghost var b0 := Book([], blocks[..], sizes[..]);
    var i := 0;
    while i < trace.numOps
      invariant 0 <= i <= |ops| && blocks.Length == sizes.Length
      invariant Replayable(ops[i..], replies[i..], blocks.Length)
      invariant Run(b0, ops, replies)
        == Run(Book(ranges.ranges, blocks[..], sizes[..]), ops[i..], replies[i..])
    {
      ReplayableFrom(ops, replies, blocks.Length, i + 1);
      assert ops[i] == trace.ops[i];
      assert ops[i..][0] == ops[i] && replies[i..][0] == replies[i];
      assert ops[i..][1..] == ops[i + 1..] && replies[i..][1..] == replies[i + 1..];
      ok := Apply(trace.ops[i], replies[i], ranges, blocks, sizes);
      if !ok {
        return false;
      }
      i := i + 1;
    }
    return true;
  }

  /** One request of the replay, as the `switch` in `eval_mm_valid` carries it out. */
  method Apply(op: TraceOp, reply: Reply,
               ranges: RangeList, blocks: array<nat>, sizes: array<nat>) returns (ok: bool)
    requires blocks != sizes && blocks.Length == sizes.Length && op.index < blocks.Length
    requires op.kind != Free && reply.addr != 0 ==> op.size > 0
    requires op.kind == Realloc ==> |reply.data| >= op.size
    modifies ranges, blocks, sizes
    ensures (ok, Book(ranges.ranges, blocks[..], sizes[..]))
      == Step(Book(old(ranges.ranges), old(blocks[..]), old(sizes[..])), op, reply)
  {
    match op.kind
    case Alloc => ok := ApplyAlloc(op, reply, ranges, blocks, sizes);
    case Realloc => ok := ApplyRealloc(op, reply, ranges, blocks, sizes);
    case Free => ranges.RemoveRange(blocks[op.index]); ok := true;
  }

  /** `ALLOC`: the new block is checked and recorded. */
  method ApplyAlloc(op: TraceOp, reply: Reply,
                    ranges: RangeList, blocks: array<nat>, sizes: array<nat>) returns (ok: bool)
    requires op.kind == Alloc && (reply.addr != 0 ==> op.size > 0)
    requires blocks != sizes && blocks.Length == sizes.Length && op.index < blocks.Length
    modifies ranges, blocks, sizes
    ensures (ok, Book(ranges.ranges, blocks[..], sizes[..]))
      == Step(Book(old(ranges.ranges), old(blocks[..]), old(sizes[..])), op, reply)
  {
    var p := reply.addr;
    if p == 0 {
      return false;
    }
    var v := ranges.AddRange(p, op.size, reply.heapLo, reply.heapHi);
    if v != Added {
      return false;
    }
    blocks[op.index] := p;
    sizes[op.index] := op.size;
    return true;
  }

  /**
   * `REALLOC`: the old range is dropped, the new block checked and recorded,
   * and its first `min(old size, size)` bytes compared with the old fill byte.
   */
  method ApplyRealloc(op: TraceOp, reply: Reply,
                      ranges: RangeList, blocks: array<nat>, sizes: array<nat>) returns (ok: bool)
    requires op.kind == Realloc && (reply.addr != 0 ==> op.size > 0) && |reply.data| >= op.size
    requires blocks != sizes && blocks.Length == sizes.Length && op.index < blocks.Length
    modifies ranges, blocks, sizes
    ensures (ok, Book(ranges.ranges, blocks[..], sizes[..]))
      == Step(Book(old(ranges.ranges), old(blocks[..]), old(sizes[..])), op, reply)
  {
    var oldp := blocks[op.index];
    var newp := reply.addr;
    if newp == 0 {
      return false;
    }
    ranges.RemoveRange(oldp);
    var v := ranges.AddRange(newp, op.size, reply.heapLo, reply.heapHi);
    if v != Added {
      return false;
    }
    var oldsize := sizes[op.index];
    if op.size < oldsize {
      oldsize := op.size;
    }
    ok := CheckPreserved(reply.data, oldsize, Pattern(op.index));
    if !ok {
      return false;
    }
    blocks[op.index] := newp;
    sizes[op.index] := op.size;
  }
}

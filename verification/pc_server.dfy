/**
 * The host's server loop: it sends the handshake word, takes the device's
 * first request as the heap origin, and then answers one request per loop
 * iteration by calling the allocator engine. The serial line is modelled by
 * the requests handed to each step and by the sequence of 32-bit words the
 * server has sent.
 */
module HostServer {
  import opened BlockList
  import opened HostAllocator
  import opened Protocol
  import HostProperties
  import HostBreak

  /** Where the session is: waiting for the origin, serving requests, ended by the device, or stopped by the failed assertion on the first request. */
  datatype Phase = AwaitOrigin | Serving | Ended | Aborted

  /**
   * What one served command does to the heap and what the server sends
   * back: the new blocks and the reply words.
   */
  function Served(v: seq<Block>, base: nat, c: Command, bestFit: bool): (seq<Block>, seq<nat>)
  {
    match c
    case Malloc(size) => var r := MallocResult(v, size, bestFit); (r.0, [r.1])
    case Free(ptr) => (Freed(v, ptr), [])
    case Realloc(ptr, size) => var r := ReallocResult(v, ptr, size); (r.0, [r.1])
    case Grow(size) => (Grown(v, base, size), [])
    case SetOrigin(_) => ([], [])
    case End => ([], [])
    case Invalid(_) => (v, [])
  }

  /**
   * One served command keeps the heap tiled from its base with no two free
   * neighbours; exactly `MALLOC` and `REALLOC` are answered, with one word;
   * a grow adds its size to the heap, a new origin or the end of the session
   * empties it, and nothing else changes its size. A nonzero `MALLOC` reply
   * is the address of an allocated block of the new heap.
   */
  lemma {:induction false} ServedSpec(v: seq<Block>, base: nat, c: Command, bestFit: bool)
    requires WellFormed(v, base) && NoAdjacentFree(v) && base > 0 && (c.Grow? ==> c.size > 0)
    ensures |Served(v, base, c, bestFit).1| == if Answered(c) then 1 else 0
    ensures WellFormed(Served(v, base, c, bestFit).0, base) && NoAdjacentFree(Served(v, base, c, bestFit).0)
    ensures Total(Served(v, base, c, bestFit).0) ==
      if c.Grow? then Total(v) + c.size else if c.SetOrigin? || c.End? then 0 else Total(v)
    ensures c.Malloc? && Served(v, base, c, bestFit).1[0] != 0 ==>
      var w, p := Served(v, base, c, bestFit).0, Served(v, base, c, bestFit).1[0];
      Find(w, p).Some? && w[Find(w, p).value].alloc
  {
    match c
    case Malloc(size) =>
      HostProperties.MallocSpec(v, base, size, bestFit);
    case Free(ptr) =>
      HostProperties.FreedSpec(v, base, ptr);
    case Realloc(ptr, size) =>
      HostProperties.ReallocSpec(v, base, ptr, size);
    case Grow(size) =>
      HostProperties.GrownSpec(v, base, size);
    case SetOrigin(_) =>
    case End =>
    case Invalid(_) =>
  }

  /** The server's state: the engine, the break tracker, the words sent so far and the phase. */
  class Server {
    const engine: Engine
    const mem: HostBreak.BreakTracker
    var sent: seq<nat>
    var phase: Phase

    /**
     * The state while serving: the engine owns neither the server nor the
     * tracker, the engine is valid, and the tracker's heap size is the total
     * size of the engine's blocks.
     */
    ghost predicate Ready()
      reads mem, engine, engine.Repr
    {
      && this !in engine.Repr && mem !in engine.Repr
      && mem.Valid() && engine.Valid()
      && mem.HeapSize() == Total(engine.View())
    }

    /** Before the origin arrives the engine is not started; while serving the server is `Ready`. */
    ghost predicate Valid()
      reads this, mem, engine, engine.Repr
    {
      && this !in engine.Repr && mem !in engine.Repr
      && mem.Valid()
      && (phase == AwaitOrigin ==> engine.Frame() && !engine.started)
      && (phase == Serving ==> Ready())
    }

    /** The start of `main`: the globals are zero and the handshake word 1 is the first thing sent. */
    constructor (bestFit: bool, dictSearch: bool)
      ensures Valid() && fresh(engine) && fresh(mem) && fresh(engine.Repr) && phase == AwaitOrigin && sent == [1]
      ensures engine.bestFit == bestFit && engine.dictSearch == dictSearch
    {
      engine := new Engine(bestFit, dictSearch);
      mem := new HostBreak.BreakTracker();
      sent := [1];
      phase := AwaitOrigin;
    }

    /**
     * The first request: the server asserts that it is an `SBRK` with a
     * nonzero address, and stops otherwise; when it is, the break and the
     * engine start an empty heap at that address. Nothing is sent.
     */
    method Open(first: Request)
      requires Valid() && phase == AwaitOrigin
      modifies this, mem, engine.Repr
      ensures Valid() && fresh(engine.Repr - old(engine.Repr)) && sent == old(sent)
      ensures phase == if first.request == SBRK && first.ptr != 0 then Serving else Aborted
      ensures phase == Serving ==> engine.View() == [] && engine.Base() == first.ptr && mem.HeapLo() == first.ptr
    {
      if first.request == SBRK && first.ptr != 0 {
        mem.ResetBrk(first.ptr);
        engine.Init(first.ptr);
        phase := Serving;
      } else {
        phase := Aborted;
      }
    }

    /**
     * The requests the engine can take: a grow must stay inside the 32-bit
     * address space, and below 2^31 bytes, which `mem_sbrk`'s `int` would
     * read as negative.
     */
    ghost predicate Fits(req: Request)
      reads mem, engine, engine.Repr
      requires Ready()
    {
      Decode(req).Grow? ==> req.size < INCR_LIMIT && engine.Base() + Total(engine.View()) + req.size <= ADDRESS_LIMIT
    }

    /**
     * One iteration of the server loop: the request is dispatched on its
     * type, the heap changes as `Served` says, and the reply words `Served`
     * gives are sent. The engine's base never moves, even when the device
     * sets a new origin. The end of the session resets the list, destroys
     * the index and leaves the loop.
     */
    method Step(req: Request)
      requires phase == Serving && Ready() && Fits(req)
      modifies this, mem, engine.Repr
      ensures phase == if Decode(req).End? then Ended else Serving
      ensures phase == Serving ==> Ready() && fresh(engine.Repr - old(engine.Repr))
      ensures engine.ListOk() && engine.Base() == old(engine.Base())
      ensures engine.View() == Served(old(engine.View()), old(engine.Base()), Decode(req), engine.bestFit).0
      ensures sent == old(sent) + Served(old(engine.View()), old(engine.Base()), Decode(req), engine.bestFit).1
      ensures Decode(req).End? ==> engine.dict.size == 0 && engine.dict.count == 0
      ensures Decode(req).SetOrigin? ==> mem.HeapLo() == req.ptr
    {
      var c := Decode(req);
      var reply := Serve(c);
      sent := sent + reply;
      if c.End? {
        phase := Ended;
      }
    }

    /** The engine's and the tracker's half of a step: what `c` does to them, and the reply words. */
    method Serve(c: Command) returns (reply: seq<nat>)
      requires Ready() && (c.Grow? ==> 0 < c.size < INCR_LIMIT && engine.Base() + Total(engine.View()) + c.size <= ADDRESS_LIMIT)
      modifies mem, engine.Repr
      ensures !c.End? ==> Ready() && fresh(engine.Repr - old(engine.Repr))
      ensures engine.ListOk() && engine.Base() == old(engine.Base())
      ensures (engine.View(), reply) == Served(old(engine.View()), old(engine.Base()), c, engine.bestFit)
      ensures c.End? ==> engine.dict.size == 0 && engine.dict.count == 0
      ensures c.SetOrigin? ==> mem.HeapLo() == c.ptr
    {
      if c.Malloc? || c.Free? || c.Realloc? {
        reply := ServeHeap(c);
      } else {
        ServeBreak(c);
        reply := [];
      }
    }

    /** The requests the engine answers from the heap it has: `MALLOC`, `FREE` and `REALLOC`. */
    method ServeHeap(c: Command) returns (reply: seq<nat>)
      requires Ready() && (c.Malloc? || c.Free? || c.Realloc?)
      modifies engine.Repr
      ensures Ready() && fresh(engine.Repr - old(engine.Repr)) && engine.Base() == old(engine.Base())
      ensures (engine.View(), reply) == Served(old(engine.View()), old(engine.Base()), c, engine.bestFit)
    {
      match c {
        case Malloc(size) =>
          var p := ServeMalloc(size);
          reply := [p];
        case Free(ptr) =>
          ServeFree(ptr);
          reply := [];
        case Realloc(ptr, size) =>
          var p := ServeRealloc(ptr, size);
          reply := [p];
      }
    }

    /** The overloaded `SBRK` requests, and the request types the dispatch does not know, which it ignores. */
    method ServeBreak(c: Command)
      requires Ready() && !(c.Malloc? || c.Free? || c.Realloc?)
      requires c.Grow? ==> 0 < c.size < INCR_LIMIT && engine.Base() + Total(engine.View()) + c.size <= ADDRESS_LIMIT
      modifies mem, engine.Repr
      ensures !c.End? ==> Ready() && fresh(engine.Repr - old(engine.Repr))
      ensures engine.ListOk() && engine.Base() == old(engine.Base())
      ensures engine.View() == Served(old(engine.View()), old(engine.Base()), c, engine.bestFit).0
      ensures Served(old(engine.View()), old(engine.Base()), c, engine.bestFit).1 == []
      ensures c.End? ==> engine.dict.size == 0 && engine.dict.count == 0
      ensures c.SetOrigin? ==> mem.HeapLo() == c.ptr
    {
      match c {
        case Grow(size) =>
          Grow(size);
        case SetOrigin(ptr) =>
          SetOrigin(ptr);
        case End =>
          Finish();
        case Invalid(_) =>
      }
    }

    /** `MALLOC`: `mm_malloc`, whose result is the reply. */
    method ServeMalloc(size: Word) returns (p: nat)
      requires Ready()
      modifies engine.Repr
      ensures Ready() && fresh(engine.Repr - old(engine.Repr)) && engine.Base() == old(engine.Base())
      ensures (engine.View(), p) == MallocResult(old(engine.View()), size, engine.bestFit)
    {
      HostProperties.MallocSpec(engine.View(), engine.Base(), size, engine.bestFit);
      p := engine.Malloc(size);
    }

    /** `FREE`: `mm_free`, with no reply. */
    method ServeFree(ptr: Word)
      requires Ready()
      modifies engine.Repr
      ensures Ready() && fresh(engine.Repr - old(engine.Repr)) && engine.Base() == old(engine.Base())
      ensures engine.View() == Freed(old(engine.View()), ptr)
    {
      HostProperties.FreedSpec(engine.View(), engine.Base(), ptr);
      engine.Free(ptr);
    }

    /** `REALLOC`: `mm_realloc`, whose result is the reply. */
    method ServeRealloc(ptr: Word, size: Word) returns (p: nat)
      requires Ready()
      modifies engine.Repr
      ensures Ready() && fresh(engine.Repr - old(engine.Repr)) && engine.Base() == old(engine.Base())
      ensures (engine.View(), p) == ReallocResult(old(engine.View()), ptr, size)
    {
      HostProperties.ReallocSpec(engine.View(), engine.Base(), ptr, size);
      p := engine.Realloc(ptr, size);
    }

    /** `SBRK` with a nonzero size: `mem_sbrk`, which also hands the new bytes to the engine. */
    method Grow(size: nat)
      requires Ready() && 0 < size < INCR_LIMIT && engine.Base() + Total(engine.View()) + size <= ADDRESS_LIMIT
      modifies mem, engine.Repr
      ensures Ready() && fresh(engine.Repr - old(engine.Repr))
      ensures engine.View() == Grown(old(engine.View()), old(engine.Base()), size) && engine.Base() == old(engine.Base())
    {
      HostProperties.GrownSpec(engine.View(), engine.Base(), size);
      var _ := mem.Sbrk(size, engine);
    }

    /** `SBRK` with a zero size and a nonzero address: `mem_reset_brk` and `mm_init` at that address, which the engine's sentinel ignores. */
    method SetOrigin(ptr: Word)
      requires Ready()
      modifies mem, engine.Repr
      ensures Ready() && fresh(engine.Repr - old(engine.Repr))
      ensures engine.View() == [] && engine.Base() == old(engine.Base()) && mem.HeapLo() == ptr
    {
      mem.ResetBrk(ptr);
      engine.Init(ptr);
    }

    /** `SBRK` with a zero size and a zero address: `mm_init(0)` empties the list and `dict_destroy` empties the index. */
    method Finish()
      requires Ready()
      modifies engine.Repr
      ensures engine.ListOk() && engine.View() == [] && engine.Base() == old(engine.Base())
      ensures engine.dict.size == 0 && engine.dict.count == 0
    {
      engine.Init(0);
      engine.dict.Destroy();
    }
  }
}

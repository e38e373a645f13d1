/**
 * The host's copy of the device's break: where the device heap starts and
 * where it ends now. Both are 32-bit addresses, and the arithmetic on them
 * wraps as `uint32_t` arithmetic does. Growing the break also hands the new
 * bytes to the allocator engine as a free block.
 */
module HostBreak {
  import opened BlockList
  import opened HostAllocator
  import Protocol

  /** Reduction to a 32-bit word, as `uint32_t` arithmetic does. */
  function Wrap(x: int): (r: nat)
    ensures r < Protocol.WORD_LIMIT
    ensures 0 <= x < Protocol.WORD_LIMIT ==> r == x
  {
    x % Protocol.WORD_LIMIT
  }

  /** Adding to a wrapped value and wrapping again is adding and wrapping once. */
  lemma {:induction false} WrapAdd(x: int, y: int)
    ensures Wrap(Wrap(x) + y) == Wrap(x + y)
  {
    var m := Protocol.WORD_LIMIT;
    assert x == (x / m) * m + x % m;
    assert x % m + y == ((x % m + y) / m) * m + (x % m + y) % m;
    assert x + y == ((x + y) / m) * m + (x + y) % m;
  }

  /** Advancing the break by `incr` advances the wrapped distance from the start by `incr`. */
  lemma {:induction false} SizeStep(start: int, b: int, incr: int)
    ensures Wrap(Wrap(b + incr) - start) == Wrap(Wrap(b - start) + incr)
  {
    WrapAdd(b + incr, -start);
    WrapAdd(b - start, incr);
  }

  /** `mem_start_brk` and `mem_brk`. */
  class BreakTracker {
    var startBrk: nat
    var brk: nat

    /** Both are 32-bit addresses. */
    ghost predicate Valid()
      reads this
    {
      startBrk < Protocol.WORD_LIMIT && brk < Protocol.WORD_LIMIT
    }

    /** The static variables start at zero. */
    constructor ()
      ensures Valid() && startBrk == 0 && brk == 0
    {
      startBrk, brk := 0, 0;
    }

    /** `mem_heap_lo`: the first byte of the heap. */
    function HeapLo(): (r: nat)
      reads this
      ensures r == startBrk
    {
      startBrk
    }

    /** `mem_heap_hi`: the byte before the break, wrapping to the largest address when the break is 0. */
    function HeapHi(): (r: nat)
      reads this
      requires Valid()
      ensures r < Protocol.WORD_LIMIT
      ensures brk > 0 ==> r + 1 == brk
      ensures brk == 0 ==> r == Protocol.WORD_LIMIT - 1
    {
      Wrap(brk - 1)
    }

    /** `mem_heapsize`: the bytes from the start to the break, as a 32-bit difference. */
    function HeapSize(): (r: nat)
      reads this
      requires Valid()
      ensures r < Protocol.WORD_LIMIT
      ensures brk >= startBrk ==> r == brk - startBrk
      ensures Wrap(startBrk + r) == brk
    {
      WrapAdd(startBrk, brk - startBrk);
      Wrap(brk - startBrk)
    }

    /** `mem_reset_brk`: an empty heap starting at `ptr`. */
    method ResetBrk(ptr: Protocol.Word)
      modifies this
      ensures Valid() && startBrk == ptr && brk == ptr && HeapSize() == 0
    {
      startBrk := ptr;
      brk := ptr;
    }

    /** `mem_deinit`: the break goes back to the start of the heap. */
    method Deinit()
      requires Valid()
      modifies this
      ensures Valid() && startBrk == old(startBrk) && brk == startBrk && HeapSize() == 0
    {
      ResetBrk(startBrk);
    }

    /** `mem_set_brk`: only the break moves. */
    method SetBrk(ptr: Protocol.Word)
      requires Valid()
      modifies this
      ensures Valid() && startBrk == old(startBrk) && brk == ptr
    {
      brk := ptr;
    }

    /**
     * `mem_sbrk`: the break advances by `incr` (wrapping), the old break is
     * returned, and the engine gains the `incr` new bytes as a free block at
     * the end of its heap. The heap size grows by exactly `incr`.
     */
    method Sbrk(incr: nat, engine: Engine) returns (oldBrk: nat)
      requires Valid() && engine.Valid() && this !in engine.Repr
      requires 0 < incr < INCR_LIMIT && engine.Base() + Total(engine.View()) + incr <= ADDRESS_LIMIT
      modifies this, engine.Repr
      ensures Valid() && oldBrk == old(brk) && startBrk == old(startBrk)
      ensures brk == Wrap(old(brk) + incr) && HeapSize() == Wrap(old(HeapSize()) + incr)
      ensures engine.Valid() && fresh(engine.Repr - old(engine.Repr))
      ensures engine.View() == Grown(old(engine.View()), old(engine.Base()), incr) && engine.Base() == old(engine.Base())
    {
      oldBrk := Advance(incr);
      engine.Sbrk(incr);
    }

    /** The tracker's half of `mem_sbrk`: the break advances by `incr`, wrapping, and the old break is returned. */
    method Advance(incr: nat) returns (oldBrk: nat)
      requires Valid()
      modifies this
      ensures Valid() && oldBrk == old(brk) && startBrk == old(startBrk)
      ensures brk == Wrap(old(brk) + incr) && HeapSize() == Wrap(old(HeapSize()) + incr)
    {
      oldBrk := brk;
      SizeStep(startBrk, oldBrk, incr);
      brk := Wrap(brk + incr);
    }
  }
}

/**
 * The device's break: the heap starts at the end of the device's static
 * data, rounded up to 8 bytes, and grows towards the stack. Every change of
 * the break is reported to the host, which keeps the matching heap: a reset
 * sends the origin, a growth sends its size.
 */
module DeviceBreak {
  import opened Wrappers
  import opened Protocol
  import DeviceLink

  /** The alignment of the heap's first byte. */
  const ALIGNMENT: nat := 8

  /** `ALIGN`: rounding up to a multiple of 8. */
  function Align(x: nat): (r: nat)
    ensures r % ALIGNMENT == 0 && x <= r < x + ALIGNMENT
    ensures x % ALIGNMENT == 0 ==> r == x
    ensures r == 0 <==> x == 0
  {
    var q := (x + 7) / 8;
    assert x + 7 == q * 8 + (x + 7) % 8;
    q * 8
  }

  /** The message that reports an empty heap at `start`: the host takes it as the origin exactly when `start` is not zero, and as the end of the session otherwise. */
  lemma {:induction false} OriginMessage(start: Word)
    ensures Decode(Encode(SetOrigin(start))) == if start == 0 then End else SetOrigin(start)
  {
  }

  /** `mem_start_brk` and `mem_brk`: the heap is the bytes from the start up to, not including, the break. */
  class Break {
    var startBrk: nat
    var brk: nat

    /** The start is aligned, and the break lies between it and the end of the 32-bit address space. */
    ghost predicate Valid()
      reads this
    {
      startBrk % ALIGNMENT == 0 && startBrk <= brk < WORD_LIMIT
    }

    /** The static variables start at zero. */
    constructor ()
      ensures Valid() && startBrk == 0 && brk == 0
    {
      startBrk, brk := 0, 0;
    }

    /**
     * `mem_init`: the heap starts empty at the first 8-byte boundary at or
     * after `sbrkStart`, the end of the static data, and the host is told.
     */
    method Init(sbrkStart: nat, link: DeviceLink.Link)
      requires Align(sbrkStart) < WORD_LIMIT
      modifies this, link
      ensures Valid() && startBrk == Align(sbrkStart) && brk == startBrk && HeapSize() == 0
      ensures link.sent == old(link.sent) + [Encode(SetOrigin(startBrk))] && link.received == old(link.received)
    {
      startBrk := Align(sbrkStart);
      brk := startBrk;
      link.Send(Encode(SetOrigin(brk)));
    }

    /** `mem_reset_brk`: the heap is empty again at the same start, and the host is told. */
    method ResetBrk(link: DeviceLink.Link)
      requires Valid()
      modifies this, link
      ensures Valid() && startBrk == old(startBrk) && brk == startBrk && HeapSize() == 0
      ensures link.sent == old(link.sent) + [Encode(SetOrigin(startBrk))] && link.received == old(link.received)
    {
      brk := startBrk;
      link.Send(Encode(SetOrigin(brk)));
    }

    /** `mem_deinit`: a reset. */
    method Deinit(link: DeviceLink.Link)
      requires Valid()
      modifies this, link
      ensures Valid() && startBrk == old(startBrk) && brk == startBrk && HeapSize() == 0
      ensures link.sent == old(link.sent) + [Encode(SetOrigin(startBrk))] && link.received == old(link.received)
    {
      ResetBrk(link);
    }

    /**
     * `mem_sbrk`: growing by zero answers the break and tells no one. A
     * growth that would pass the stack pointer `stackTop` fails (the C
     * result is -1, here `None`) and changes nothing. Otherwise the break
     * moves up by `incr`, the host is sent the growth, which it reads as a
     * growth of exactly `incr`, and the old break is the start of the new
     * bytes.
     */
    method Sbrk(incr: Word, stackTop: Word, link: DeviceLink.Link) returns (r: Option<nat>)
      requires Valid()
      modifies this, link
      ensures Valid() && startBrk == old(startBrk) && link.received == old(link.received)
      ensures r.None? <==> incr > 0 && old(brk) + incr > stackTop
      ensures r.None? ==> brk == old(brk) && link.sent == old(link.sent)
      ensures r.Some? ==> r.value == old(brk) && brk == old(brk) + incr && HeapSize() == old(HeapSize()) + incr
      ensures r.Some? && incr == 0 ==> link.sent == old(link.sent)
      ensures r.Some? && incr > 0 ==> brk <= stackTop && link.sent == old(link.sent) + [Encode(Grow(incr))]
      ensures r.Some? && incr > 0 ==> Decode(link.sent[|link.sent| - 1]) == Grow(incr)
    {
      if incr == 0 {
        return Some(brk);
      }
      if brk + incr > stackTop {
        return None;
      }
      r := Some(brk);
      brk := brk + incr;
      link.Send(Encode(Grow(incr)));
      DecodeEncode(Grow(incr));
    }

    /** `mem_heap_lo`: the first byte of the heap. */
    function HeapLo(): (r: nat)
      reads this
      requires Valid()
      ensures r % ALIGNMENT == 0 && r + HeapSize() == brk
    {
      startBrk
    }

    /** `mem_heap_hi` as written: the break itself, which is the first byte after the heap rather than its last byte. */
    function HeapHiAsWritten(): (r: nat)
      reads this
      requires Valid()
      ensures r == HeapLo() + HeapSize()
    {
      brk
    }

    /** `mem_heap_hi` as its comment and the host's copy mean it: the last byte of the heap (one below the start when the heap is empty). */
    function HeapHi(): (r: int)
      reads this
      requires Valid()
      ensures r == HeapLo() + HeapSize() - 1
      ensures HeapSize() > 0 ==> HeapLo() <= r < brk
    {
      brk - 1
    }

    /** `mem_heapsize`: the bytes from the start to the break. */
    function HeapSize(): (r: nat)
      reads this
      requires Valid()
      ensures startBrk + r == brk
    {
      brk - startBrk
    }
  }
}

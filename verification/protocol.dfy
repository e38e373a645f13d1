/**
 * The messages the device and the host exchange over the serial link. A
 * request is four 32-bit words: the request type, an identifier that neither
 * side sets or reads, a size and a device address. The host answers
 * `MALLOC` and `REALLOC` with one 32-bit word, the address; it answers
 * nothing else. `SBRK` is overloaded by its fields: a nonzero size grows the
 * heap, a zero size with a nonzero address sets the heap origin, and a zero
 * size with a zero address ends the session.
 */
module Protocol {

  const MALLOC: nat := 0
  const FREE: nat := 1
  const REALLOC: nat := 2
  const SBRK: nat := 3

  /** One past the largest value of a 32-bit word. */
  const WORD_LIMIT: nat := 0x1_0000_0000

  /** A value a 32-bit field can hold. */
  type Word = x: nat | x < WORD_LIMIT

  /** `mem_request`: `request`, `req_id`, `size`, `ptr`. */
  datatype Request = Request(request: Word, reqId: Word, size: Word, ptr: Word)

  /** What a request asks the host to do. */
  datatype Command =
    | Malloc(size: Word)
    | Free(ptr: Word)
    | Realloc(ptr: Word, size: Word)
    | Grow(size: Word)
    | SetOrigin(ptr: Word)
    | End
    | Invalid(code: Word)

  /** The host's reading of a request, as its dispatch `switch` reads it. */
  function Decode(r: Request): (c: Command)
    ensures c.Grow? <==> r.request == SBRK && r.size != 0
    ensures c.SetOrigin? <==> r.request == SBRK && r.size == 0 && r.ptr != 0
    ensures c.End? <==> r.request == SBRK && r.size == 0 && r.ptr == 0
    ensures c.Invalid? <==> r.request > SBRK
    ensures c.Malloc? ==> c.size == r.size
    ensures c.Free? ==> c.ptr == r.ptr
    ensures c.Realloc? ==> c.ptr == r.ptr && c.size == r.size
    ensures c.Grow? ==> c.size == r.size
    ensures c.SetOrigin? ==> c.ptr == r.ptr
  {
    if r.request == MALLOC then Malloc(r.size)
    else if r.request == FREE then Free(r.ptr)
    else if r.request == REALLOC then Realloc(r.ptr, r.size)
    else if r.request == SBRK then
      (if r.size != 0 then Grow(r.size) else if r.ptr != 0 then SetOrigin(r.ptr) else End)
    else Invalid(r.request)
  }

  /**
   * The request the device builds for a command: the fields the command does
   * not name are zero, as in the device's compound literals.
   */
  function Encode(c: Command): (r: Request)
    ensures r.reqId == 0
  {
    match c
    case Malloc(size) => Request(MALLOC, 0, size, 0)
    case Free(ptr) => Request(FREE, 0, 0, ptr)
    case Realloc(ptr, size) => Request(REALLOC, 0, size, ptr)
    case Grow(size) => Request(SBRK, 0, size, 0)
    case SetOrigin(ptr) => Request(SBRK, 0, 0, ptr)
    case End => Request(SBRK, 0, 0, 0)
    case Invalid(code) => Request(code, 0, 0, 0)
  }

  /** The commands the encoding can carry: the overloaded `SBRK` cannot carry a zero grow or a zero origin. */
  predicate Carried(c: Command)
  {
    match c
    case Grow(size) => size != 0
    case SetOrigin(ptr) => ptr != 0
    case Invalid(code) => code > SBRK
    case _ => true
  }

  /** The host reads back exactly the command the device meant, whenever the encoding can carry it. */
  lemma {:induction false} DecodeEncode(c: Command)
    requires Carried(c)
    ensures Decode(Encode(c)) == c
  {
  }

  /** A zero grow is read as an origin or as the end of the session, which is why the device never sends one. */
  lemma {:induction false} ZeroGrowMisread()
    ensures Decode(Encode(Grow(0))) == End
  {
  }

  /** Every request the host reads was built by the encoding from what it read, up to the fields that reading ignores. */
  lemma {:induction false} EncodeDecode(r: Request)
    requires r.reqId == 0
    ensures var c := Decode(r);
      Encode(c) == match c
        case Malloc(_) => r.(ptr := 0)
        case Grow(_) => r.(ptr := 0)
        case Free(_) => r.(size := 0)
        case Invalid(_) => r.(size := 0, ptr := 0)
        case _ => r
  {
  }

  /** Exactly `MALLOC` and `REALLOC` are answered. */
  predicate Answered(c: Command)
  {
    c.Malloc? || c.Realloc?
  }
}

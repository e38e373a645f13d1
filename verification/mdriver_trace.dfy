/**
 * The driver's trace format and `read_trace`. A trace is four header
 * integers (suggested heap size, number of block ids, number of operations,
 * weight) followed by one request per line: `a id size`, `r id size` or
 * `f id`. The reader scans the text with `sscanf`, which skips white space
 * before every field.
 */
module TraceFile {
  import opened Wrappers

  /** The three kinds of request a trace holds. */
  datatype OpKind = Alloc | Free | Realloc

  /** One request: a free leaves `size` at 0. */
  datatype TraceOp = TraceOp(kind: OpKind, index: nat, size: nat)

  /** The trace record `read_trace` fills in. */
  datatype Trace = Trace(suggHeapsize: int, numIds: int, numOps: int, weight: int, ops: seq<TraceOp>)

  /**
   * How reading ends. `BogusType` is the driver's halt on an unknown request
   * letter; `StressTest` is an `s` or `h` request, whose memory-exhausting
   * tests are not part of this model; `Malformed` is a header or operand
   * field that does not scan.
   */
  datatype Parse<T> = Done(value: T) | Malformed | BogusType(c: char) | StressTest(c: char)

  /** The white space `sscanf` skips. */
  predicate IsSpace(c: char)
  {
    c == ' ' || c == '\t' || c == '\n' || c == '\r' || c == '\U{0B}' || c == '\U{0C}'
  }

  predicate IsDigit(c: char)
  {
    '0' <= c <= '9'
  }

  /** The value of a decimal digit character. */
  function DigitValue(c: char): nat
  {
    if IsDigit(c) then c as int - '0' as int else 0
  }

  /** The length of the run of digits at the start of `s`. */
  function DigitRun(s: seq<char>): (n: nat)
    ensures n <= |s|
  {
    if |s| > 0 && IsDigit(s[0]) then 1 + DigitRun(s[1..]) else 0
  }

  /** The decimal value of a string of digits. */
  function Value(ds: seq<char>): nat
  {
    if |ds| == 0 then 0 else Value(ds[..|ds| - 1]) * 10 + DigitValue(ds[|ds| - 1])
  }

  /** The length of the run of white space at the start of `s`. */
  function Blanks(s: seq<char>): (n: nat)
    ensures n <= |s|
  {
    if |s| > 0 && IsSpace(s[0]) then 1 + Blanks(s[1..]) else 0
  }

  /** The digits at the start of `s`, if any: their value and how many there are. */
  function Number(s: seq<char>): (r: Option<(nat, nat)>)
    ensures r.Some? ==> 0 < r.value.1 <= |s|
  {
    var d := DigitRun(s);
    if d == 0 then None else Some((Value(s[..d]), d))
  }

  /** `%u`: white space, then at least one digit. The result is the value and the characters consumed. */
  function ScanUnsigned(s: seq<char>): (r: Option<(nat, nat)>)
    ensures r.Some? ==> 0 < r.value.1 <= |s|
  {
    if |s| > 0 && IsSpace(s[0]) then
      match ScanUnsigned(s[1..])
      case None => None
      case Some((v, d)) => Some((v, d + 1))
    else Number(s)
  }

  /** `%d`: white space, an optional sign, then at least one digit. */
  function ScanInt(s: seq<char>): (r: Option<(int, nat)>)
    ensures r.Some? ==> 0 < r.value.1 <= |s|
  {
    if |s| > 0 && IsSpace(s[0]) then
      match ScanInt(s[1..])
      case None => None
      case Some((v, d)) => Some((v, d + 1))
    else if |s| > 0 && (s[0] == '-' || s[0] == '+') then
      match Number(s[1..])
      case None => None
      case Some((v, d)) =>
        var magnitude: int := v;
        Some((if s[0] == '-' then -magnitude else magnitude, d + 1))
    else
      match Number(s)
      case None => None
      case Some((v, d)) => Some((v, d))
  }

  /** `%s`: white space, then a word; only its first letter is kept. `None` is the end of the text. */
  function ScanWord(s: seq<char>): (r: Option<(char, nat)>)
    ensures r.Some? ==> 0 < r.value.1 <= |s|
  {
    var b := Blanks(s);
    if b == |s| then None else Some((s[b], b + WordEnd(s[b..])))
  }

  /** The length of the word at the start of `s`. */
  function WordEnd(s: seq<char>): (n: nat)
    ensures n <= |s|
    ensures |s| > 0 && !IsSpace(s[0]) ==> n > 0
  {
    if |s| > 0 && !IsSpace(s[0]) then 1 + WordEnd(s[1..]) else 0
  }

  /** `op` in front of the operations read after it. */
  function Cons(op: TraceOp, r: Parse<seq<TraceOp>>): Parse<seq<TraceOp>>
  {
    if r.Done? then Done([op] + r.value) else r
  }

  /**
   * The body of the request loop, the `switch` on the request letter, over
   * the unread text `s`: `Done(None)` when only white space is left (the
   * word scan hits the end), otherwise the request read and the characters
   * its word and operands took.
   */
  function NextOp(s: seq<char>): (r: Parse<Option<(TraceOp, nat)>>)
    ensures r.Done? && r.value.Some? ==> 0 < r.value.value.1 <= |s|
  {
    match ScanWord(s)
    case None => Done(None)
    case Some((c, k)) =>
      if c == 'a' || c == 'r' then
        match ScanUnsigned(s[k..])
        case None => Malformed
        case Some((index, k1)) =>
          match ScanUnsigned(s[k + k1..])
          case None => Malformed
          case Some((size, k2)) =>
            Done(Some((TraceOp(if c == 'a' then Alloc else Realloc, index, size), k + k1 + k2)))
      else if c == 'f' then
        match ScanUnsigned(s[k..])
        case None => Malformed
        case Some((index, k1)) => Done(Some((TraceOp(Free, index, 0), k + k1)))
      else if c == 's' || c == 'h' then StressTest(c)
      else BogusType(c)
  }

  /** The operations read from `s` onwards by the request loop, one per request word. */
  function ParseOps(s: seq<char>): Parse<seq<TraceOp>>
    decreases |s|
  {
    match NextOp(s)
    case Done(None) => Done([])
    case Done(Some((op, k))) => Cons(op, ParseOps(s[k..]))
    case Malformed => Malformed
    case BogusType(c) => BogusType(c)
    case StressTest(c) => StressTest(c)
  }

  /** The four header integers in order and the text after them. */
  function ParseHeader(s: seq<char>): Option<((int, int, int, int), seq<char>)>
  {
    match ScanInt(s)
    case None => None
    case Some((heap, k0)) =>
      var s0 := s[k0..];
      match ScanInt(s0)
      case None => None
      case Some((ids, k1)) =>
        var s1 := s0[k1..];
        match ScanInt(s1)
        case None => None
        case Some((nops, k2)) =>
          var s2 := s1[k2..];
          match ScanInt(s2)
          case None => None
          case Some((weight, k3)) => Some(((heap, ids, nops, weight), s2[k3..]))
  }

  /** The header, then the requests. */
  function ParseTrace(s: seq<char>): Parse<Trace>
  {
    match ParseHeader(s)
    case None => Malformed
    case Some(((heap, ids, nops, weight), rest)) =>
      match ParseOps(rest)
      case Done(ops) => Done(Trace(heap, ids, nops, weight, ops))
      case Malformed => Malformed
      case BogusType(c) => BogusType(c)
      case StressTest(c) => StressTest(c)
  }

  /** Operations read so far in front of what the rest of the text yields. */
  function Prepend(ops: seq<TraceOp>, r: Parse<seq<TraceOp>>): Parse<seq<TraceOp>>
  {
    if r.Done? then Done(ops + r.value) else r
  }

  /**
   * `read_trace`: the header fields in order, then the request loop. The
   * scan pointer is the text not yet read; each field moves it past the
   * characters `sscanf` consumed.
   */
  method ReadTrace(text: seq<char>) returns (r: Parse<Trace>)
    ensures r == ParseTrace(text)
  {
    var scan := text;
    var h0 := ScanInt(scan);
    if h0.None? { return Malformed; }
    scan := scan[h0.value.1..];
    var h1 := ScanInt(scan);
    if h1.None? { return Malformed; }
    scan := scan[h1.value.1..];
    var h2 := ScanInt(scan);
    if h2.None? { return Malformed; }
    scan := scan[h2.value.1..];
    var h3 := ScanInt(scan);
    if h3.None? { return Malformed; }
    scan := scan[h3.value.1..];
    var ops := ReadOps(scan);
    match ops
    case Done(v) => return Done(Trace(h0.value.0, h1.value.0, h2.value.0, h3.value.0, v));
    case Malformed => return Malformed;
    case BogusType(c) => return BogusType(c);
    case StressTest(c) => return StressTest(c);
  }

  /** Reading one more request moves it from the rest of the text to the operations read so far. */
  lemma {:induction false} PrependCons(ops: seq<TraceOp>, op: TraceOp, r: Parse<seq<TraceOp>>)
    ensures Prepend(ops, Cons(op, r)) == Prepend(ops + [op], r)
  {
    if r.Done? {
      assert ops + ([op] + r.value) == (ops + [op]) + r.value;
    }
  }

  /** The request loop of `read_trace` over the text after the header. */
  method ReadOps(text: seq<char>) returns (r: Parse<seq<TraceOp>>)
    ensures r == ParseOps(text)
  {
    var ops: seq<TraceOp> := [];
    var scan := text;
    var opIndex := 0;
    assert Prepend(ops, ParseOps(scan)) == ParseOps(text) by {
      assert forall q: seq<TraceOp> :: [] + q == q;
    }
    while true
      invariant opIndex == |ops|
      invariant ParseOps(text) == Prepend(ops, ParseOps(scan))
      decreases |scan|
    {
      var step := NextOp(scan);
      match step {
        case Done(None) =>
          assert ops + [] == ops;
          return Done(ops);
        case Done(Some((op, k))) =>
          assert Prepend(ops, ParseOps(scan)) == Prepend(ops + [op], ParseOps(scan[k..])) by {
            PrependCons(ops, op, ParseOps(scan[k..]));
          }
          ops := ops + [op];
          scan := scan[k..];
        case Malformed => return Malformed;
        case BogusType(c) => return BogusType(c);
        case StressTest(c) => return StressTest(c);
      }
      opIndex := opIndex + 1;
    }
  }

  // Writing a trace out, and reading it back.

  /** The character of the decimal digit `d`. */
  function Digit(d: nat): (c: char)
    requires d < 10
    ensures IsDigit(c) && DigitValue(c) == d
  {
    ('0' as int + d) as char
  }

  /** The decimal digits of `n`, most significant first. */
  function NatText(n: nat): (t: seq<char>)
    ensures |t| > 0 && IsDigit(t[0])
  {
    if n < 10 then [Digit(n)] else NatText(n / 10) + [Digit(n % 10)]
  }

  /** Every character of `NatText(n)` is a digit. */
  lemma {:induction false} NatTextDigits(n: nat)
    ensures forall k :: 0 <= k < |NatText(n)| ==> IsDigit(NatText(n)[k])
  {
    if n >= 10 {
      NatTextDigits(n / 10);
    }
  }

  /** A `%d` field as a program writing a trace prints it. */
  function IntText(i: int): seq<char>
  {
    if i < 0 then ['-'] + NatText(Abs(i)) else NatText(Abs(i))
  }

  /** The magnitude of an integer. */
  function Abs(i: int): (n: nat)
    ensures n == i || n == -i
  {
    if i < 0 then -i else i
  }

  /** The letter of a request kind. */
  function Letter(k: OpKind): char
  {
    match k
    case Alloc => 'a'
    case Realloc => 'r'
    case Free => 'f'
  }

  /** An operand after the space that separates it. */
  function Field(n: nat): seq<char>
  {
    [' '] + NatText(n)
  }

  /** The operands of a request: the id, and the size unless it is a free. */
  function Operands(op: TraceOp): seq<char>
  {
    if op.kind == Free then Field(op.index) else Field(op.index) + Field(op.size)
  }

  /** One request on a line of its own. */
  function OpText(op: TraceOp): seq<char>
  {
    ['\n', Letter(op.kind)] + Operands(op)
  }

  /** The request lines in order. */
  function OpsText(ops: seq<TraceOp>): (t: seq<char>)
    ensures |t| == 0 || t[0] == '\n'
  {
    if |ops| == 0 then [] else OpText(ops[0]) + OpsText(ops[1..])
  }

  /** A header field on a line of its own. */
  function Line(i: int): seq<char>
  {
    ['\n'] + IntText(i)
  }

  /** A trace file: the four header lines, one line per request, and a final newline. */
  function TraceText(t: Trace): seq<char>
  {
    IntText(t.suggHeapsize) + (Line(t.numIds) + (Line(t.numOps) + (Line(t.weight) + (OpsText(t.ops) + "\n"))))
  }

  /** Dropping the first character of a joined text. */
  lemma {:induction false} DropFirst(c: char, a: seq<char>, b: seq<char>)
    ensures ([c] + a + b)[1..] == a + b
  {
  }

  /** Splitting a joined text where its first part ends. */
  lemma {:induction false} Split(a: seq<char>, b: seq<char>)
    ensures (a + b)[..|a|] == a && (a + b)[|a|..] == b
  {
  }

  /** The decimal digits of `n` read back are `n`. */
  lemma {:induction false} ValueNatText(n: nat)
    ensures Value(NatText(n)) == n
  {
    if n >= 10 {
      Split(NatText(n / 10), [Digit(n % 10)]);
      ValueNatText(n / 10);
    }
  }

  /** A run of digits ends where the digits do. */
  lemma {:induction false} DigitRunText(ds: seq<char>, tail: seq<char>)
    requires forall k :: 0 <= k < |ds| ==> IsDigit(ds[k])
    requires |tail| == 0 || !IsDigit(tail[0])
    ensures DigitRun(ds + tail) == |ds|
  {
    if |ds| > 0 {
      DropFirst(ds[0], ds[1..], tail);
      assert [ds[0]] + ds[1..] == ds;
      DigitRunText(ds[1..], tail);
    }
  }

  /** The digits of `n` at the start of a text read back as `n`. */
  lemma {:induction false} NumberText(n: nat, tail: seq<char>)
    requires |tail| == 0 || !IsDigit(tail[0])
    ensures Number(NatText(n) + tail) == Some((n, |NatText(n)|))
  {
    var t := NatText(n);
    NatTextDigits(n);
    DigitRunText(t, tail);
    Split(t, tail);
    ValueNatText(n);
  }

  /** `%u` reads back the digits of `n` and stops at the first non-digit. */
  lemma {:induction false} ScanNatText(n: nat, tail: seq<char>)
    requires |tail| == 0 || !IsDigit(tail[0])
    ensures ScanUnsigned(NatText(n) + tail) == Some((n, |NatText(n)|))
  {
    var s := NatText(n) + tail;
    assert s[0] == NatText(n)[0];
    NumberText(n, tail);
  }

  /** `%d` reads back a printed integer and stops at the first non-digit. */
  lemma {:induction false} ScanIntText(i: int, tail: seq<char>)
    requires |tail| == 0 || !IsDigit(tail[0])
    ensures ScanInt(IntText(i) + tail) == Some((i, |IntText(i)|))
  {
    if i < 0 {
      ScanNegText(i, tail);
    } else {
      ScanNonNegText(i, tail);
    }
  }

  /** `%d` reads back the digits of `n` as `n`. */
  lemma {:induction false} ScanNonNegText(n: nat, tail: seq<char>)
    requires |tail| == 0 || !IsDigit(tail[0])
    ensures ScanInt(IntText(n) + tail) == Some((n as int, |IntText(n)|))
  {
    var t := NatText(n);
    var s := t + tail;
    assert IntText(n) == t;
    assert s[0] == t[0];
    NumberText(n, tail);
  }

  /** `%d` reads back a minus sign and the digits of `-i` as `i`. */
  lemma {:induction false} ScanNegText(i: int, tail: seq<char>)
    requires i < 0 && (|tail| == 0 || !IsDigit(tail[0]))
    ensures ScanInt(IntText(i) + tail) == Some((i, |IntText(i)|))
  {
    NumberText(Abs(i), tail);
    ScanMinus(NatText(Abs(i)), tail, Abs(i), IntText(i));
  }

  /** `%d` reads a minus sign followed by digits `t` of value `v` as `-v`. */
  lemma {:induction false} ScanMinus(t: seq<char>, tail: seq<char>, v: nat, text: seq<char>)
    requires text == ['-'] + t && Number(t + tail) == Some((v, |t|))
    ensures ScanInt(text + tail) == Some((0 - v, |text|))
  {
    var s := text + tail;
    DropFirst('-', t, tail);
    assert s[0] == '-' && s[1..] == t + tail;
  }

  /** `%s` on a newline, a letter and a space reads the letter and stops at the space. */
  lemma {:induction false} ScanWordLetter(s: seq<char>)
    requires |s| >= 3 && s[0] == '\n' && !IsSpace(s[1]) && s[2] == ' '
    ensures ScanWord(s) == Some((s[1], 2))
  {
    assert Blanks(s) == 1 by {
      assert Blanks(s[1..]) == 0;
    }
    assert s[1..][1..][0] == ' ';
    assert WordEnd(s[1..][1..]) == 0;
    assert WordEnd(s[1..]) == 1;
  }

  /** Joining is associative. */
  lemma {:induction false} Assoc(a: seq<char>, b: seq<char>, c: seq<char>)
    ensures a + b + c == a + (b + c)
  {
  }

  /** `%u` reads back an operand and stops at the first non-digit. */
  lemma {:induction false} ScanField(n: nat, tail: seq<char>)
    requires |tail| == 0 || !IsDigit(tail[0])
    ensures ScanUnsigned(Field(n) + tail) == Some((n, |Field(n)|))
  {
    var t := NatText(n);
    var s := Field(n) + tail;
    DropFirst(' ', t, tail);
    assert s[0] == ' ' && s[1..] == t + tail;
    ScanNatText(n, tail);
    assert ScanUnsigned(s[1..]) == Some((n, |t|));
  }

  /** A request as the reader produces it: a free carries no size. */
  predicate Canonical(op: TraceOp)
  {
    op.kind == Free ==> op.size == 0
  }

  /** A request line is read back as that request, up to the next line. */
  lemma {:induction false} NextOpText(op: TraceOp, tail: seq<char>)
    requires Canonical(op) && (|tail| == 0 || tail[0] == '\n')
    ensures NextOp(OpText(op) + tail) == Done(Some((op, |OpText(op)|)))
  {
    if op.kind == Free {
      FreeLineScans(op, tail);
      NextFree(OpText(op) + tail, op, |Field(op.index)|, |OpText(op)|);
    } else {
      PairLineScans(op, tail);
      NextPair(OpText(op) + tail, op, |Field(op.index)|, |Field(op.size)|, |OpText(op)|);
    }
  }

  /** The word of a line is `f` and its operand scans as `index`, taking `k1` characters. */
  predicate FreeScans(s: seq<char>, index: nat, k1: nat)
  {
    ScanWord(s) == Some(('f', 2)) && ScanUnsigned(s[2..]) == Some((index, k1))
  }

  /** The word of a line is `c` and its two operands scan as `index` and `size`, taking `k1` and `k2` characters. */
  predicate PairScans(s: seq<char>, c: char, index: nat, k1: nat, size: nat, k2: nat)
  {
    && ScanWord(s) == Some((c, 2)) && 2 + k1 <= |s|
    && ScanUnsigned(s[2..]) == Some((index, k1))
    && ScanUnsigned(s[2 + k1..]) == Some((size, k2))
  }

  /** The word and the operand of a free line scan as written. */
  lemma {:induction false} FreeLineScans(op: TraceOp, tail: seq<char>)
    requires op.kind == Free && (|tail| == 0 || tail[0] == '\n')
    ensures FreeScans(OpText(op) + tail, op.index, |Field(op.index)|)
    ensures |OpText(op)| == 2 + |Field(op.index)|
  {
    var head, first := ['\n', 'f'], Field(op.index);
    var s := head + (first + tail);
    assert OpText(op) + tail == s;
    Split(head, first + tail);
    assert s[0] == '\n' && s[1] == 'f' && s[2] == first[0] == ' ';
    ScanWordLetter(s);
    ScanField(op.index, tail);
  }

  /** The word and both operands of an allocation or reallocation line scan as written. */
  lemma {:induction false} PairLineScans(op: TraceOp, tail: seq<char>)
    requires op.kind != Free && (|tail| == 0 || tail[0] == '\n')
    ensures PairScans(OpText(op) + tail, Letter(op.kind), op.index, |Field(op.index)|, op.size, |Field(op.size)|)
    ensures |OpText(op)| == 2 + |Field(op.index)| + |Field(op.size)|
  {
    var head, first, second := ['\n', Letter(op.kind)], Field(op.index), Field(op.size) + tail;
    var s := head + (first + second);
    assert OpText(op) + tail == s;
    Split(head, first + second);
    assert s[0] == '\n' && s[1] == Letter(op.kind) && s[2] == first[0] == ' ';
    ScanWordLetter(s);
    assert second[0] == ' ';
    ScanField(op.index, second);
    assert ScanUnsigned(s[2..]) == Some((op.index, |first|));
    Assoc(head, first, second);
    Split(head + first, second);
    assert s[2 + |first|..] == second;
    ScanField(op.size, tail);
  }

  /** The request loop's step on a line whose word is `f` and whose operand scans. */
  lemma {:induction false} NextFree(s: seq<char>, op: TraceOp, k1: nat, n: nat)
    requires op.kind == Free && op.size == 0 && FreeScans(s, op.index, k1) && n == 2 + k1
    ensures NextOp(s) == Done(Some((op, n)))
  {
  }

  /** The request loop's step on a line whose word is `a` or `r` and whose two operands scan. */
  lemma {:induction false} NextPair(s: seq<char>, op: TraceOp, k1: nat, k2: nat, n: nat)
    requires op.kind != Free && PairScans(s, Letter(op.kind), op.index, k1, op.size, k2) && n == 2 + k1 + k2
    ensures NextOp(s) == Done(Some((op, n)))
  {
  }

  /** The request lines of a trace, followed by a final newline, are read back as its operations. */
  lemma {:induction false} ParseOpsText(ops: seq<TraceOp>)
    requires forall k :: 0 <= k < |ops| ==> Canonical(ops[k])
    ensures ParseOps(OpsText(ops) + "\n") == Done(ops)
  {
    if |ops| == 0 {
      assert ScanWord("\n") == None;
    } else {
      var rest := OpsText(ops[1..]) + "\n";
      Assoc(OpText(ops[0]), OpsText(ops[1..]), "\n");
      NextOpText(ops[0], rest);
      Split(OpText(ops[0]), rest);
      ParseOpsText(ops[1..]);
      assert [ops[0]] + ops[1..] == ops;
    }
  }

  /** `%d` reads back a header field from the start of its line. */
  lemma {:induction false} ScanLine(i: int, tail: seq<char>)
    requires |tail| == 0 || !IsDigit(tail[0])
    ensures ScanInt(Line(i) + tail) == Some((i, |Line(i)|))
  {
    var s := Line(i) + tail;
    assert s[0] == '\n';
    DropFirst('\n', IntText(i), tail);
    ScanIntText(i, tail);
  }

  /**
   * Reading a written trace gives it back: the header fields in order and
   * every request, each with its kind, id and size.
   */
  lemma {:induction false} ReadWrittenTrace(t: Trace)
    requires forall k :: 0 <= k < |t.ops| ==> Canonical(t.ops[k])
    ensures ParseTrace(TraceText(t)) == Done(t)
  {
    var r3 := OpsText(t.ops) + "\n";
    var r2 := Line(t.weight) + r3;
    var r1 := Line(t.numOps) + r2;
    var r0 := Line(t.numIds) + r1;
    var s := IntText(t.suggHeapsize) + r0;
    ScanIntText(t.suggHeapsize, r0);
    Split(IntText(t.suggHeapsize), r0);
    ScanLine(t.numIds, r1);
    Split(Line(t.numIds), r1);
    ScanLine(t.numOps, r2);
    Split(Line(t.numOps), r2);
    ScanLine(t.weight, r3);
    Split(Line(t.weight), r3);
    assert ParseHeader(s) == Some(((t.suggHeapsize, t.numIds, t.numOps, t.weight), r3));
    ParseOpsText(t.ops);
  }
}

/**
 * The words of the in-memory allocator's heap. Every block carries its size
 * and its allocated bit twice: in a header word just before its payload and
 * in a footer word at its end. The blocks are framed by an allocated 8-byte
 * prologue block and a size-0 allocated epilogue header. Addresses are byte
 * offsets; `w[a]` is the 32-bit word stored at byte address `a`, and only
 * addresses that are multiples of 4 hold words. A block is named by its
 * payload address, as the allocator names it.
 */
module BoundaryTags {
  import opened BlockList

  /** `PACK(size, alloc)`: the size with the allocated bit in its low bit. */
  function Pack(size: nat, alloc: bool): (r: nat)
    ensures size % 8 == 0 ==> GetSize(r) == size && GetAlloc(r) == alloc
  {
    var bit := if alloc then 1 else 0;
    LowBits(size, bit);
    size + bit
  }

  /** A multiple of 8 plus a bit below 8 keeps that bit as its remainder by 8 and by 2. */
  lemma {:induction false} LowBits(size: nat, bit: nat)
    requires bit < 2
    ensures size % 8 == 0 ==> (size + bit) % 8 == bit && (size + bit) % 2 == bit
  {
    if size % 8 == 0 {
      var q, d, m := size / 8, (size + bit) / 8, (size + bit) % 8;
      assert 8 * (d - q) == bit - m;
      assert d - q == 0;
      var d2, m2 := (size + bit) / 2, (size + bit) % 2;
      assert 2 * (d2 - 4 * q) == bit - m2;
      assert d2 - 4 * q == 0;
    }
  }

  /** `GET_SIZE`: the word with its three low bits cleared. */
  function GetSize(w: nat): (r: nat)
    ensures r % 8 == 0 && r <= w < r + 8
  {
    w - w % 8
  }

  /** `GET_ALLOC`: the low bit of the word. */
  function GetAlloc(w: nat): bool
  {
    w % 2 == 1
  }

  /** On a 32-bit word the masks `& ~0x7` and `& 0x1` are the arithmetic `GetSize` and `GetAlloc` use. */
  lemma {:induction false} MaskArith(w: bv32)
    ensures w & !7 == w - w % 8
    ensures w & 1 == w % 2
  {
  }

  /** The round trip of the header encoding on 32-bit words: a size with clear low bits and a 0/1 bit are read back apart. */
  lemma {:induction false} PackBits(size: bv32, alloc: bv32)
    requires size & 7 == 0 && alloc <= 1
    ensures (size | alloc) & !7 == size
    ensures (size | alloc) & 1 == alloc
  {
  }

  /** The word a block's header and footer both hold. */
  function Tag(b: Block): nat
  {
    Pack(b.size, b.alloc)
  }

  /** A block the allocator can lay out: an 8-aligned payload after the heap's first words, and an 8-multiple size with room for header and footer. */
  ghost predicate Shaped(b: Block)
  {
    b.ptr % 8 == 0 && b.ptr >= 8 && b.size % 8 == 0 && b.size >= 8
  }

  /** Block `b` lies inside the words and its header and footer both hold its tag. */
  ghost predicate HasTag(w: seq<nat>, b: Block)
  {
    && Shaped(b)
    && b.ptr + b.size <= |w|
    && w[b.ptr - 4] == Tag(b)
    && w[b.ptr + b.size - 8] == Tag(b)
  }

  /** Every block of the list is tagged in the words. */
  ghost predicate Tagged(w: seq<nat>, v: seq<Block>)
  {
    forall k {:trigger HasTag(w, v[k])} :: 0 <= k < |v| ==> HasTag(w, v[k])
  }

  /** The words `w2` differ from `w` only at byte addresses in `[lo, hi)`. */
  ghost predicate Unchanged(w: seq<nat>, w2: seq<nat>, lo: int, hi: int)
  {
    |w2| == |w| && forall k :: 0 <= k < |w| && (k < lo || hi <= k) ==> w2[k] == w[k]
  }

  /** Writing block `b`'s header and then its footer, as the allocator does with two `PUT`s. */
  function Stamp(w: seq<nat>, b: Block): (r: seq<nat>)
    requires Shaped(b) && b.ptr + b.size <= |w|
    ensures HasTag(r, b)
    ensures Unchanged(w, r, b.ptr - 4, b.ptr + b.size - 4)
  {
    w[b.ptr - 4 := Tag(b)][b.ptr + b.size - 8 := Tag(b)]
  }

  /** Writing the footer first and the header second gives the same words. */
  lemma {:induction false} StampFooterFirst(w: seq<nat>, b: Block)
    requires Shaped(b) && b.ptr + b.size <= |w|
    ensures w[b.ptr + b.size - 8 := Tag(b)][b.ptr - 4 := Tag(b)] == Stamp(w, b)
  {
  }

  /** Words outside a rewritten range keep a block's tags when the block lies outside that range. */
  lemma {:induction false} HasTagKept(w: seq<nat>, w2: seq<nat>, b: Block, lo: int, hi: int)
    requires HasTag(w, b) && Unchanged(w, w2, lo, hi)
    requires b.ptr + b.size - 4 <= lo || hi <= b.ptr - 4
    ensures HasTag(w2, b)
  {
    assert w2[b.ptr - 4] == w[b.ptr - 4] && w2[b.ptr + b.size - 8] == w[b.ptr + b.size - 8];
  }

  /** Rewriting two ranges one after the other rewrites at most their hull. */
  lemma {:induction false} UnchangedTrans(w: seq<nat>, w1: seq<nat>, w2: seq<nat>, lo1: int, hi1: int, lo2: int, hi2: int, lo: int, hi: int)
    requires Unchanged(w, w1, lo1, hi1) && Unchanged(w1, w2, lo2, hi2)
    requires lo <= lo1 && lo <= lo2 && hi1 <= hi && hi2 <= hi
    ensures Unchanged(w, w2, lo, hi)
  {
  }

  /** Two adjacent blocks written second-then-first, as `place`, `shrink_blk` and `extend_blk` write them, are both tagged, and nothing outside them is written. */
  lemma {:induction false} StampPair(w: seq<nat>, a: Block, b: Block)
    requires Shaped(a) && Shaped(b) && a.ptr + a.size == b.ptr && b.ptr + b.size <= |w|
    ensures Tagged(Stamp(Stamp(w, b), a), [a, b])
    ensures Unchanged(w, Stamp(Stamp(w, b), a), a.ptr - 4, b.ptr + b.size - 4)
  {
    var w1 := Stamp(w, b);
    var w2 := Stamp(w1, a);
    HasTagKept(w1, w2, b, a.ptr - 4, a.ptr + a.size - 4);
    UnchangedTrans(w, w1, w2, b.ptr - 4, b.ptr + b.size - 4, a.ptr - 4, a.ptr + a.size - 4, a.ptr - 4, b.ptr + b.size - 4);
  }

  /** A single block written by `Stamp` is tagged. */
  lemma {:induction false} StampOne(w: seq<nat>, b: Block)
    requires Shaped(b) && b.ptr + b.size <= |w|
    ensures Tagged(Stamp(w, b), [b])
  {
  }

  /** Blocks outside a rewritten range stay tagged. */
  lemma {:induction false} TaggedKept(w: seq<nat>, w2: seq<nat>, v: seq<Block>, lo: int, hi: int)
    requires Tagged(w, v) && Unchanged(w, w2, lo, hi)
    requires forall k :: 0 <= k < |v| ==> v[k].ptr + v[k].size - 4 <= lo || hi <= v[k].ptr - 4
    ensures Tagged(w2, v)
  {
    forall k | 0 <= k < |v| ensures HasTag(w2, v[k]) {
      HasTagKept(w, w2, v[k], lo, hi);
    }
  }

  /** Three tagged lists are tagged together. */
  lemma {:induction false} TaggedConcat(w: seq<nat>, a: seq<Block>, m: seq<Block>, b: seq<Block>)
    requires Tagged(w, a) && Tagged(w, m) && Tagged(w, b)
    ensures Tagged(w, a + m + b)
  {
    var u := a + m + b;
    forall k | 0 <= k < |u| ensures HasTag(w, u[k]) {
      if k < |a| {
        assert u[k] == a[k];
      } else if k < |a| + |m| {
        assert u[k] == m[k - |a|];
      } else {
        assert u[k] == b[k - |a| - |m|];
      }
    }
  }

  /** A prefix, a slice and a suffix of a tagged list are tagged. */
  lemma {:induction false} TaggedParts(w: seq<nat>, v: seq<Block>, i: nat, j: nat)
    requires Tagged(w, v) && i <= j <= |v|
    ensures Tagged(w, v[..i]) && Tagged(w, v[j..])
  {
    forall k | 0 <= k < |v[j..]| ensures HasTag(w, v[j..][k]) {
      assert v[j..][k] == v[j + k];
    }
  }

  /**
   * Rewriting only the words of blocks `i..j` of a well-formed tagged list,
   * so that the blocks `m` replacing them are tagged, leaves the whole new
   * list tagged.
   */
  lemma {:induction false} TaggedSplice(w: seq<nat>, w2: seq<nat>, v: seq<Block>, base: nat, i: nat, j: nat, m: seq<Block>)
    requires WellFormed(v, base) && Tagged(w, v) && i <= j < |v|
    requires Unchanged(w, w2, v[i].ptr - 4, v[j].ptr + v[j].size - 4)
    requires Tagged(w2, m)
    ensures Tagged(w2, v[..i] + m + v[j + 1..])
  {
    var lo, hi := v[i].ptr - 4, v[j].ptr + v[j].size - 4;
    TaggedParts(w, v, i, j + 1);
    var pre, post := v[..i], v[j + 1..];
    forall k | 0 <= k < |pre| ensures pre[k].ptr + pre[k].size - 4 <= lo || hi <= pre[k].ptr - 4 {
      SortedNoOverlap(v, base, k, i);
    }
    forall k | 0 <= k < |post| ensures post[k].ptr + post[k].size - 4 <= lo || hi <= post[k].ptr - 4 {
      assert post[k] == v[j + 1 + k];
      SortedNoOverlap(v, base, j, j + 1 + k);
    }
    TaggedKept(w, w2, pre, lo, hi);
    TaggedKept(w, w2, post, lo, hi);
    TaggedConcat(w2, pre, m, post);
  }

  /** A word at an address outside the rewritten range is kept. */
  lemma {:induction false} WordKept(w: seq<nat>, w2: seq<nat>, a: int, lo: int, hi: int)
    requires Unchanged(w, w2, lo, hi)
    requires 0 <= a < |w| && (a < lo || hi <= a)
    ensures w2[a] == w[a]
  {
  }

  /** The prologue block's header and footer around `heap_listp`, and the epilogue header just before the break `brk`. */
  ghost predicate Framed(w: seq<nat>, listp: nat, brk: nat)
  {
    && listp % 8 == 0 && listp >= 8
    && brk % 8 == 0 && listp + 8 <= brk <= |w|
    && w[listp - 4] == Pack(8, true)
    && w[listp] == Pack(8, true)
    && w[brk - 4] == Pack(0, true)
  }

  /** Rewriting words strictly between the prologue and the epilogue keeps both. */
  lemma {:induction false} FramedKept(w: seq<nat>, w2: seq<nat>, listp: nat, brk: nat, lo: int, hi: int)
    requires Framed(w, listp, brk) && Unchanged(w, w2, lo, hi)
    requires listp + 4 <= lo && hi <= brk - 4
    ensures Framed(w2, listp, brk)
  {
    WordKept(w, w2, listp - 4, lo, hi);
    WordKept(w, w2, listp, lo, hi);
    WordKept(w, w2, brk - 4, lo, hi);
  }

  /** The break of a laid-out heap, one past its epilogue header. */
  function Break(v: seq<Block>, listp: nat): nat
  {
    listp + 8 + Total(v)
  }

  /**
   * The heap's words lay out the list `v`: after the prologue block, whose
   * payload `heap_listp` points at, come the blocks of `v` one after the
   * other, each tagged, and then the epilogue header just before the break.
   */
  ghost predicate Laid(w: seq<nat>, v: seq<Block>, listp: nat)
  {
    && WellFormed(v, listp + 8)
    && Framed(w, listp, Break(v, listp))
    && Tagged(w, v)
  }

  /**
   * Rewriting only the words of blocks `i..j` so that the replacing blocks
   * are tagged keeps the heap laid out, when the new list is well formed and
   * covers the same bytes.
   */
  lemma {:induction false} LaidSplice(w: seq<nat>, w2: seq<nat>, v: seq<Block>, listp: nat, i: nat, j: nat, m: seq<Block>)
    requires Laid(w, v, listp) && i <= j < |v|
    requires Unchanged(w, w2, v[i].ptr - 4, v[j].ptr + v[j].size - 4)
    requires Tagged(w2, m)
    requires WellFormed(v[..i] + m + v[j + 1..], listp + 8) && Total(v[..i] + m + v[j + 1..]) == Total(v)
    ensures Laid(w2, v[..i] + m + v[j + 1..], listp)
  {
    TaggedSplice(w, w2, v, listp + 8, i, j, m);
    BlockWithinRegion(v, listp + 8, i);
    BlockWithinRegion(v, listp + 8, j);
    FramedKept(w, w2, listp, Break(v, listp), v[i].ptr - 4, v[j].ptr + v[j].size - 4);
    var u := v[..i] + m + v[j + 1..];
    assert Break(u, listp) == Break(v, listp);
    assert Framed(w2, listp, Break(u, listp));
    assert Tagged(w2, u);
  }

  /**
   * What the allocator reads around block `i`: its own tags, the footer
   * before it (the previous block's, or the prologue's for the first block)
   * and the header after it (the next block's, or the epilogue for the last).
   */
  lemma {:induction false} Around(w: seq<nat>, v: seq<Block>, listp: nat, i: nat)
    requires Laid(w, v, listp) && i < |v|
    ensures HasTag(w, v[i])
    ensures Break(v, listp) % 8 == 0 && Break(v, listp) <= |w|
    ensures i == 0 ==> v[i].ptr == listp + 8
    ensures i > 0 ==> HasTag(w, v[i - 1]) && v[i - 1].ptr + v[i - 1].size == v[i].ptr
    ensures i + 1 < |v| ==> HasTag(w, v[i + 1]) && v[i + 1].ptr == v[i].ptr + v[i].size
    ensures i + 1 == |v| ==> v[i].ptr + v[i].size == Break(v, listp)
  {
    assert HasTag(w, v[i]);
    if i > 0 {
      assert HasTag(w, v[i - 1]);
    }
    if i + 1 < |v| {
      assert HasTag(w, v[i + 1]);
    } else {
      EndIsBasePlusTotal(v, listp + 8);
    }
  }

  /** The words `mm_init` writes lay out an empty heap. */
  lemma {:induction false} LaidEmpty(w: seq<nat>, listp: nat)
    requires listp % 8 == 0 && listp >= 8 && listp + 8 <= |w|
    requires w[listp - 4] == Pack(8, true) && w[listp] == Pack(8, true) && w[listp + 4] == Pack(0, true)
    ensures Laid(w, [], listp)
  {
  }

  /** Tags written past the end of a well-formed tagged list, without touching its words, tag the list with the new block appended. */
  lemma {:induction false} TaggedAppend(w: seq<nat>, w2: seq<nat>, v: seq<Block>, base: nat, b: Block, hi: int)
    requires WellFormed(v, base) && Tagged(w, v) && HasTag(w2, b)
    requires b.ptr == base + Total(v) && Unchanged(w, w2, b.ptr - 4, hi)
    ensures Tagged(w2, v + [b])
  {
    forall k | 0 <= k < |v| ensures v[k].ptr + v[k].size - 4 <= b.ptr - 4 {
      BlockWithinRegion(v, base, k);
    }
    TaggedKept(w, w2, v, b.ptr - 4, hi);
    var u := v + [b];
    forall k | 0 <= k < |u| ensures HasTag(w2, u[k]) {
      if k < |v| {
        assert u[k] == v[k];
      }
    }
  }

  /**
   * `extend_heap`'s writes: the header and footer of a free block of `size`
   * bytes at the old break, the header taking the place of the old epilogue,
   * then a new epilogue header just before the new break.
   */
  function ExtendWords(w: seq<nat>, brk: nat, size: nat): (r: seq<nat>)
    requires brk % 8 == 0 && brk >= 16 && size % 8 == 0 && size >= 8 && brk + size <= |w|
    ensures HasTag(r, Block(brk, size, false))
    ensures r[brk + size - 4] == Pack(0, true)
    ensures Unchanged(w, r, brk - 4, brk + size)
  {
    var b := Block(brk, size, false);
    var w1 := Stamp(w, b);
    var r := w1[brk + size - 4 := Pack(0, true)];
    assert Unchanged(w1, r, brk + size - 4, brk + size);
    HasTagKept(w1, r, b, brk + size - 4, brk + size);
    UnchangedTrans(w, w1, r, brk - 4, brk + size - 4, brk + size - 4, brk + size, brk - 4, brk + size);
    r
  }

  /** The prologue survives writes past the old epilogue, and the new epilogue frames the grown heap. */
  lemma {:induction false} FramedGrown(w: seq<nat>, w2: seq<nat>, listp: nat, brk: nat, size: nat)
    requires Framed(w, listp, brk) && size % 8 == 0 && brk + size <= |w|
    requires Unchanged(w, w2, brk - 4, brk + size) && w2[brk + size - 4] == Pack(0, true)
    ensures Framed(w2, listp, brk + size)
  {
    WordKept(w, w2, listp - 4, brk - 4, brk + size);
    WordKept(w, w2, listp, brk - 4, brk + size);
  }

  /** `extend_heap`'s writes lay out the list with the new free block appended. */
  lemma {:induction false} LaidAppend(w: seq<nat>, v: seq<Block>, listp: nat, size: nat)
    requires Laid(w, v, listp) && size % 8 == 0 && size >= 8
    requires Break(v, listp) + size <= |w|
    ensures Laid(ExtendWords(w, Break(v, listp), size), Append(v, listp + 8, size), listp)
  {
    var brk := Break(v, listp);
    var w2 := ExtendWords(w, brk, size);
    TaggedAppend(w, w2, v, listp + 8, Block(brk, size, false), brk + size);
    var u := Append(v, listp + 8, size);
    AppendWellFormed(v, listp + 8, size);
    assert u == v + [Block(brk, size, false)];
    assert Break(u, listp) == brk + size;
    FramedGrown(w, w2, listp, brk, size);
  }

  /** A span from the start of one laid-out block to the end of another is shaped like a block. */
  lemma {:induction false} ShapedSpan(a: Block, c: Block, b: Block)
    requires Shaped(a) && Shaped(c) && b.ptr == a.ptr && b.ptr + b.size == c.ptr + c.size && b.size >= 8
    ensures Shaped(b)
  {
    var p, q, r := a.ptr / 8, c.ptr / 8, c.size / 8;
    assert b.size == 8 * (q + r - p);
  }

  /** A shaped block ends on an 8-aligned address. */
  lemma {:induction false} BlockWords(b: Block)
    requires Shaped(b)
    ensures (b.ptr + b.size) % 8 == 0 && b.ptr + b.size >= 16
  {
    EndAligned(b.ptr, b.size);
  }

  /** The sum of two 8-aligned addresses or sizes is 8-aligned. */
  lemma {:induction false} EndAligned(x: int, y: int)
    requires x % 8 == 0 && y % 8 == 0
    ensures (x + y) % 8 == 0
  {
    var p, r := x / 8, y / 8;
    assert x + y == 8 * (p + r);
  }

  /**
   * Writing one block's tags over blocks `i..j`, which it covers exactly,
   * keeps the heap laid out with that block in their place.
   */
  lemma {:induction false} LaidStamp(w: seq<nat>, v: seq<Block>, listp: nat, i: nat, j: nat, b: Block)
    requires Laid(w, v, listp) && i <= j < |v|
    requires b.ptr == v[i].ptr && b.ptr + b.size == v[j].ptr + v[j].size
    requires WellFormed(v[..i] + [b] + v[j + 1..], listp + 8) && Total(v[..i] + [b] + v[j + 1..]) == Total(v)
    ensures Shaped(b) && b.ptr + b.size <= |w|
    ensures Laid(Stamp(w, b), v[..i] + [b] + v[j + 1..], listp)
  {
    assert HasTag(w, v[i]) && HasTag(w, v[j]);
    if i < j {
      SortedNoOverlap(v, listp + 8, i, j);
    }
    ShapedSpan(v[i], v[j], b);
    StampOne(w, b);
    LaidSplice(w, Stamp(w, b), v, listp, i, j, [b]);
  }

  /**
   * Writing the tags of two adjacent blocks, the second first, over blocks
   * `i..j`, which they cover exactly, keeps the heap laid out with the two
   * in their place.
   */
  lemma {:induction false} LaidStampPair(w: seq<nat>, v: seq<Block>, listp: nat, i: nat, j: nat, a: Block, b: Block)
    requires Laid(w, v, listp) && i <= j < |v|
    requires a.ptr == v[i].ptr && a.ptr + a.size == b.ptr && b.ptr + b.size == v[j].ptr + v[j].size
    requires a.size % 8 == 0 && a.size >= 8 && b.size >= 8
    requires WellFormed(v[..i] + [a, b] + v[j + 1..], listp + 8) && Total(v[..i] + [a, b] + v[j + 1..]) == Total(v)
    ensures Shaped(a) && Shaped(b) && b.ptr + b.size <= |w|
    ensures Laid(Stamp(Stamp(w, b), a), v[..i] + [a, b] + v[j + 1..], listp)
  {
    assert HasTag(w, v[i]) && HasTag(w, v[j]);
    BlockWords(a);
    ShapedSpan(Block(b.ptr, 8, false), v[j], b);
    StampPair(w, a, b);
    LaidSplice(w, Stamp(Stamp(w, b), a), v, listp, i, j, [a, b]);
  }

  /**
   * The words `coalesce` reads around block `i`: its own header; the footer
   * just before it, which names the previous block (the prologue for the
   * first block) whose header in turn locates that footer again; and the
   * header just after it (the epilogue after the last block).
   */
  lemma {:induction false} Neighbours(w: seq<nat>, v: seq<Block>, listp: nat, i: nat)
    requires Laid(w, v, listp) && i < |v|
    ensures var bp := v[i].ptr;
      && bp >= 16 && bp % 8 == 0
      && bp + v[i].size <= |w| && bp - 4 < |w|
      && GetSize(w[bp - 4]) == v[i].size && GetAlloc(w[bp - 4]) == v[i].alloc
    ensures var bp := v[i].ptr; var pb := bp - GetSize(w[bp - 8]);
      && pb >= 8 && pb - 4 < |w|
      && pb + GetSize(w[pb - 4]) - 8 == bp - 8
      && GetAlloc(w[bp - 8]) == !PrevFree(v, i)
      && (i > 0 ==> pb == v[i - 1].ptr && GetSize(w[pb - 4]) == v[i - 1].size)
    ensures var nb := v[i].ptr + v[i].size;
      && nb >= 8 && nb - 4 < |w|
      && GetAlloc(w[nb - 4]) == !NextFree(v, i)
      && (i + 1 < |v| ==> nb == v[i + 1].ptr && GetSize(w[nb - 4]) == v[i + 1].size)
  {
    Around(w, v, listp, i);
    BlockWords(v[i]);
    if i > 0 {
      BlockWords(v[i - 1]);
    }
    if i + 1 < |v| {
      BlockWords(v[i + 1]);
    }
  }

  /**
   * The `k`-th payload address a walk from `heap_listp` meets: the prologue's
   * first, then block `k - 1`'s, and the break once past the last block.
   */
  function Stop(v: seq<Block>, listp: nat, k: nat): nat
    requires k <= |v| + 1
  {
    if k == 0 then listp else if k <= |v| then v[k - 1].ptr else Break(v, listp)
  }

  /**
   * What a walk reads at its `k`-th stop: the prologue's header, then the
   * header of block `k - 1`, and the size-0 epilogue header past the last
   * block, where the walk ends; each header's size leads to the next stop.
   */
  lemma {:induction false} Walk(w: seq<nat>, v: seq<Block>, listp: nat, k: nat)
    requires Laid(w, v, listp) && k <= |v| + 1
    ensures var c := Stop(v, listp, k);
      && 8 <= c && c - 4 < |w|
      && (GetSize(w[c - 4]) == 0 <==> k == |v| + 1)
      && (k <= |v| ==> c + GetSize(w[c - 4]) == Stop(v, listp, k + 1))
      && (k == 0 || k == |v| + 1 ==> GetAlloc(w[c - 4]))
      && (0 < k <= |v| ==> GetSize(w[c - 4]) == v[k - 1].size && GetAlloc(w[c - 4]) == v[k - 1].alloc)
  {
    if 0 < k <= |v| {
      Around(w, v, listp, k - 1);
    } else if k == |v| + 1 && |v| > 0 {
      EndIsBasePlusTotal(v, listp + 8);
    }
  }
}

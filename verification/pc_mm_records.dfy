/**
 * The block records of the host engine (pc_side/pc_mm.c) and the list
 * surgery done on them. Records live in a map from handles to `Node` values:
 * a handle stands for a `blk_elt` the host malloc'd, and removing it from the
 * map is freeing it. A ghost sequence `order` lists the handles of the real
 * blocks from the sentinel's successor onwards; `ViewOf` reads the blocks off
 * it, and each piece of surgery is shown to keep the ring linked and to do to
 * the view what the corresponding BlockList function says. `Holders` is what
 * the address index must hold for each address, and is tracked per operation.
 */
module HostRecords {
  import opened BlockList

  /** The identity of a `blk_elt` record. */
  type Handle = nat

  /** A `blk_elt`: its neighbours in the list, the device address and size of its block, and the allocated flag. */
  datatype Node = Node(next: Handle, prev: Handle, ptr: nat, size: nat, alloc: bool)

  function BlockOf(n: Node): Block
  {
    Block(n.ptr, n.size, n.alloc)
  }

  /**
   * `order` threads the records of `nodes` into a circular list through the
   * sentinel `s`: each record's `next` and `prev` are its neighbours in
   * `order`, with `s` closing both ends, and `nodes` holds no other record.
   */
  ghost predicate Linked(nodes: map<Handle, Node>, order: seq<Handle>, s: Handle)
  {
    Listed(nodes, order, s) && NextLinked(nodes, order, s) && PrevLinked(nodes, order, s)
  }

  /** `nodes` holds exactly the sentinel and the distinct records of `order`, and the sentinel closes the ring. */
  ghost predicate Listed(nodes: map<Handle, Node>, order: seq<Handle>, s: Handle)
  {
    && s in nodes && s !in order
    && (forall h :: h in order ==> h in nodes)
    && (forall h :: h in nodes ==> h == s || h in order)
    && (forall i, j :: 0 <= i < j < |order| ==> order[i] != order[j])
    && nodes[s].next == (if order == [] then s else order[0])
    && nodes[s].prev == (if order == [] then s else order[|order| - 1])
  }

  /** Each listed record's `next` is the record after it, or the sentinel. */
  ghost predicate NextLinked(nodes: map<Handle, Node>, order: seq<Handle>, s: Handle)
  {
    forall i :: 0 <= i < |order| ==> order[i] in nodes && nodes[order[i]].next == if i + 1 < |order| then order[i + 1] else s
  }

  /** Each listed record's `prev` is the record before it, or the sentinel. */
  ghost predicate PrevLinked(nodes: map<Handle, Node>, order: seq<Handle>, s: Handle)
  {
    forall i :: 0 <= i < |order| ==> order[i] in nodes && nodes[order[i]].prev == if i == 0 then s else order[i - 1]
  }

  /** The blocks of the records listed in `order`, in that order. */
  function ViewOf(nodes: map<Handle, Node>, order: seq<Handle>): seq<Block>
    requires forall h :: h in order ==> h in nodes
  {
    seq(|order|, i requires 0 <= i < |order| => BlockOf(nodes[order[i]]))
  }

  /** The handles, in list order, of the blocks of view `v` whose address is `k`. */
  function Holders(v: seq<Block>, order: seq<Handle>, k: nat): seq<Handle>
    requires |v| == |order|
  {
    if v == [] then [] else (if v[0].ptr == k then [order[0]] else []) + Holders(v[1..], order[1..], k)
  }

  /** The holders of every address, as one value: what the address index must store. */
  ghost function Index(v: seq<Block>, order: seq<Handle>): imap<nat, seq<Handle>>
    requires |v| == |order|
  {
    imap k: nat | true :: Holders(v, order, k)
  }

  /** The index changes at one address when the holders change there and nowhere else. */
  lemma {:induction false} IndexUpdate(v: seq<Block>, o: seq<Handle>, w: seq<Block>, o2: seq<Handle>, key: nat, x: seq<Handle>)
    requires |v| == |o| && |w| == |o2|
    requires forall k: nat :: Holders(w, o2, k) == if k == key then x else Holders(v, o, k)
    ensures Index(w, o2) == Index(v, o)[key := x]
    ensures Index(v, o)[key] == Holders(v, o, key)
  {
  }

  /** `o` with `h` inserted at position `idx`. */
  function InsertAt(o: seq<Handle>, idx: nat, h: Handle): seq<Handle>
    requires idx <= |o|
  {
    seq(|o| + 1, j requires 0 <= j <= |o| => if j < idx then o[j] else if j == idx then h else o[j - 1])
  }

  /** `o` without its element at position `i`. */
  function RemoveAt(o: seq<Handle>, i: nat): seq<Handle>
    requires i < |o|
  {
    seq(|o| - 1, j requires 0 <= j < |o| - 1 => if j < i then o[j] else o[j + 1])
  }

  /**
   * Link a new record `h` for block `b` right after record `p` (the list
   * surgery of `place`, `shrink_blk` and `mm_sbrk`): the new record points at
   * `p` and at `p`'s old successor, and both of those point back at it.
   */
  function LinkAfter(nodes: map<Handle, Node>, p: Handle, h: Handle, b: Block): map<Handle, Node>
    requires p in nodes && nodes[p].next in nodes
  {
    var q := nodes[p].next;
    var m1 := nodes[h := Node(q, p, b.ptr, b.size, b.alloc)];
    var m2 := m1[q := m1[q].(prev := h)];
    m2[p := m2[p].(next := h)]
  }

  /**
   * `merge_next` on records: `b` absorbs the size of its successor, is linked
   * to the successor's successor, and the successor's record is freed.
   */
  function MergeRecords(nodes: map<Handle, Node>, b: Handle): map<Handle, Node>
    requires b in nodes && nodes[b].next in nodes && nodes[nodes[b].next].next in nodes
  {
    var t := nodes[b].next;
    var q := nodes[t].next;
    var m1 := nodes[b := nodes[b].(size := nodes[b].size + nodes[t].size)];
    var m2 := m1[q := m1[q].(prev := b)];
    var m3 := m2[b := m2[b].(next := q)];
    m3 - {t}
  }

  /**
   * The list surgery of `place` and `shrink_blk`: record `b` is cut down to
   * `asize` bytes with allocated bit `a`, and a new free record `h` for the
   * rest is linked right after it. (`place` sets the bit before linking,
   * `shrink_blk` cuts the size after; the writes touch different fields, so
   * the records end up the same.)
   */
  function SplitRecords(nodes: map<Handle, Node>, b: Handle, h: Handle, asize: nat, a: bool): map<Handle, Node>
    requires b in nodes && nodes[b].next in nodes && asize <= nodes[b].size
  {
    var n := nodes[b];
    LinkAfter(nodes[b := n.(size := asize, alloc := a)], b, h, Block(n.ptr + asize, n.size - asize, false))
  }

  /**
   * `extend_blk` on records when the successor keeps some bytes: the
   * successor shrinks to what `b` does not take and moves up to `b`'s address
   * plus `asize`, then `b` grows to `asize`.
   */
  function MoveRecords(nodes: map<Handle, Node>, b: Handle, asize: nat): map<Handle, Node>
    requires b in nodes && nodes[b].next in nodes && asize <= nodes[b].size + nodes[nodes[b].next].size
  {
    var t := nodes[b].next;
    var n := nodes[t];
    var m := nodes[t := n.(size := nodes[b].size + n.size - asize, ptr := nodes[b].ptr + asize)];
    m[b := m[b].(size := asize)]
  }

  /** `mm_sbrk` on records: a new free record `h` of `incr` bytes, starting where the last block ends, is linked before the sentinel `s`. */
  function AppendRecords(nodes: map<Handle, Node>, s: Handle, h: Handle, incr: nat): map<Handle, Node>
    requires s in nodes && nodes[s].prev in nodes && nodes[nodes[s].prev].next in nodes
  {
    var last := nodes[nodes[s].prev];
    LinkAfter(nodes, nodes[s].prev, h, Block(last.ptr + last.size, incr, false))
  }

  // ---------------------------------------------------------------------------
  // Positions

  lemma {:induction false} InsertAtSplice(o: seq<Handle>, idx: nat, h: Handle)
    requires idx <= |o|
    ensures InsertAt(o, idx, h) == o[..idx] + [h] + o[idx..]
  {
  }

  lemma {:induction false} RemoveAtSplice(o: seq<Handle>, i: nat)
    requires i < |o|
    ensures RemoveAt(o, i) == o[..i] + o[i + 1..]
  {
  }

  lemma {:induction false} InsertBlockAt(v: seq<Block>, idx: nat, b: Block)
    requires idx <= |v|
    ensures var w := v[..idx] + [b] + v[idx..];
      && |w| == |v| + 1
      && (forall j :: 0 <= j < idx ==> w[j] == v[j])
      && w[idx] == b
      && (forall j :: idx < j < |w| ==> w[j] == v[j - 1])
  {
  }

  lemma {:induction false} InsertAtMembers(o: seq<Handle>, idx: nat, h: Handle)
    requires idx <= |o|
    ensures forall x :: x in InsertAt(o, idx, h) <==> x == h || x in o
  {
    var w := InsertAt(o, idx, h);
    forall x | x in w ensures x == h || x in o {
      var j :| 0 <= j < |w| && w[j] == x;
      if j < idx {
        assert o[j] == x;
      } else if j > idx {
        assert o[j - 1] == x;
      }
    }
    forall x | x in o ensures x in w {
      var j :| 0 <= j < |o| && o[j] == x;
      if j < idx {
        assert w[j] == x;
      } else {
        assert w[j + 1] == x;
      }
    }
    assert w[idx] == h;
  }

  lemma {:induction false} RemoveAtMembers(o: seq<Handle>, i: nat)
    requires i < |o|
    requires forall a, c :: 0 <= a < c < |o| ==> o[a] != o[c]
    ensures forall x :: x in RemoveAt(o, i) <==> x != o[i] && x in o
    ensures forall a, c :: 0 <= a < c < |RemoveAt(o, i)| ==> RemoveAt(o, i)[a] != RemoveAt(o, i)[c]
  {
    var w := RemoveAt(o, i);
    forall x | x in w ensures x != o[i] && x in o {
      var j :| 0 <= j < |w| && w[j] == x;
      if j < i {
        assert o[j] == x;
      } else {
        assert o[j + 1] == x;
      }
    }
    forall x | x in o && x != o[i] ensures x in w {
      var j :| 0 <= j < |o| && o[j] == x;
      if j < i {
        assert w[j] == x;
      } else {
        assert w[j - 1] == x;
      }
    }
    forall a, c | 0 <= a < c < |w| ensures w[a] != w[c] {
      var a' := if a < i then a else a + 1;
      var c' := if c < i then c else c + 1;
      assert w[a] == o[a'] && w[c] == o[c'];
    }
  }

  lemma {:induction false} InsertAtDistinct(o: seq<Handle>, idx: nat, h: Handle)
    requires idx <= |o| && h !in o
    requires forall a, c :: 0 <= a < c < |o| ==> o[a] != o[c]
    ensures forall a, c :: 0 <= a < c < |InsertAt(o, idx, h)| ==> InsertAt(o, idx, h)[a] != InsertAt(o, idx, h)[c]
  {
    var w := InsertAt(o, idx, h);
    forall a, c | 0 <= a < c < |w| ensures w[a] != w[c] {
      if a != idx && c != idx {
        var a' := if a < idx then a else a - 1;
        var c' := if c < idx then c else c - 1;
        assert w[a] == o[a'] && w[c] == o[c'];
      } else if a == idx {
        assert w[c] == o[c - 1];
      } else {
        assert w[a] == o[a];
      }
    }
  }

  // ---------------------------------------------------------------------------
  // The list surgery keeps the list linked and does to the view what BlockList says

  /** The neighbours of the record at position `i` of a linked list. */
  lemma {:induction false} LinkedAt(nodes: map<Handle, Node>, order: seq<Handle>, s: Handle, i: nat)
    requires Linked(nodes, order, s) && i < |order|
    ensures order[i] in nodes && order[i] != s
    ensures nodes[order[i]].next == if i + 1 < |order| then order[i + 1] else s
    ensures nodes[order[i]].prev == if i == 0 then s else order[i - 1]
  {
  }

  /** Changing the block data of one listed record keeps the list and changes that block of the view. */
  lemma {:induction false} UpdateLinked(nodes: map<Handle, Node>, order: seq<Handle>, s: Handle, i: nat, n: Node)
    requires Linked(nodes, order, s) && i < |order|
    requires n.next == nodes[order[i]].next && n.prev == nodes[order[i]].prev
    ensures Linked(nodes[order[i] := n], order, s)
    ensures ViewOf(nodes[order[i] := n], order) == ViewOf(nodes, order)[i := BlockOf(n)]
  {
    var m := nodes[order[i] := n];
    forall j | 0 <= j < |order| ensures m[order[j]].next == nodes[order[j]].next && m[order[j]].prev == nodes[order[j]].prev {
    }
    forall j | 0 <= j < |order| ensures ViewOf(m, order)[j] == ViewOf(nodes, order)[i := BlockOf(n)][j] {
      if j != i {
        assert order[j] != order[i];
      }
    }
  }

  /** What `LinkAfter` does to each record. */
  lemma {:induction false} LinkAfterMap(nodes: map<Handle, Node>, p: Handle, h: Handle, b: Block)
    requires p in nodes && nodes[p].next in nodes && h !in nodes
    ensures var m := LinkAfter(nodes, p, h, b); var q := nodes[p].next;
      && (forall x :: x in m <==> x in nodes || x == h)
      && m[h] == Node(q, p, b.ptr, b.size, b.alloc)
      && m[p].next == h && m[q].prev == h
      && m[p].prev == (if p == q then h else nodes[p].prev)
      && m[q].next == (if p == q then h else nodes[q].next)
      && (forall x :: x in nodes ==> BlockOf(m[x]) == BlockOf(nodes[x]))
      && (forall x :: x in nodes && x != p && x != q ==> m[x] == nodes[x])
  {
  }

  /** The records around position `idx` of a linked list: `p` before it and `q` at it, or the sentinel. */
  lemma {:induction false} Around(nodes: map<Handle, Node>, order: seq<Handle>, s: Handle, idx: nat)
    requires Linked(nodes, order, s) && idx <= |order|
    ensures var p := if idx == 0 then s else order[idx - 1];
      var q := if idx == |order| then s else order[idx];
      && p in nodes && q in nodes && nodes[p].next == q && nodes[q].prev == p
      && (idx > 0 || idx < |order| ==> p != q)
  {
    if idx > 0 {
      LinkedAt(nodes, order, s, idx - 1);
      assert order[idx - 1] in order;
    }
    if idx < |order| {
      LinkedAt(nodes, order, s, idx);
      assert order[idx] in order;
    }
  }

  /** After linking a fresh record at `idx`, the sentinel still points at both ends of the list. */
  lemma {:induction false} LinkAfterEnds(nodes: map<Handle, Node>, order: seq<Handle>, s: Handle, idx: nat, h: Handle, b: Block)
    requires Linked(nodes, order, s) && idx <= |order| && h !in nodes
    ensures var p := if idx == 0 then s else order[idx - 1]; p in nodes && nodes[p].next in nodes
    ensures var p := if idx == 0 then s else order[idx - 1];
      var m := LinkAfter(nodes, p, h, b); var o := InsertAt(order, idx, h);
      s in m && m[s].next == o[0] && m[s].prev == o[|o| - 1]
  {
    var p := if idx == 0 then s else order[idx - 1];
    Around(nodes, order, s, idx);
    LinkAfterMap(nodes, p, h, b);
    var o := InsertAt(order, idx, h);
    if idx == 0 {
      assert o[0] == h;
    } else {
      assert o[0] == order[0];
    }
    if idx == |order| {
      assert o[|o| - 1] == h;
    } else {
      assert o[|o| - 1] == order[|order| - 1];
    }
  }

  lemma {:induction false} LinkAfterMembers(nodes: map<Handle, Node>, order: seq<Handle>, s: Handle, idx: nat, h: Handle, b: Block)
    requires Linked(nodes, order, s) && idx <= |order| && h !in nodes
    ensures var p := if idx == 0 then s else order[idx - 1];
      p in nodes && nodes[p].next in nodes && Listed(LinkAfter(nodes, p, h, b), InsertAt(order, idx, h), s)
  {
    var p := if idx == 0 then s else order[idx - 1];
    LinkAfterEnds(nodes, order, s, idx, h, b);
    assert forall x :: x in LinkAfter(nodes, p, h, b) <==> x in nodes || x == h by {
      Around(nodes, order, s, idx);
      LinkAfterMap(nodes, p, h, b);
    }
    InsertAtMembers(order, idx, h);
    InsertAtDistinct(order, idx, h);
  }

  /** Position `j` of the list after linking a fresh record at `idx`: its `next` and `prev` are its new neighbours. */
  lemma {:induction false} LinkAfterAt(nodes: map<Handle, Node>, order: seq<Handle>, s: Handle, idx: nat, h: Handle, b: Block, j: nat)
    requires Linked(nodes, order, s) && idx <= |order| && h !in nodes && j <= |order|
    ensures var p := if idx == 0 then s else order[idx - 1]; p in nodes && nodes[p].next in nodes
    ensures var p := if idx == 0 then s else order[idx - 1];
      var m := LinkAfter(nodes, p, h, b); var o := InsertAt(order, idx, h);
      && o[j] in m
      && m[o[j]].next == (if j + 1 < |o| then o[j + 1] else s)
      && m[o[j]].prev == (if j == 0 then s else o[j - 1])
  {
    var p := if idx == 0 then s else order[idx - 1];
    Around(nodes, order, s, idx);
    LinkAfterMap(nodes, p, h, b);
    var o := InsertAt(order, idx, h);
    if j < idx {
      LinkedAt(nodes, order, s, j);
      assert o[j] == order[j] && order[j] in order;
      if j + 1 < idx {
        assert o[j + 1] == order[j + 1];
        LinkedAt(nodes, order, s, idx - 1);
      }
      if j > 0 {
        assert o[j - 1] == order[j - 1];
      }
    } else if j > idx {
      LinkedAt(nodes, order, s, j - 1);
      assert o[j] == order[j - 1] && order[j - 1] in order;
      if j + 1 < |o| {
        assert o[j + 1] == order[j];
      }
      if j > idx + 1 {
        assert o[j - 1] == order[j - 2];
        LinkedAt(nodes, order, s, idx);
      }
    } else {
      if j > 0 {
        assert o[j - 1] == order[j - 1];
      }
      if j + 1 < |o| {
        assert o[j + 1] == order[j];
      }
    }
  }

  lemma {:induction false} LinkAfterNext(nodes: map<Handle, Node>, order: seq<Handle>, s: Handle, idx: nat, h: Handle, b: Block)
    requires Linked(nodes, order, s) && idx <= |order| && h !in nodes
    ensures var p := if idx == 0 then s else order[idx - 1];
      p in nodes && nodes[p].next in nodes && NextLinked(LinkAfter(nodes, p, h, b), InsertAt(order, idx, h), s)
  {
    var p := if idx == 0 then s else order[idx - 1];
    Around(nodes, order, s, idx);
    var m := LinkAfter(nodes, p, h, b);
    var o := InsertAt(order, idx, h);
    forall j | 0 <= j < |o| ensures o[j] in m && m[o[j]].next == if j + 1 < |o| then o[j + 1] else s {
      LinkAfterAt(nodes, order, s, idx, h, b, j);
    }
    assert NextLinked(m, o, s);
  }

  lemma {:induction false} LinkAfterPrev(nodes: map<Handle, Node>, order: seq<Handle>, s: Handle, idx: nat, h: Handle, b: Block)
    requires Linked(nodes, order, s) && idx <= |order| && h !in nodes
    ensures var p := if idx == 0 then s else order[idx - 1];
      p in nodes && nodes[p].next in nodes && PrevLinked(LinkAfter(nodes, p, h, b), InsertAt(order, idx, h), s)
  {
    var p := if idx == 0 then s else order[idx - 1];
    Around(nodes, order, s, idx);
    var m := LinkAfter(nodes, p, h, b);
    var o := InsertAt(order, idx, h);
    forall j | 0 <= j < |o| ensures o[j] in m && m[o[j]].prev == if j == 0 then s else o[j - 1] {
      LinkAfterAt(nodes, order, s, idx, h, b, j);
    }
    assert PrevLinked(m, o, s);
  }

  /** Linking a fresh record after position `idx - 1` keeps the list linked, with the record at `idx`. */
  lemma {:induction false} LinkAfterLinked(nodes: map<Handle, Node>, order: seq<Handle>, s: Handle, idx: nat, h: Handle, b: Block)
    requires Linked(nodes, order, s) && idx <= |order| && h !in nodes
    ensures var p := if idx == 0 then s else order[idx - 1];
      && p in nodes && nodes[p].next in nodes
      && Linked(LinkAfter(nodes, p, h, b), InsertAt(order, idx, h), s)
  {
    var p := if idx == 0 then s else order[idx - 1];
    Around(nodes, order, s, idx);
    LinkAfterMembers(nodes, order, s, idx, h, b);
    LinkAfterNext(nodes, order, s, idx, h, b);
    LinkAfterPrev(nodes, order, s, idx, h, b);
  }

  /** Linking a fresh record for block `b` after record `p` inserts `b` at `idx` of the view. */
  lemma {:induction false} LinkAfterViewAt(nodes: map<Handle, Node>, order: seq<Handle>, p: Handle, idx: nat, h: Handle, b: Block)
    requires idx <= |order| && (forall x :: x in order ==> x in nodes)
    requires p in nodes && nodes[p].next in nodes && h !in nodes
    ensures forall x :: x in InsertAt(order, idx, h) ==> x in LinkAfter(nodes, p, h, b)
    ensures ViewOf(LinkAfter(nodes, p, h, b), InsertAt(order, idx, h)) ==
      ViewOf(nodes, order)[..idx] + [b] + ViewOf(nodes, order)[idx..]
  {
    LinkAfterMap(nodes, p, h, b);
    InsertAtMembers(order, idx, h);
    var m := LinkAfter(nodes, p, h, b);
    var o := InsertAt(order, idx, h);
    var v := ViewOf(nodes, order);
    var w := v[..idx] + [b] + v[idx..];
    InsertBlockAt(v, idx, b);
    forall j | 0 <= j < |o| ensures ViewOf(m, o)[j] == w[j] {
      if j < idx {
        assert o[j] == order[j];
      } else if j > idx {
        assert o[j] == order[j - 1];
      }
    }
  }

  /** Everything changing the block of the record at position `i` does: the ring stays linked and only block `i` of the view changes. */
  lemma {:induction false} UpdateStep(nodes: map<Handle, Node>, order: seq<Handle>, s: Handle, i: nat, n: Node)
    requires Linked(nodes, order, s) && i < |order|
    requires order[i] in nodes && n.next == nodes[order[i]].next && n.prev == nodes[order[i]].prev
    ensures var m := nodes[order[i] := n];
      && Linked(m, order, s)
      && m[s] == nodes[s]
      && m.Keys == nodes.Keys
      && ViewOf(m, order) == ViewOf(nodes, order)[i := BlockOf(n)]
  {
    LinkedAt(nodes, order, s, i);
    UpdateLinked(nodes, order, s, i, n);
  }


  lemma {:induction false} SplitRecordsIs(nodes: map<Handle, Node>, b: Handle, h: Handle, asize: nat, a: bool)
    requires b in nodes && nodes[b].next in nodes && asize <= nodes[b].size
    ensures var n := nodes[b];
      SplitRecords(nodes, b, h, asize, a) == LinkAfter(nodes[b := n.(size := asize, alloc := a)], b, h, Block(n.ptr + asize, n.size - asize, false))
  {
  }

  lemma {:induction false} MoveRecordsIs(nodes: map<Handle, Node>, b: Handle, asize: nat)
    requires b in nodes && nodes[b].next in nodes && asize <= nodes[b].size + nodes[nodes[b].next].size
    ensures var t := nodes[b].next; var n := nodes[t];
      var m := nodes[t := n.(size := nodes[b].size + n.size - asize, ptr := nodes[b].ptr + asize)];
      MoveRecords(nodes, b, asize) == m[b := m[b].(size := asize)]
  {
  }

  /** `SplitRecords` keeps the ring linked, with the new record right after record `i`. */
  lemma {:induction false} SplitRecordsLinked(nodes: map<Handle, Node>, order: seq<Handle>, s: Handle, i: nat, asize: nat, a: bool, h: Handle)
    requires Linked(nodes, order, s) && i < |order| && h !in nodes
    requires order[i] in nodes && nodes[order[i]].next in nodes && asize <= nodes[order[i]].size
    ensures Linked(SplitRecords(nodes, order[i], h, asize, a), InsertAt(order, i + 1, h), s)
    ensures BlockOf(SplitRecords(nodes, order[i], h, asize, a)[s]) == BlockOf(nodes[s])
    ensures forall x :: x in SplitRecords(nodes, order[i], h, asize, a) ==> x in nodes || x == h
    ensures h in SplitRecords(nodes, order[i], h, asize, a)
    ensures SplitRecords(nodes, order[i], h, asize, a)[h].ptr == nodes[order[i]].ptr + asize
    ensures SplitRecords(nodes, order[i], h, asize, a)[order[i]].ptr == nodes[order[i]].ptr
  {
    var p := order[i];
    var n := nodes[p];
    var n' := n.(size := asize, alloc := a);
    var b := Block(n.ptr + asize, n.size - asize, false);
    LinkedAt(nodes, order, s, i);
    var m1 := nodes[p := n'];
    assert Linked(m1, order, s) by {
      UpdateLinks(nodes, order, s, i, p, n');
    }
    var m := LinkAfter(m1, p, h, b);
    assert SplitRecords(nodes, p, h, asize, a) == m by {
      SplitRecordsIs(nodes, p, h, asize, a);
    }
    assert Linked(m, InsertAt(order, i + 1, h), s) by {
      LinkAfterLinked(m1, order, s, i + 1, h, b);
    }
    LinkAfterMap(m1, p, h, b);
  }

  /** What `SplitRecords` does to the view: block `i` is cut down and the new block follows it. */
  lemma {:induction false} SplitRecordsView(nodes: map<Handle, Node>, order: seq<Handle>, i: nat, asize: nat, a: bool, h: Handle)
    requires i < |order| && (forall x :: x in order ==> x in nodes) && h !in nodes
    requires forall a, c :: 0 <= a < c < |order| ==> order[a] != order[c]
    requires nodes[order[i]].next in nodes && asize <= nodes[order[i]].size
    ensures var v := ViewOf(nodes, order); var w := v[i := v[i].(size := asize, alloc := a)];
      ViewOf(SplitRecords(nodes, order[i], h, asize, a), InsertAt(order, i + 1, h))
        == w[..i + 1] + [Block(v[i].ptr + asize, v[i].size - asize, false)] + w[i + 1..]
  {
    var p := order[i];
    var n := nodes[p];
    var n' := n.(size := asize, alloc := a);
    var b := Block(n.ptr + asize, n.size - asize, false);
    var m1 := nodes[p := n'];
    SplitRecordsIs(nodes, p, h, asize, a);
    UpdateView(nodes, order, i, n');
    LinkAfterViewAt(m1, order, p, i + 1, h, b);
  }

  /** Changing the block of the record at position `i` changes block `i` of the view and nothing else. */
  lemma {:induction false} UpdateView(nodes: map<Handle, Node>, order: seq<Handle>, i: nat, n: Node)
    requires i < |order| && (forall x :: x in order ==> x in nodes)
    requires forall a, c :: 0 <= a < c < |order| ==> order[a] != order[c]
    ensures forall x :: x in order ==> x in nodes[order[i] := n]
    ensures ViewOf(nodes[order[i] := n], order) == ViewOf(nodes, order)[i := BlockOf(n)]
  {
    var m := nodes[order[i] := n];
    forall j | 0 <= j < |order| ensures ViewOf(m, order)[j] == ViewOf(nodes, order)[i := BlockOf(n)][j] {
      if j < i {
        assert order[j] != order[i];
      } else if j > i {
        assert order[i] != order[j];
      }
    }
  }

  lemma {:induction false} AppendRecordsIs(nodes: map<Handle, Node>, s: Handle, h: Handle, incr: nat)
    requires s in nodes && nodes[s].prev in nodes && nodes[nodes[s].prev].next in nodes
    ensures var p := nodes[s].prev;
      AppendRecords(nodes, s, h, incr) == LinkAfter(nodes, p, h, Block(nodes[p].ptr + nodes[p].size, incr, false))
  {
  }

  /** `MoveRecords` keeps the ring linked and leaves the sentinel and the handles alone. */
  lemma {:induction false} MoveRecordsLinked(nodes: map<Handle, Node>, order: seq<Handle>, s: Handle, i: nat, asize: nat)
    requires Linked(nodes, order, s) && i + 1 < |order|
    requires order[i] in nodes && nodes[order[i]].next in nodes
    requires asize <= nodes[order[i]].size + nodes[nodes[order[i]].next].size
    ensures nodes[order[i]].next == order[i + 1]
    ensures Linked(MoveRecords(nodes, order[i], asize), order, s)
    ensures MoveRecords(nodes, order[i], asize)[s] == nodes[s]
    ensures MoveRecords(nodes, order[i], asize).Keys == nodes.Keys
  {
    var b := order[i];
    LinkedAt(nodes, order, s, i);
    LinkedAt(nodes, order, s, i + 1);
    var t := order[i + 1];
    var n := nodes[t];
    var n' := n.(size := nodes[b].size + n.size - asize, ptr := nodes[b].ptr + asize);
    var m1 := nodes[t := n'];
    assert Linked(m1, order, s) && m1[s] == nodes[s] && m1.Keys == nodes.Keys by {
      UpdateLinks(nodes, order, s, i + 1, t, n');
    }
    var m := m1[b := m1[b].(size := asize)];
    assert MoveRecords(nodes, b, asize) == m by {
      MoveRecordsIs(nodes, b, asize);
    }
    assert Linked(m, order, s) && m[s] == m1[s] && m.Keys == m1.Keys by {
      UpdateLinks(m1, order, s, i, b, m1[b].(size := asize));
    }
  }

  /** What `MoveRecords` does to the view: block `i + 1` shrinks and moves up, block `i` grows to `asize`. */
  lemma {:induction false} MoveRecordsView(nodes: map<Handle, Node>, order: seq<Handle>, i: nat, asize: nat)
    requires i + 1 < |order| && (forall x :: x in order ==> x in nodes)
    requires forall a, c :: 0 <= a < c < |order| ==> order[a] != order[c]
    requires nodes[order[i]].next == order[i + 1]
    requires asize <= nodes[order[i]].size + nodes[order[i + 1]].size
    ensures var v := ViewOf(nodes, order);
      ViewOf(MoveRecords(nodes, order[i], asize), order)
        == v[i + 1 := v[i + 1].(size := v[i].size + v[i + 1].size - asize, ptr := v[i].ptr + asize)][i := v[i].(size := asize)]
  {
    var b := order[i];
    var t := order[i + 1];
    var n := nodes[t];
    var n' := n.(size := nodes[b].size + n.size - asize, ptr := nodes[b].ptr + asize);
    UpdateView(nodes, order, i + 1, n');
    var m1 := nodes[t := n'];
    MoveRecordsIs(nodes, b, asize);
    assert order[i] != order[i + 1];
    UpdateView(m1, order, i, m1[b].(size := asize));
  }

  /** `AppendRecords` keeps the ring linked, with the new record last. */
  lemma {:induction false} AppendRecordsLinked(nodes: map<Handle, Node>, order: seq<Handle>, s: Handle, incr: nat, h: Handle)
    requires Linked(nodes, order, s) && h !in nodes
    requires s in nodes && nodes[s].prev in nodes && nodes[nodes[s].prev].next in nodes
    ensures nodes[s].prev == if order == [] then s else order[|order| - 1]
    ensures Linked(AppendRecords(nodes, s, h, incr), InsertAt(order, |order|, h), s)
    ensures BlockOf(AppendRecords(nodes, s, h, incr)[s]) == BlockOf(nodes[s])
    ensures forall x :: x in AppendRecords(nodes, s, h, incr) ==> x in nodes || x == h
    ensures var last := nodes[nodes[s].prev];
      h in AppendRecords(nodes, s, h, incr) && AppendRecords(nodes, s, h, incr)[h].ptr == last.ptr + last.size
  {
    var p := nodes[s].prev;
    var b := Block(nodes[p].ptr + nodes[p].size, incr, false);
    Around(nodes, order, s, |order|);
    assert p == if |order| == 0 then s else order[|order| - 1];
    AppendRecordsIs(nodes, s, h, incr);
    var m := LinkAfter(nodes, p, h, b);
    assert AppendRecords(nodes, s, h, incr) == m;
    assert Linked(m, InsertAt(order, |order|, h), s) by {
      LinkAfterLinked(nodes, order, s, |order|, h, b);
    }
    LinkAfterMap(nodes, p, h, b);
  }

  /** What `AppendRecords` does to the view: the new block comes last. */
  lemma {:induction false} AppendRecordsView(nodes: map<Handle, Node>, order: seq<Handle>, s: Handle, incr: nat, h: Handle)
    requires (forall x :: x in order ==> x in nodes) && h !in nodes
    requires s in nodes && nodes[s].prev in nodes && nodes[nodes[s].prev].next in nodes
    ensures var v := ViewOf(nodes, order); var last := nodes[nodes[s].prev];
      ViewOf(AppendRecords(nodes, s, h, incr), InsertAt(order, |order|, h))
        == v[..|v|] + [Block(last.ptr + last.size, incr, false)] + v[|v|..]
  {
    var p := nodes[s].prev;
    var b := Block(nodes[p].ptr + nodes[p].size, incr, false);
    AppendRecordsIs(nodes, s, h, incr);
    LinkAfterViewAt(nodes, order, p, |order|, h, b);
  }

  /** Changing the block data of the record `p` at position `i` keeps the ring linked and leaves the sentinel and the handles alone. */
  lemma {:induction false} UpdateLinks(nodes: map<Handle, Node>, order: seq<Handle>, s: Handle, i: nat, p: Handle, n: Node)
    requires Linked(nodes, order, s) && i < |order| && order[i] == p
    requires p in nodes && n.next == nodes[p].next && n.prev == nodes[p].prev
    ensures Linked(nodes[p := n], order, s) && nodes[p := n][s] == nodes[s] && nodes[p := n].Keys == nodes.Keys
  {
    var m := nodes[p := n];
    LinkedAt(nodes, order, s, i);
    forall j | 0 <= j < |order| ensures m[order[j]].next == nodes[order[j]].next && m[order[j]].prev == nodes[order[j]].prev {
    }
  }

  /** What `MergeRecords` does to each record. */
  lemma {:induction false} MergeRecordsMap(nodes: map<Handle, Node>, b: Handle)
    requires b in nodes && nodes[b].next in nodes && nodes[nodes[b].next].next in nodes
    requires var t := nodes[b].next; var q := nodes[t].next; b != t && q != t && q != b
    ensures var m := MergeRecords(nodes, b); var t := nodes[b].next; var q := nodes[t].next;
      && (forall x :: x in m <==> x in nodes && x != t)
      && m[b] == nodes[b].(size := nodes[b].size + nodes[t].size, next := q)
      && m[q] == nodes[q].(prev := b)
      && (forall x :: x in nodes && x != b && x != q && x != t ==> m[x] == nodes[x])
  {
  }

  /** The three records `merge_next` touches: `order[i]`, its successor, and the one after (or the sentinel). */
  lemma {:induction false} MergeSetup(nodes: map<Handle, Node>, order: seq<Handle>, s: Handle, i: nat)
    requires Linked(nodes, order, s) && i + 1 < |order|
    ensures var b := order[i]; var t := order[i + 1];
      var q := if i + 2 < |order| then order[i + 2] else s;
      && b in nodes && t in nodes && q in nodes
      && nodes[b].next == t && nodes[t].next == q
      && b != t && q != t && q != b
  {
    LinkedAt(nodes, order, s, i);
    LinkedAt(nodes, order, s, i + 1);
  }

  lemma {:induction false} MergeMembers(nodes: map<Handle, Node>, order: seq<Handle>, s: Handle, i: nat)
    requires Linked(nodes, order, s) && i + 1 < |order|
    ensures order[i] in nodes && nodes[order[i]].next in nodes && nodes[nodes[order[i]].next].next in nodes
    ensures order[i] in nodes && nodes[order[i]].next in nodes && nodes[nodes[order[i]].next].next in nodes
    ensures Listed(MergeRecords(nodes, order[i]), RemoveAt(order, i + 1), s)
  {
    MergeSetup(nodes, order, s, i);
    MergeRecordsMap(nodes, order[i]);
    RemoveAtMembers(order, i + 1);
    if i + 2 < |order| {
      LinkedAt(nodes, order, s, i + 2);
    }
  }

  lemma {:induction false} MergeNextLinks(nodes: map<Handle, Node>, order: seq<Handle>, s: Handle, i: nat)
    requires Linked(nodes, order, s) && i + 1 < |order|
    ensures order[i] in nodes && nodes[order[i]].next in nodes && nodes[nodes[order[i]].next].next in nodes
    ensures NextLinked(MergeRecords(nodes, order[i]), RemoveAt(order, i + 1), s)
  {
    MergeSetup(nodes, order, s, i);
    MergeRecordsMap(nodes, order[i]);
    var m := MergeRecords(nodes, order[i]);
    var o := RemoveAt(order, i + 1);
    forall j | 0 <= j < |o| ensures o[j] in m && m[o[j]].next == if j + 1 < |o| then o[j + 1] else s {
      if j < i {
        LinkedAt(nodes, order, s, j);
        assert o[j] == order[j];
      } else if j > i {
        LinkedAt(nodes, order, s, j + 1);
        assert o[j] == order[j + 1];
      }
    }
    assert forall j :: 0 <= j < |o| ==> o[j] in m && m[o[j]].next == if j + 1 < |o| then o[j + 1] else s;
    assert NextLinked(m, o, s);
  }

  lemma {:induction false} MergePrevLinks(nodes: map<Handle, Node>, order: seq<Handle>, s: Handle, i: nat)
    requires Linked(nodes, order, s) && i + 1 < |order|
    ensures order[i] in nodes && nodes[order[i]].next in nodes && nodes[nodes[order[i]].next].next in nodes
    ensures PrevLinked(MergeRecords(nodes, order[i]), RemoveAt(order, i + 1), s)
  {
    MergeSetup(nodes, order, s, i);
    MergeRecordsMap(nodes, order[i]);
    var m := MergeRecords(nodes, order[i]);
    var o := RemoveAt(order, i + 1);
    forall j | 0 <= j < |o| ensures o[j] in m && m[o[j]].prev == if j == 0 then s else o[j - 1] {
      if j < i {
        LinkedAt(nodes, order, s, j);
        assert o[j] == order[j] && (j > 0 ==> o[j - 1] == order[j - 1]);
        assert i + 2 < |order| ==> order[j] != order[i + 2];
      } else if j == i {
        LinkedAt(nodes, order, s, j);
        assert o[j] == order[j] && (j > 0 ==> o[j - 1] == order[j - 1]);
      } else if j == i + 1 {
        LinkedAt(nodes, order, s, i + 2);
        assert o[j] == order[i + 2] && o[j - 1] == order[i];
      } else {
        LinkedAt(nodes, order, s, j + 1);
        assert o[j] == order[j + 1] && o[j - 1] == order[j];
        assert order[j + 1] != order[i + 2];
      }
    }
    assert forall j :: 0 <= j < |o| ==> o[j] in m && m[o[j]].prev == if j == 0 then s else o[j - 1];
    assert PrevLinked(m, o, s);
  }

  /** Merging record `order[i]` with its successor keeps the list linked, without `order[i + 1]`. */
  lemma {:induction false} MergeRecordsLinked(nodes: map<Handle, Node>, order: seq<Handle>, s: Handle, i: nat)
    requires Linked(nodes, order, s) && i + 1 < |order|
    ensures var b := order[i];
      && nodes[b].next in nodes && nodes[nodes[b].next].next in nodes
      && Linked(MergeRecords(nodes, b), RemoveAt(order, i + 1), s)
  {
    MergeSetup(nodes, order, s, i);
    MergeMembers(nodes, order, s, i);
    MergeNextLinks(nodes, order, s, i);
    MergePrevLinks(nodes, order, s, i);
  }

  /** On the view, merging record `order[i]` with its successor `order[i + 1]` is `MergeNext` at `i`. */
  lemma {:induction false} MergeRecordsViewAt(nodes: map<Handle, Node>, order: seq<Handle>, i: nat)
    requires i + 1 < |order| && (forall x :: x in order ==> x in nodes)
    requires forall a, c :: 0 <= a < c < |order| ==> order[a] != order[c]
    requires nodes[order[i]].next == order[i + 1]
    requires var q := nodes[order[i + 1]].next; q in nodes && q != order[i] && q != order[i + 1]
    ensures forall x :: x in RemoveAt(order, i + 1) ==> x in MergeRecords(nodes, order[i])
    ensures ViewOf(MergeRecords(nodes, order[i]), RemoveAt(order, i + 1)) == MergeNext(ViewOf(nodes, order), i)
  {
    var b := order[i];
    MergeRecordsMap(nodes, b);
    RemoveAtMembers(order, i + 1);
    var m := MergeRecords(nodes, b);
    var o := RemoveAt(order, i + 1);
    var v := ViewOf(nodes, order);
    var w := MergeNext(v, i);
    MergeNextAt(v, i);
    forall j | 0 <= j < |o| ensures ViewOf(m, o)[j] == w[j] {
      if j < i {
        assert o[j] == order[j];
      } else if j > i {
        assert o[j] == order[j + 1];
      }
    }
  }

  /** On the view, merging record `order[i]` with its successor is `MergeNext` at `i`. */
  lemma {:induction false} MergeRecordsView(nodes: map<Handle, Node>, order: seq<Handle>, s: Handle, i: nat)
    requires Linked(nodes, order, s) && i + 1 < |order|
    ensures var b := order[i];
      && nodes[b].next in nodes && nodes[nodes[b].next].next in nodes
      && (forall x :: x in RemoveAt(order, i + 1) ==> x in MergeRecords(nodes, b))
      && ViewOf(MergeRecords(nodes, b), RemoveAt(order, i + 1)) == MergeNext(ViewOf(nodes, order), i)
  {
    MergeSetup(nodes, order, s, i);
    MergeRecordsViewAt(nodes, order, i);
  }

  // ---------------------------------------------------------------------------
  // Holders: which records the index should list under an address

  lemma {:induction false} HoldersAppend(v1: seq<Block>, o1: seq<Handle>, v2: seq<Block>, o2: seq<Handle>, k: nat)
    requires |v1| == |o1| && |v2| == |o2|
    ensures Holders(v1 + v2, o1 + o2, k) == Holders(v1, o1, k) + Holders(v2, o2, k)
  {
    if v1 != [] {
      assert (v1 + v2)[1..] == v1[1..] + v2;
      assert (o1 + o2)[1..] == o1[1..] + o2;
      HoldersAppend(v1[1..], o1[1..], v2, o2, k);
    } else {
      assert v1 + v2 == v2 && o1 + o2 == o2;
    }
  }

  lemma {:induction false} HoldersSingle(b: Block, h: Handle, k: nat)
    ensures Holders([b], [h], k) == if b.ptr == k then [h] else []
  {
    assert Holders([b][1..], [h][1..], k) == [];
  }

  lemma {:induction false} HoldersNone(v: seq<Block>, o: seq<Handle>, k: nat)
    requires |v| == |o|
    requires forall j :: 0 <= j < |v| ==> v[j].ptr != k
    ensures Holders(v, o, k) == []
  {
    if v != [] {
      HoldersNone(v[1..], o[1..], k);
    }
  }

  /** Only records whose block addresses agree have the same holders: a view with the same addresses has the same holders. */
  lemma {:induction false} HoldersSamePtrs(v1: seq<Block>, v2: seq<Block>, o: seq<Handle>, k: nat)
    requires |v1| == |v2| == |o|
    requires forall j :: 0 <= j < |v1| ==> v1[j].ptr == v2[j].ptr
    ensures Holders(v1, o, k) == Holders(v2, o, k)
  {
    if v1 != [] {
      HoldersSamePtrs(v1[1..], v2[1..], o[1..], k);
    }
  }

  /** In a well-formed view an address has the single holder of the block that `Find` returns, or none. */
  lemma {:induction false} HoldersFind(v: seq<Block>, base: nat, o: seq<Handle>, k: nat)
    requires WellFormed(v, base) && |v| == |o|
    ensures Holders(v, o, k) == match Find(v, k) case None => [] case Some(i) => [o[i]]
  {
    FindSpec(v, k);
    match Find(v, k)
    case None =>
      HoldersNone(v, o, k);
    case Some(i) =>
      assert v == v[..i] + [v[i]] + v[i + 1..];
      assert o == o[..i] + [o[i]] + o[i + 1..];
      forall j | 0 <= j < |v| && j != i ensures v[j].ptr != k {
        DistinctPtrs(v, base, i, j);
      }
      HoldersAppend(v[..i] + [v[i]], o[..i] + [o[i]], v[i + 1..], o[i + 1..], k);
      HoldersAppend(v[..i], o[..i], [v[i]], [o[i]], k);
      HoldersNone(v[..i], o[..i], k);
      HoldersNone(v[i + 1..], o[i + 1..], k);
      HoldersSingle(v[i], o[i], k);
  }

  /** Holders of a three-part splice, part by part. */
  lemma {:induction false} HoldersSplice(a: seq<Block>, oa: seq<Handle>, m: seq<Block>, om: seq<Handle>, c: seq<Block>, oc: seq<Handle>, k: nat)
    requires |a| == |oa| && |m| == |om| && |c| == |oc|
    ensures Holders(a + m + c, oa + om + oc, k) == Holders(a, oa, k) + Holders(m, om, k) + Holders(c, oc, k)
  {
    HoldersAppend(a + m, oa + om, c, oc, k);
    HoldersAppend(a, oa, m, om, k);
  }

  /** Inserting a block whose address no other block has gives it its handle as sole holder and changes nothing else. */
  lemma {:induction false} HoldersInsertFresh(v: seq<Block>, o: seq<Handle>, idx: nat, b: Block, h: Handle, k: nat)
    requires |v| == |o| && idx <= |v|
    requires forall j :: 0 <= j < |v| ==> v[j].ptr != b.ptr
    ensures Holders(v[..idx] + [b] + v[idx..], InsertAt(o, idx, h), k) == if k == b.ptr then [h] else Holders(v, o, k)
  {
    InsertAtSplice(o, idx, h);
    var v1, v2 := v[..idx], v[idx..];
    var o1, o2 := o[..idx], o[idx..];
    HoldersSplice(v1, o1, [b], [h], v2, o2, k);
    HoldersSingle(b, h, k);
    if k == b.ptr {
      forall j | 0 <= j < |v1| ensures v1[j].ptr != k {
        assert v1[j] == v[j];
      }
      forall j | 0 <= j < |v2| ensures v2[j].ptr != k {
        assert v2[j] == v[idx + j];
      }
      HoldersNone(v1, o1, k);
      HoldersNone(v2, o2, k);
    } else {
      assert v == v1 + v2 && o == o1 + o2;
      HoldersAppend(v1, o1, v2, o2, k);
    }
  }

  /** Removing the only block with its address leaves that address without holder and changes nothing else. */
  lemma {:induction false} HoldersRemoveOnly(v: seq<Block>, o: seq<Handle>, i: nat, k: nat)
    requires |v| == |o| && i < |v|
    requires forall j :: 0 <= j < |v| && j != i ==> v[j].ptr != v[i].ptr
    ensures Holders(v, o, v[i].ptr) == [o[i]]
    ensures Holders(v[..i] + v[i + 1..], RemoveAt(o, i), k) == if k == v[i].ptr then [] else Holders(v, o, k)
  {
    RemoveAtSplice(o, i);
    var v1, v2 := v[..i], v[i + 1..];
    var o1, o2 := o[..i], o[i + 1..];
    assert v == v1 + [v[i]] + v2 && o == o1 + [o[i]] + o2;
    var p := v[i].ptr;
    forall j | 0 <= j < |v1| ensures v1[j].ptr != p {
      assert v1[j] == v[j];
    }
    forall j | 0 <= j < |v2| ensures v2[j].ptr != p {
      assert v2[j] == v[i + 1 + j];
    }
    HoldersNone(v1, o1, p);
    HoldersNone(v2, o2, p);
    HoldersSplice(v1, o1, [v[i]], [o[i]], v2, o2, p);
    HoldersSingle(v[i], o[i], p);
    HoldersAppend(v1, o1, v2, o2, k);
    if k != p {
      HoldersSplice(v1, o1, [v[i]], [o[i]], v2, o2, k);
      HoldersSingle(v[i], o[i], k);
    }
  }

  /** Merging block `i + 1` into block `i` takes the merged block's address out of the index and nothing else. */
  lemma {:induction false} HoldersMergeNext(v: seq<Block>, base: nat, o: seq<Handle>, i: nat, k: nat)
    requires WellFormed(v, base) && |v| == |o| && i + 1 < |v|
    ensures Holders(v, o, v[i + 1].ptr) == [o[i + 1]]
    ensures Holders(MergeNext(v, i), RemoveAt(o, i + 1), k) == if k == v[i + 1].ptr then [] else Holders(v, o, k)
  {
    forall j | 0 <= j < |v| && j != i + 1 ensures v[j].ptr != v[i + 1].ptr {
      DistinctPtrs(v, base, j, i + 1);
    }
    HoldersRemoveOnly(v, o, i + 1, k);
    MergeNextAt(v, i);
    HoldersSamePtrs(MergeNext(v, i), v[..i + 1] + v[i + 2..], RemoveAt(o, i + 1), k);
  }

  /** Splitting block `i` gives the tail's address the new record `h` as holder and changes nothing else. */
  lemma {:induction false} HoldersSplit(v: seq<Block>, base: nat, o: seq<Handle>, i: nat, asize: nat, h: Handle, k: nat)
    requires WellFormed(v, base) && |v| == |o| && i < |v| && 0 < asize < v[i].size
    ensures Holders(v, o, v[i].ptr + asize) == []
    ensures Holders(Split(v, i, asize), InsertAt(o, i + 1, h), k) == if k == v[i].ptr + asize then [h] else Holders(v, o, k)
  {
    InteriorNotAPtr(v, base, i, asize);
    var nb := Block(v[i].ptr + asize, v[i].size - asize, false);
    HoldersInsertFresh(v, o, i + 1, nb, h, k);
    HoldersNone(v, o, nb.ptr);
    SplitAt(v, i, asize);
    InsertBlockAt(v, i + 1, nb);
    HoldersSamePtrs(Split(v, i, asize), v[..i + 1] + [nb] + v[i + 1..], InsertAt(o, i + 1, h), k);
  }

  /** Setting an allocated bit changes no address. */
  lemma {:induction false} HoldersSetAlloc(v: seq<Block>, o: seq<Handle>, i: nat, a: bool, k: nat)
    requires |v| == |o| && i < |v|
    ensures Holders(SetAlloc(v, i, a), o, k) == Holders(v, o, k)
  {
    HoldersSamePtrs(SetAlloc(v, i, a), v, o, k);
  }

  /** The appended block's address, the old end of the heap, gets the new record `h` as holder. */
  lemma {:induction false} HoldersGrow(v: seq<Block>, base: nat, o: seq<Handle>, incr: nat, h: Handle, k: nat)
    requires WellFormed(v, base) && |v| == |o|
    ensures Holders(v, o, base + Total(v)) == []
    ensures Holders(Append(v, base, incr), o + [h], k) == if k == base + Total(v) then [h] else Holders(v, o, k)
  {
    var nb := Block(base + Total(v), incr, false);
    HoldersAppend(v, o, [nb], [h], k);
    HoldersSingle(nb, h, k);
    forall j | 0 <= j < |v| ensures v[j].ptr != nb.ptr {
      BlockWithinRegion(v, base, j);
    }
    HoldersNone(v, o, nb.ptr);
  }

  /**
   * Moving the boundary between blocks `i` and `i + 1` forward re-keys block
   * `i + 1`: its old address loses its holder and the new one gains it.
   */
  lemma {:induction false} HoldersMoveBoundary(v: seq<Block>, base: nat, o: seq<Handle>, i: nat, asize: nat, k: nat)
    requires WellFormed(v, base) && |v| == |o| && i + 1 < |v|
    requires v[i].size < asize < v[i].size + v[i + 1].size
    ensures Holders(v, o, v[i + 1].ptr) == [o[i + 1]]
    ensures v[i].ptr + asize != v[i + 1].ptr
    ensures Holders(v, o, v[i].ptr + asize) == []
    ensures Holders(MoveBoundary(v, i, asize), o, k) ==
      if k == v[i + 1].ptr then [] else if k == v[i].ptr + asize then [o[i + 1]] else Holders(v, o, k)
  {
    var nb := Block(v[i].ptr + asize, v[i].size + v[i + 1].size - asize, v[i + 1].alloc);
    forall j | 0 <= j < |v| && j != i + 1 ensures v[j].ptr != v[i + 1].ptr {
      DistinctPtrs(v, base, j, i + 1);
    }
    InteriorNotAPtr(v, base, i + 1, asize - v[i].size);
    HoldersReplace(v, o, i + 1, nb, k);
    MoveBoundaryAt(v, i, asize);
    HoldersSamePtrs(MoveBoundary(v, i, asize), v[i + 1 := nb], o, k);
  }

  /**
   * Giving position `p` a block at an address no block has re-keys its
   * record: the old address loses it and the new one gains it.
   */
  lemma {:induction false} HoldersReplace(v: seq<Block>, o: seq<Handle>, p: nat, b: Block, k: nat)
    requires |v| == |o| && p < |v|
    requires forall j :: 0 <= j < |v| && j != p ==> v[j].ptr != v[p].ptr
    requires forall j :: 0 <= j < |v| ==> v[j].ptr != b.ptr
    ensures Holders(v, o, v[p].ptr) == [o[p]] && Holders(v, o, b.ptr) == []
    ensures Holders(v[p := b], o, k) == if k == v[p].ptr then [] else if k == b.ptr then [o[p]] else Holders(v, o, k)
  {
    var u := v[..p] + v[p + 1..];
    var ou := RemoveAt(o, p);
    assert Holders(v, o, v[p].ptr) == [o[p]] && Holders(u, ou, k) == if k == v[p].ptr then [] else Holders(v, o, k) by {
      HoldersRemoveOnly(v, o, p, k);
    }
    assert Holders(v[p := b], o, k) == if k == b.ptr then [o[p]] else Holders(u, ou, k) by {
      forall j | 0 <= j < |u| ensures u[j].ptr != b.ptr {
        if j < p {
          assert u[j] == v[j];
        } else {
          assert u[j] == v[j + 1];
        }
      }
      HoldersInsertFresh(u, ou, p, b, o[p], k);
      assert InsertAt(ou, p, o[p]) == o;
      assert u[..p] + [b] + u[p..] == v[p := b];
    }
    HoldersNone(v, o, b.ptr);
    assert b.ptr != v[p].ptr;
  }

}

/**
 * The host's address index (pc_side/dict.c): a hash table with chaining that
 * maps a device address to the record of the block at that address. The
 * bucket of a key is `key % size`; the table starts with 128 buckets and
 * doubles when it holds more entries than buckets. A bucket's chain is
 * modelled as a sequence of entries: its head slot (key 0 when empty) is the
 * first element and the malloc'd chain nodes follow it.
 */
module AddressIndex {
  import opened Wrappers

  /** One chained entry: a device address and the block handle stored under it. */
  datatype Entry = Entry(key: nat, val: nat)

  /** Number of buckets that `dict_create` allocates. */
  const START_COUNT: nat := 128

  /** The values stored under key `k` in chain `c`, in chain order. */
  function KeyVals(c: seq<Entry>, k: nat): seq<nat>
  {
    if c == [] then [] else (if c[0].key == k then [c[0].val] else []) + KeyVals(c[1..], k)
  }

  /** Chain `c` without its first entry of key `k` (unchanged when there is none). */
  function RemoveFirst(c: seq<Entry>, k: nat): seq<Entry>
  {
    if c == [] then []
    else if c[0].key == k then c[1..]
    else [c[0]] + RemoveFirst(c[1..], k)
  }

  /** The entries of chain `c` whose key hashes to bucket `m` of a table of `n` buckets. */
  function ModFilter(c: seq<Entry>, n: nat, m: nat): seq<Entry>
    requires n > 0
  {
    if c == [] then []
    else (if c[0].key % n == m then [c[0]] else []) + ModFilter(c[1..], n, m)
  }

  /** Every entry of chain `c` belongs in bucket `b` of a table of `n` buckets, and none has the empty-slot key 0. */
  ghost predicate BucketOk(c: seq<Entry>, n: nat, b: nat)
    requires n > 0
  {
    forall e :: e in c ==> e.key % n == b && e.key != 0
  }

  /** Total number of entries in a table. */
  function SumLens(t: seq<seq<Entry>>): nat
  {
    if t == [] then 0 else SumLens(t[..|t| - 1]) + |t[|t| - 1]|
  }

  // ---------------------------------------------------------------------------
  // Lemmas about chains

  lemma {:induction false} KeyValsAppend(a: seq<Entry>, b: seq<Entry>, k: nat)
    ensures KeyVals(a + b, k) == KeyVals(a, k) + KeyVals(b, k)
  {
    if a != [] {
      assert (a + b)[1..] == a[1..] + b;
      KeyValsAppend(a[1..], b, k);
    } else {
      assert a + b == b;
    }
  }

  lemma {:induction false} KeyValsNone(c: seq<Entry>, k: nat)
    requires forall j :: 0 <= j < |c| ==> c[j].key != k
    ensures KeyVals(c, k) == []
  {
    if c != [] {
      KeyValsNone(c[1..], k);
    }
  }

  /** The first value under `k` is the one of the first entry whose key is `k`. */
  lemma {:induction false} KeyValsFirst(c: seq<Entry>, k: nat, j: nat)
    requires j < |c| && c[j].key == k
    requires forall i :: 0 <= i < j ==> c[i].key != k
    ensures KeyVals(c, k) != [] && KeyVals(c, k)[0] == c[j].val
  {
    assert c == c[..j] + c[j..];
    KeyValsAppend(c[..j], c[j..], k);
    KeyValsNone(c[..j], k);
  }

  /** Removing the first entry of key `k` drops the first value under `k` and nothing else. */
  lemma {:induction false} RemoveFirstKeyVals(c: seq<Entry>, k: nat, k': nat)
    ensures KeyVals(RemoveFirst(c, k), k') ==
      if k' != k || KeyVals(c, k) == [] then KeyVals(c, k') else KeyVals(c, k)[1..]
  {
    if c != [] {
      RemoveFirstKeyVals(c[1..], k, k');
      if c[0].key != k {
        assert RemoveFirst(c, k) == [c[0]] + RemoveFirst(c[1..], k);
        KeyValsAppend([c[0]], RemoveFirst(c[1..], k), k');
        assert ([c[0]])[1..] == [];
      }
    }
  }

  /** With `j` the first entry of key `k`, removing it is cutting index `j` out of the chain. */
  lemma {:induction false} RemoveFirstAt(c: seq<Entry>, k: nat, j: nat)
    requires j < |c| && c[j].key == k
    requires forall i :: 0 <= i < j ==> c[i].key != k
    ensures RemoveFirst(c, k) == c[..j] + c[j + 1..]
  {
    if j > 0 {
      RemoveFirstAt(c[1..], k, j - 1);
      assert c[1..][..j - 1] == c[1..j];
      assert c[1..][j..] == c[j + 1..];
      assert [c[0]] + c[1..j] == c[..j];
    }
  }

  lemma {:induction false} RemoveFirstAbsent(c: seq<Entry>, k: nat)
    requires forall i :: 0 <= i < |c| ==> c[i].key != k
    ensures RemoveFirst(c, k) == c
  {
    if c != [] {
      RemoveFirstAbsent(c[1..], k);
    }
  }

  lemma {:induction false} RemoveFirstSubset(c: seq<Entry>, k: nat)
    ensures forall e :: e in RemoveFirst(c, k) ==> e in c
  {
    if c != [] {
      RemoveFirstSubset(c[1..], k);
    }
  }

  /** Filtering a chain by bucket keeps all entries of a key that belongs to that bucket. */
  lemma {:induction false} ModFilterKeyVals(c: seq<Entry>, n: nat, m: nat, k: nat)
    requires n > 0 && k % n == m
    ensures KeyVals(ModFilter(c, n, m), k) == KeyVals(c, k)
  {
    if c != [] {
      ModFilterKeyVals(c[1..], n, m, k);
      var h := if c[0].key % n == m then [c[0]] else [];
      KeyValsAppend(h, ModFilter(c[1..], n, m), k);
      if c[0].key % n == m {
        assert h[1..] == [];
      }
    }
  }

  lemma {:induction false} ModFilterAppend(a: seq<Entry>, b: seq<Entry>, n: nat, m: nat)
    requires n > 0
    ensures ModFilter(a + b, n, m) == ModFilter(a, n, m) + ModFilter(b, n, m)
  {
    if a != [] {
      assert (a + b)[1..] == a[1..] + b;
      ModFilterAppend(a[1..], b, n, m);
    } else {
      assert a + b == b;
    }
  }

  lemma {:induction false} ModFilterIn(c: seq<Entry>, n: nat, m: nat)
    requires n > 0
    ensures forall e :: e in ModFilter(c, n, m) ==> e in c && e.key % n == m
  {
    if c != [] {
      ModFilterIn(c[1..], n, m);
    }
  }

  /** The remainder is the unique `r` with `y == q * m + r` and `0 <= r < m`. */
  lemma {:induction false} ModUnique(y: int, m: int, q: int, r: int)
    requires m > 0 && 0 <= r < m && y == q * m + r
    ensures y % m == r
  {
    var d := q - y / m;
    assert y == (y / m) * m + y % m;
    assert d * m == q * m - (y / m) * m;
    assert d * m == y % m - r;
    if d >= 1 {
      assert d * m == m + (d - 1) * m;
    } else if d <= -1 {
      assert d * m == -m + (d + 1) * m;
    }
  }

  lemma {:induction false} ModSub(x: nat, m: nat)
    requires 0 < m <= x
    ensures x % m == (x - m) % m
  {
    assert x == (x / m) * m + x % m;
    assert x - m == (x / m - 1) * m + x % m;
    ModUnique(x - m, m, x / m - 1, x % m);
  }

  /** A key lands, in the doubled table, either in its old bucket or in that bucket plus the old size. */
  lemma {:induction false} ModDouble(k: nat, n: nat)
    requires n > 0
    ensures k % (2 * n) == k % n || k % (2 * n) == k % n + n
    decreases k
  {
    if k < n {
      ModUnique(k, n, 0, k);
      ModUnique(k, 2 * n, 0, k);
    } else if k < 2 * n {
      ModUnique(k, 2 * n, 0, k);
      ModUnique(k, n, 1, k - n);
    } else {
      ModDouble(k - 2 * n, n);
      ModSub(k, 2 * n);
      ModSub(k, n);
      ModSub(k - n, n);
    }
  }

  lemma {:induction false} SumLensUpdate(t: seq<seq<Entry>>, b: nat, s: seq<Entry>)
    requires b < |t|
    ensures SumLens(t[b := s]) + |t[b]| == SumLens(t) + |s|
  {
    var n := |t| - 1;
    if b < n {
      assert t[b := s][..n] == t[..n][b := s];
      SumLensUpdate(t[..n], b, s);
    } else {
      assert t[b := s][..n] == t[..n];
    }
  }

  lemma {:induction false} SumLensPrefix(t: seq<seq<Entry>>, i: nat)
    requires i < |t|
    ensures SumLens(t[..i + 1]) == SumLens(t[..i]) + |t[i]|
  {
    assert t[..i + 1][..i] == t[..i];
  }

  lemma {:induction false} SumLensEmpty(t: seq<seq<Entry>>)
    requires forall b :: 0 <= b < |t| ==> t[b] == []
    ensures SumLens(t) == 0
  {
    if t != [] {
      SumLensEmpty(t[..|t| - 1]);
    }
  }

  /** Removing the first entry of `k` shortens the chain by one exactly when `k` occurs. */
  lemma {:induction false} RemoveFirstLength(c: seq<Entry>, k: nat)
    ensures |RemoveFirst(c, k)| == if KeyVals(c, k) == [] then |c| else |c| - 1
  {
    if c != [] {
      RemoveFirstLength(c[1..], k);
    }
  }

  // ---------------------------------------------------------------------------
  // Whole tables

  /** Every entry of table `t` sits in the bucket its key hashes to. */
  ghost predicate TableOk(t: seq<seq<Entry>>)
  {
    |t| > 0 && forall b :: 0 <= b < |t| ==> BucketOk(t[b], |t|, b)
  }

  /** The values stored under `k` in table `t`, in the order a search meets them. */
  function TableChain(t: seq<seq<Entry>>, k: nat): seq<nat>
    requires |t| > 0
  {
    KeyVals(t[k % |t|], k)
  }

  /** Every key's chain in table `t`, as one value. */
  ghost function TableIndex(t: seq<seq<Entry>>): imap<nat, seq<nat>>
    requires |t| > 0
  {
    imap k: nat | true :: TableChain(t, k)
  }

  /** A chain without its first value, as `dict_delete` leaves it (an empty chain stays empty). */
  function DropFirst(c: seq<nat>): seq<nat>
  {
    if c == [] then [] else c[1..]
  }

  /** Table `t` after `internal_dict_insert(key, val)`: the entry is appended to its bucket's chain. */
  function Inserted(t: seq<seq<Entry>>, key: nat, val: nat): seq<seq<Entry>>
    requires |t| > 0
  {
    t[key % |t| := t[key % |t|] + [Entry(key, val)]]
  }

  /** Table `t` after the chain surgery of `dict_delete(key)`. */
  function Deleted(t: seq<seq<Entry>>, key: nat): seq<seq<Entry>>
    requires |t| > 0
  {
    t[key % |t| := RemoveFirst(t[key % |t|], key)]
  }

  /** Where `dict_double` puts the entries of `t`: new bucket `b` holds, in order, those of old bucket `b mod |t|` that hash to `b`. */
  function Doubled(t: seq<seq<Entry>>): seq<seq<Entry>>
    requires |t| > 0
  {
    seq(2 * |t|, b requires 0 <= b < 2 * |t| => ModFilter(t[if b < |t| then b else b - |t|], 2 * |t|, b))
  }

  /** Inserting keeps every entry in its bucket, adds one entry, and extends only the chain of `key`, at its end. */
  lemma {:induction false} InsertedFacts(t: seq<seq<Entry>>, key: nat, val: nat)
    requires TableOk(t) && key != 0
    ensures TableOk(Inserted(t, key, val))
    ensures SumLens(Inserted(t, key, val)) == SumLens(t) + 1
    ensures TableChain(Inserted(t, key, val), key) == TableChain(t, key) + [val]
    ensures forall k: nat :: k != key ==> TableChain(Inserted(t, key, val), k) == TableChain(t, k)
  {
    var n := |t|;
    var t' := Inserted(t, key, val);
    var e := Entry(key, val);
    SumLensUpdate(t, key % n, t[key % n] + [e]);
    KeyValsAppend(t[key % n], [e], key);
    forall b | 0 <= b < n ensures BucketOk(t'[b], n, b) {
      if b == key % n {
        assert forall x :: x in t'[b] ==> x in t[b] || x == e;
      }
    }
    forall k: nat | k != key ensures TableChain(t', k) == TableChain(t, k) {
      if k % n == key % n {
        KeyValsAppend(t[key % n], [e], k);
      }
    }
  }

  /** Deleting keeps every entry in its bucket, drops the first value of `key` and one entry if `key` was present, and leaves other chains alone. */
  lemma {:induction false} DeletedFacts(t: seq<seq<Entry>>, key: nat)
    requires TableOk(t)
    ensures TableOk(Deleted(t, key))
    ensures SumLens(Deleted(t, key)) == if TableChain(t, key) == [] then SumLens(t) else SumLens(t) - 1
    ensures TableChain(Deleted(t, key), key) == if TableChain(t, key) == [] then [] else TableChain(t, key)[1..]
    ensures forall k: nat :: k != key ==> TableChain(Deleted(t, key), k) == TableChain(t, k)
  {
    var n := |t|;
    var c := t[key % n];
    var t' := Deleted(t, key);
    RemoveFirstLength(c, key);
    SumLensUpdate(t, key % n, RemoveFirst(c, key));
    RemoveFirstSubset(c, key);
    RemoveFirstKeyVals(c, key, key);
    forall k: nat | k != key ensures TableChain(t', k) == TableChain(t, k) {
      if k % n == key % n {
        RemoveFirstKeyVals(c, key, k);
      }
    }
  }

  /** `DeletedFacts` for the whole index: only the chain of `key` changes, losing its first value. */
  lemma {:induction false} DeletedIndex(t: seq<seq<Entry>>, key: nat)
    requires TableOk(t)
    ensures TableIndex(Deleted(t, key)) == TableIndex(t)[key := DropFirst(TableIndex(t)[key])]
  {
    DeletedFacts(t, key);
    var d := Deleted(t, key);
    var ix := TableIndex(t)[key := DropFirst(TableIndex(t)[key])];
    forall k: nat ensures TableIndex(d)[k] == ix[k] {
      if k != key {
        assert TableChain(d, k) == TableChain(t, k);
      }
    }
    assert TableIndex(d) == ix;
  }

  /** Doubling keeps every entry in its bucket of the bigger table and every key's chain, in order. */
  lemma {:induction false} DoubledFacts(t: seq<seq<Entry>>)
    requires TableOk(t)
    ensures TableOk(Doubled(t))
    ensures forall k: nat :: TableChain(Doubled(t), k) == TableChain(t, k)
  {
    var n := |t|;
    var d := Doubled(t);
    forall b | 0 <= b < 2 * n ensures BucketOk(d[b], 2 * n, b) {
      ModFilterIn(t[if b < n then b else b - n], 2 * n, b);
    }
    forall k: nat ensures TableChain(d, k) == TableChain(t, k) {
      ModDouble(k, n);
      ModFilterKeyVals(t[k % n], 2 * n, k % (2 * n), k);
    }
  }

  /**
   * The table `dict_double` has built after reinserting buckets `0 .. i-1`
   * of `t` and the first `j` entries of bucket `i`.
   */
  function Progress(t: seq<seq<Entry>>, i: nat, j: nat): seq<seq<Entry>>
    requires 0 < |t| && i <= |t| && (i < |t| ==> j <= |t[i]|)
  {
    var n := |t|;
    seq(2 * n, b requires 0 <= b < 2 * n =>
      var ob := if b < n then b else b - n;
      if ob < i then ModFilter(t[ob], 2 * n, b)
      else if ob == i then ModFilter(t[i][..j], 2 * n, b)
      else [])
  }

  /** Reinserting entry `j` of bucket `i` takes the build one entry further. */
  lemma {:induction false} ProgressStep(t: seq<seq<Entry>>, i: nat, j: nat)
    requires TableOk(t) && i < |t| && j < |t[i]|
    ensures Progress(t, i, j + 1) == Inserted(Progress(t, i, j), t[i][j].key, t[i][j].val)
    ensures SumLens(Progress(t, i, j + 1)) == SumLens(Progress(t, i, j)) + 1
  {
    var n := |t|;
    var e := t[i][j];
    var p := Progress(t, i, j);
    var q := Progress(t, i, j + 1);
    assert e in t[i];
    ModDouble(e.key, n);
    var h := e.key % (2 * n);
    assert t[i][..j + 1] == t[i][..j] + [e];
    ModFilterAppend(t[i][..j], [e], 2 * n, h);
    forall b | 0 <= b < 2 * n ensures q[b] == Inserted(p, e.key, e.val)[b] {
      var ob := if b < n then b else b - n;
      if ob == i {
        ModFilterAppend(t[i][..j], [e], 2 * n, b);
      }
    }
    SumLensUpdate(p, h, p[h] + [e]);
  }

  lemma {:induction false} ProgressNext(t: seq<seq<Entry>>, i: nat)
    requires 0 < |t| && i < |t|
    ensures Progress(t, i, |t[i]|) == Progress(t, i + 1, 0)
  {
    assert t[i][..|t[i]|] == t[i];
  }

  lemma {:induction false} ProgressEnds(t: seq<seq<Entry>>)
    requires 0 < |t|
    ensures forall b :: 0 <= b < 2 * |t| ==> Progress(t, 0, 0)[b] == []
    ensures Progress(t, |t|, 0) == Doubled(t)
  {
    assert t[0][..0] == [];
  }

  /**
   * Append an entry at the tail of the chain of its bucket in table `t` of
   * `n` buckets: an empty head slot takes the entry, otherwise a new node is
   * linked after the last one (`internal_dict_insert`).
   */
  method InternalInsert(t: array<seq<Entry>>, n: nat, key: nat, val: nat)
    requires n > 0 && t.Length == n
    modifies t
    ensures t[..] == Inserted(old(t[..]), key, val)
    ensures t[key % n] == old(t[key % n]) + [Entry(key, val)]
    ensures forall b :: 0 <= b < n && b != key % n ==> t[b] == old(t[b])
  {
    var index := key % n;
    t[index] := t[index] + [Entry(key, val)];
  }

  /** The inner loop of `dict_double`: every entry of chain `c`, bucket `i` of the old table `t`, is reinserted in order into `nt`. */
  method ReinsertChain(ghost t: seq<seq<Entry>>, i: nat, c: seq<Entry>, nt: array<seq<Entry>>)
    requires TableOk(t) && i < |t| && c == t[i] && nt.Length == 2 * |t| && nt[..] == Progress(t, i, 0)
    modifies nt
    ensures nt[..] == Progress(t, i + 1, 0)
    ensures SumLens(nt[..]) == old(SumLens(nt[..])) + |c|
  {
    var j := 0;
    while j < |c|
      invariant 0 <= j <= |c|
      invariant nt[..] == Progress(t, i, j)
      invariant SumLens(nt[..]) == old(SumLens(nt[..])) + j
    {
      ProgressStep(t, i, j);
      InternalInsert(nt, nt.Length, c[j].key, c[j].val);
      j := j + 1;
    }
    ProgressNext(t, i);
  }

  /** The chain walk of `dict_delete`: chain `c` without its first entry of `key`, and whether there was one. */
  method ChainDelete(c: seq<Entry>, key: nat) returns (rest: seq<Entry>, found: bool)
    ensures rest == RemoveFirst(c, key)
    ensures found <==> KeyVals(c, key) != []
  {
    var j := 0;
    while j < |c|
      invariant 0 <= j <= |c|
      invariant forall i :: 0 <= i < j ==> c[i].key != key
    {
      if c[j].key == key {
        RemoveFirstAt(c, key, j);
        KeyValsFirst(c, key, j);
        return c[..j] + c[j + 1..], true;
      }
      j := j + 1;
    }
    RemoveFirstAbsent(c, key);
    KeyValsNone(c, key);
    return c, false;
  }

  /** The single index of the host (`pointer_dict`). */
  class Dict {
    var size: nat
    var count: nat
    var table: array<seq<Entry>>
    ghost var Repr: set<object>

    ghost predicate Valid()
      reads this, Repr
    {
      && Repr == {this, table}
      && size > 0 && table.Length == size
      && TableOk(table[..])
      && count == SumLens(table[..])
    }

    /** Under every key, the values stored under it, in the order a search meets them. */
    ghost function Contents(): imap<nat, seq<nat>>
      reads this, Repr
      requires Valid()
    {
      TableIndex(table[..])
    }

    /** What a search for `k` finds: the earliest value stored under `k`. */
    ghost function Lookup(k: nat): Option<nat>
      reads this, Repr
      requires Valid()
    {
      if Contents()[k] == [] then None else Some(Contents()[k][0])
    }

    /** The zero-initialised global, before any `dict_create`. */
    constructor ()
      ensures size == 0 && count == 0 && Repr == {this, table} && fresh(table)
    {
      size, count := 0, 0;
      table := new seq<Entry>[0];
      Repr := {this, table};
    }

    /** `dict_create`: 128 empty buckets and no entries. */
    method Create()
      modifies this
      ensures Valid() && fresh(table)
      ensures size == START_COUNT && count == 0
      ensures forall b :: 0 <= b < size ==> table[b] == []
      ensures forall k: nat :: k in Contents() && Contents()[k] == []
    {
      size := START_COUNT;
      count := 0;
      table := new seq<Entry>[START_COUNT](_ => []);
      Repr := {this, table};
      SumLensEmpty(table[..]);
    }

    /**
     * `dict_insert`: the entry goes to the tail of its chain, so an earlier
     * entry with the same key still wins a search; `count` grows by one and
     * the table doubles once `count` exceeds `size`.
     */
    method Insert(key: nat, val: nat)
      requires Valid() && key != 0
      modifies Repr
      ensures Valid() && fresh(Repr - old(Repr))
      ensures Contents() == old(Contents())[key := old(Contents())[key] + [val]]
      ensures count == old(count) + 1
      ensures size == if old(count) + 1 > old(size) then 2 * old(size) else old(size)
    {
      InsertedFacts(table[..], key, val);
      InternalInsert(table, size, key, val);
      count := count + 1;
      if count > size {
        Double();
      }
    }

    /**
     * `dict_double`: twice as many buckets; every entry is reinserted, bucket
     * by bucket and chain by chain, so each old bucket `b` splits into new
     * buckets `b` and `b + size`, and the entries of every key keep their order.
     */
    method Double()
      requires Valid()
      modifies this
      ensures Valid() && fresh(table) && Repr == {this, table}
      ensures size == 2 * old(size) && count == old(count)
      ensures table[..] == Doubled(old(table[..]))
      ensures Contents() == old(Contents())
    {
      ghost var ot := table[..];
      var oldTable := table;
      var oldSize := size;
      var newTable := new seq<Entry>[2 * size](_ => []);
      var newSize := 2 * size;
      ProgressEnds(ot);
      assert newTable[..] == Progress(ot, 0, 0);
      SumLensEmpty(newTable[..]);
      var i := 0;
      while i < oldSize
        modifies newTable
        invariant 0 <= i <= oldSize && newSize == 2 * oldSize && newTable.Length == newSize
        invariant oldTable[..] == ot && |ot| == oldSize
        invariant newTable[..] == Progress(ot, i, 0)
        invariant SumLens(newTable[..]) == SumLens(ot[..i])
      {
        ReinsertChain(ot, i, oldTable[i], newTable);
        SumLensPrefix(ot, i);
        i := i + 1;
      }
      assert ot[..oldSize] == ot;
      assert newTable[..] == Doubled(ot);
      DoubledFacts(ot);
      assert TableOk(newTable[..]);
      assert SumLens(newTable[..]) == count;
      table, size := newTable, newSize;
      Repr := {this, table};
    }

    /** `dict_search`: the value of the first entry in the key's chain whose key matches, or NULL. */
    method Search(key: nat) returns (r: Option<nat>)
      requires Valid()
      ensures r == Lookup(key)
      ensures r.None? <==> Contents()[key] == []
    {
      var c := table[key % size];
      var j := 0;
      while j < |c|
        invariant 0 <= j <= |c|
        invariant forall i :: 0 <= i < j ==> c[i].key != key
      {
        if c[j].key == key {
          KeyValsFirst(c, key, j);
          return Some(c[j].val);
        }
        j := j + 1;
      }
      KeyValsNone(c, key);
      return None;
    }

    /**
     * `dict_delete`: removes the first entry of the key's chain whose key
     * matches (a head with a successor takes over the successor, a lone head
     * is reset to the empty key), and decrements `count` only when one matched.
     */
    method Delete(key: nat)
      requires Valid() && key != 0
      modifies this, table
      ensures Valid() && table == old(table) && Repr == old(Repr) && size == old(size)
      ensures table[..] == Deleted(old(table[..]), key)
      ensures Contents() == old(Contents())[key := DropFirst(old(Contents())[key])]
      ensures count == if old(Contents())[key] == [] then old(count) else old(count) - 1
    {
      ghost var t := table[..];
      DeletedFacts(t, key);
      DeletedIndex(t, key);
      var index := key % size;
      var rest, found := ChainDelete(table[index], key);
      assert found <==> TableChain(t, key) != [];
      table[index] := rest;
      assert table[..] == Deleted(t, key);
      if found {
        count := count - 1;
      }
    }

    /** `dict_destroy`: every chain node and the bucket array are released; `count` and `size` drop to 0. */
    method Destroy()
      modifies this
      ensures size == 0 && count == 0 && Repr == {this, table} && fresh(table)
    {
      table := new seq<Entry>[0];
      count := 0;
      size := 0;
      Repr := {this, table};
    }
  }
}

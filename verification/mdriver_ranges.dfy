/**
 * The driver's record of the payloads handed out so far: a list of
 * `[lo, hi]` byte ranges, newest first. A new payload is accepted only when
 * it is aligned, lies inside the heap and does not touch a recorded range at
 * either of its ends.
 */
module MallocRanges {

  /** Payload addresses must be multiples of this. */
  const ALIGNMENT: nat := 8

  /** One recorded payload, first and last byte inclusive. */
  datatype Range = Range(lo: int, hi: int)

  /** Why `add_range` accepted or refused a payload. */
  datatype Verdict = Added | Misaligned | OutsideHeap | Overlaps

  /** The byte `x` lies in the range. */
  predicate Contains(p: Range, x: int)
  {
    p.lo <= x <= p.hi
  }

  /** The endpoint test the driver applies to each recorded range: `lo` or `hi` inside it. */
  predicate EndpointInside(p: Range, lo: int, hi: int)
  {
    Contains(p, lo) || Contains(p, hi)
  }

  /** Some recorded range holds an endpoint of `[lo, hi]`. */
  predicate EndpointHit(rs: seq<Range>, lo: int, hi: int)
  {
    exists k :: 0 <= k < |rs| && EndpointInside(rs[k], lo, hi)
  }

  /** The ranges `p` and `[lo, hi]` share a byte. */
  predicate Intersects(p: Range, lo: int, hi: int)
  {
    lo <= p.hi && p.lo <= hi && lo <= hi && p.lo <= p.hi
  }

  /** No two recorded ranges share a byte. */
  predicate Disjoint(rs: seq<Range>)
  {
    forall j, k :: 0 <= j < k < |rs| ==> !Intersects(rs[j], rs[k].lo, rs[k].hi)
  }

  /** Every recorded range is non-empty. */
  predicate NonEmpty(rs: seq<Range>)
  {
    forall k :: 0 <= k < |rs| ==> rs[k].lo <= rs[k].hi
  }

  /**
   * `add_range`'s three checks in order, for the payload of `size` bytes at
   * `lo` and the heap `[heapLo, heapHi]`.
   */
  function Check(rs: seq<Range>, lo: nat, size: nat, heapLo: int, heapHi: int): (v: Verdict)
    requires size > 0
    ensures v == Misaligned <==> lo % ALIGNMENT != 0
    ensures v == OutsideHeap <==> lo % ALIGNMENT == 0 && !(heapLo <= lo && lo + size - 1 <= heapHi)
    ensures v == Overlaps <==> lo % ALIGNMENT == 0 && heapLo <= lo && lo + size - 1 <= heapHi && EndpointHit(rs, lo, lo + size - 1)
    ensures v == Added <==> lo % ALIGNMENT == 0 && heapLo <= lo && lo + size - 1 <= heapHi && !EndpointHit(rs, lo, lo + size - 1)
  {
    var hi := lo + size - 1;
    if lo % ALIGNMENT != 0 then Misaligned
    else if lo < heapLo || lo > heapHi || hi < heapLo || hi > heapHi then OutsideHeap
    else if EndpointHit(rs, lo, hi) then Overlaps
    else Added
  }

  /** The list after `remove_range(lo)`: the first range starting at `lo` is unlinked. */
  function RemoveFirst(rs: seq<Range>, lo: int): (r: seq<Range>)
  {
    if |rs| == 0 then []
    else if rs[0].lo == lo then rs[1..]
    else [rs[0]] + RemoveFirst(rs[1..], lo)
  }

  /** The position of the first range starting at `lo`, or `|rs|` when there is none. */
  function FirstAt(rs: seq<Range>, lo: int): (k: nat)
    ensures k <= |rs|
    ensures forall j :: 0 <= j < k ==> rs[j].lo != lo
    ensures k < |rs| ==> rs[k].lo == lo
  {
    if |rs| == 0 then 0
    else if rs[0].lo == lo then 0
    else 1 + FirstAt(rs[1..], lo)
  }

  /** Removing the first match takes out exactly the range at `FirstAt`, keeping the order of the rest. */
  lemma {:induction false} RemoveFirstSpec(rs: seq<Range>, lo: int)
    ensures var k := FirstAt(rs, lo);
      k < |rs| ==> RemoveFirst(rs, lo) == rs[..k] + rs[k + 1..]
    ensures FirstAt(rs, lo) == |rs| ==> RemoveFirst(rs, lo) == rs
  {
    if |rs| > 0 && rs[0].lo != lo {
      var t := rs[1..];
      RemoveFirstSpec(t, lo);
      var k := FirstAt(t, lo);
      if k < |t| {
        assert [rs[0]] + (t[..k] + t[k + 1..]) == rs[..k + 1] + rs[k + 2..] by {
          assert rs[..k + 1] == [rs[0]] + t[..k];
          assert rs[k + 2..] == t[k + 1..];
        }
      } else {
        assert [rs[0]] + t == rs;
      }
    }
  }

  /** Removal takes out one range when `lo` is recorded and none when it is not. */
  lemma {:induction false} RemoveFirstCount(rs: seq<Range>, lo: int)
    ensures (exists k :: 0 <= k < |rs| && rs[k].lo == lo) ==> |RemoveFirst(rs, lo)| == |rs| - 1
    ensures (forall k :: 0 <= k < |rs| ==> rs[k].lo != lo) ==> RemoveFirst(rs, lo) == rs
    ensures multiset(RemoveFirst(rs, lo)) <= multiset(rs)
  {
    RemoveFirstSpec(rs, lo);
    var k := FirstAt(rs, lo);
    if k < |rs| {
      assert rs == rs[..k] + [rs[k]] + rs[k + 1..];
      assert multiset(rs) == multiset(rs[..k]) + multiset{rs[k]} + multiset(rs[k + 1..]);
    }
  }

  /** Removing a range keeps the list pairwise disjoint and its ranges non-empty. */
  lemma {:induction false} RemoveKeepsDisjoint(rs: seq<Range>, lo: int)
    requires Disjoint(rs) && NonEmpty(rs)
    ensures Disjoint(RemoveFirst(rs, lo)) && NonEmpty(RemoveFirst(rs, lo))
  {
    RemoveFirstSpec(rs, lo);
    var k := FirstAt(rs, lo);
    if k < |rs| {
      var r := RemoveFirst(rs, lo);
      assert r == rs[..k] + rs[k + 1..];
      forall j, m | 0 <= j < m < |r|
        ensures !Intersects(r[j], r[m].lo, r[m].hi)
      {
        var j' := if j < k then j else j + 1;
        var m' := if m < k then m else m + 1;
        assert r[j] == rs[j'] && r[m] == rs[m'];
        assert j' < m';
      }
      forall j | 0 <= j < |r|
        ensures r[j].lo <= r[j].hi
      {
        assert r[j] == rs[if j < k then j else j + 1];
      }
    }
  }

  /**
   * The endpoint test never refuses wrongly: a payload it reports as
   * overlapping does share a byte with a recorded range.
   */
  lemma {:induction false} EndpointHitIntersects(rs: seq<Range>, lo: int, hi: int)
    requires NonEmpty(rs) && lo <= hi && EndpointHit(rs, lo, hi)
    ensures exists k :: 0 <= k < |rs| && Intersects(rs[k], lo, hi)
  {
    var k :| 0 <= k < |rs| && EndpointInside(rs[k], lo, hi);
    assert Intersects(rs[k], lo, hi);
  }

  /**
   * The endpoint test is not enough: a payload that strictly encloses a
   * recorded one passes it, and the list stops being disjoint.
   */
  lemma {:induction false} EnclosingAccepted()
    ensures var rs := [Range(24, 31)];
      Check(rs, 16, 24, 0, 4095) == Added
      && Disjoint(rs) && !Disjoint([Range(16, 39)] + rs)
  {
    var rs := [Range(24, 31)];
    assert !EndpointHit(rs, 16, 39) by {
      assert !EndpointInside(rs[0], 16, 39);
    }
    assert Intersects(([Range(16, 39)] + rs)[0], ([Range(16, 39)] + rs)[1].lo, ([Range(16, 39)] + rs)[1].hi);
  }

  /** The overlap test the comment at the loop describes: any shared byte refuses the payload. */
  function CheckDisjoint(rs: seq<Range>, lo: nat, size: nat, heapLo: int, heapHi: int): (v: Verdict)
    requires size > 0
    ensures v == Added ==> lo % ALIGNMENT == 0 && heapLo <= lo && lo + size - 1 <= heapHi
    ensures v == Added <==>
      (Check(rs, lo, size, heapLo, heapHi) == Added && forall k :: 0 <= k < |rs| ==> !Intersects(rs[k], lo, lo + size - 1))
  {
    var v := Check(rs, lo, size, heapLo, heapHi);
    if v == Added && exists k :: 0 <= k < |rs| && Intersects(rs[k], lo, lo + size - 1) then Overlaps else v
  }

  /** With the corrected test, prepending an accepted payload keeps the list disjoint. */
  lemma {:induction false} CheckDisjointKeepsDisjoint(rs: seq<Range>, lo: nat, size: nat, heapLo: int, heapHi: int)
    requires size > 0 && Disjoint(rs) && NonEmpty(rs)
    requires CheckDisjoint(rs, lo, size, heapLo, heapHi) == Added
    ensures var r := [Range(lo, lo + size - 1)] + rs; Disjoint(r) && NonEmpty(r)
  {
    var r := [Range(lo, lo + size - 1)] + rs;
    forall j, m | 0 <= j < m < |r|
      ensures !Intersects(r[j], r[m].lo, r[m].hi)
    {
      if j == 0 {
        assert !Intersects(rs[m - 1], lo, lo + size - 1);
      } else {
        assert r[j] == rs[j - 1] && r[m] == rs[m - 1];
      }
    }
  }

  /** The driver's range list `ranges`. */
  class RangeList {
    var ranges: seq<Range>

    /** An empty list, as the driver starts with. */
    constructor ()
      ensures ranges == []
    {
      ranges := [];
    }

    /**
     * `add_range`: the checks in order; on success the payload's range is
     * prepended, otherwise the list is left alone.
     */
    method AddRange(lo: nat, size: nat, heapLo: int, heapHi: int) returns (v: Verdict)
      requires size > 0
      modifies this
      ensures v == Check(old(ranges), lo, size, heapLo, heapHi)
      ensures v == Added ==> ranges == [Range(lo, lo + size - 1)] + old(ranges)
      ensures v != Added ==> ranges == old(ranges)
    {
      var hi := lo + size - 1;
      if lo % ALIGNMENT != 0 {
        return Misaligned;
      }
      if lo < heapLo || lo > heapHi || hi < heapLo || hi > heapHi {
        return OutsideHeap;
      }
      var hit := Overlap(lo, hi);
      if hit {
        return Overlaps;
      }
      ranges := [Range(lo, hi)] + ranges;
      return Added;
    }

    /** The loop of `add_range` that walks the list looking for a range holding either endpoint. */
    method Overlap(lo: int, hi: int) returns (hit: bool)
      ensures hit <==> EndpointHit(ranges, lo, hi)
    {
      var k := 0;
      while k < |ranges|
        invariant 0 <= k <= |ranges|
        invariant forall j :: 0 <= j < k ==> !EndpointInside(ranges[j], lo, hi)
      {
        if (lo >= ranges[k].lo && lo <= ranges[k].hi) || (hi >= ranges[k].lo && hi <= ranges[k].hi) {
          return true;
        }
        k := k + 1;
      }
      return false;
    }

    /** `remove_range`: the first range starting at `lo` is unlinked; nothing happens when there is none. */
    method RemoveRange(lo: int)
      modifies this
      ensures ranges == RemoveFirst(old(ranges), lo)
    {
      RemoveFirstSpec(ranges, lo);
      var k := 0;
      while k < |ranges|
        invariant 0 <= k <= |ranges|
        invariant forall j :: 0 <= j < k ==> ranges[j].lo != lo
        invariant ranges == old(ranges)
      {
        if ranges[k].lo == lo {
          assert k == FirstAt(ranges, lo);
          ranges := ranges[..k] + ranges[k + 1..];
          return;
        }
        k := k + 1;
      }
      assert FirstAt(ranges, lo) == |ranges|;
    }

    /** `clear_ranges`: every record is dropped. */
    method ClearRanges()
      modifies this
      ensures ranges == []
    {
      ranges := [];
    }
  }
}

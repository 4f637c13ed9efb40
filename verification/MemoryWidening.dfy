/** Which memory capabilities, overlapping ranges included, no range constraint can widen. */
module MemoryWidening {
  import opened MachineInt
  import opened MemoryRanges
  import opened MemoryPermits
  import opened MemoryMeet
  import opened MemoryConstrain

  /** No range constraint widens the capability. */
  ghost predicate NeverWidens(m: RangeMap) {
    forall r, address, size, need :: !Widens(m, r, address, size, need)
  }

  /** Exactly one of the two rights. */
  predicate One(n: MemoryOps) {
    n.read != n.write
  }

  /** The bytes of the request all have the right somewhere, and the request stays in the address space. */
  ghost predicate Owed(m: RangeMap, address: usize, size: usize, n: MemoryOps) {
    InBounds(address, size) && One(n) && AllBytesHaveRight(m, address, size, n)
  }

  /** The sweep grants one right wherever all bytes have it. */
  ghost predicate GrantsOwed(m: RangeMap) {
    forall address, size, n :: Owed(m, address, size, n) ==> Permits(m, address, size, n)
  }

  // ----- a constraint to one right everywhere

  function Everywhere(n: MemoryOps): Range {
    Range(0, MODULUS - 1, n)
  }

  lemma EverywherePiece(m: RangeMap, n: MemoryOps, k: usize)
    requires One(n) && k in OverlapKeys(m, 0, MODULUS - 1)
    ensures Everywhere(n).Intersect(m[k]).Some? <==> m[k].ops.Contains(n)
    ensures Everywhere(n).Intersect(m[k]).Some? ==>
              var p := Everywhere(n).Intersect(m[k]).value; p.base == k && p.End() == m[k].End() && p.ops == n
  {
    if Everywhere(n).Intersect(m[k]).Some? {
      IntersectEnds(Everywhere(n), m[k]);
    }
  }

  lemma EverywhereOrigin(m: RangeMap, n: MemoryOps, p: Range)
    requires One(n) && p in Pieces(Everywhere(n), m, OverlapKeys(m, 0, MODULUS - 1))
    ensures p.base in OverlapKeys(m, 0, MODULUS - 1) && Everywhere(n).Intersect(m[p.base]).Some?
    ensures p == Everywhere(n).Intersect(m[p.base]).value && p.ops == n
  {
    var near := OverlapKeys(m, 0, MODULUS - 1);
    PieceOrigin(Everywhere(n), m, near, p);
    var k :| k in near && Everywhere(n).Intersect(m[k]).Some? && Everywhere(n).Intersect(m[k]).value == p;
    EverywherePiece(m, n, k);
  }

  /** The constraint keeps each range that carries the right, with that right only. */
  lemma EverywhereKeeps(m: RangeMap, n: MemoryOps, k: usize)
    requires One(n) && k in OverlapKeys(m, 0, MODULUS - 1) && m[k].ops.Contains(n)
    ensures ConstrainRange(m, Everywhere(n)).Some?
    ensures var m' := ConstrainRange(m, Everywhere(n)).value; k in m' && m'[k].End() == m[k].End()
    ensures var m' := ConstrainRange(m, Everywhere(n)).value; forall l :: l in m' ==> m'[l].ops == n
  {
    var near := OverlapKeys(m, 0, MODULUS - 1);
    assert near == OverlapKeys(m, Everywhere(n).base, Everywhere(n).End());
    var pieces := Pieces(Everywhere(n), m, near);
    EverywherePiece(m, n, k);
    PieceOrigin(Everywhere(n), m, near, Everywhere(n).Intersect(m[k]).value);
    forall x, y | x in pieces && y in pieces && x.base == y.base
      ensures x == y
    {
      EverywhereOrigin(m, n, x);
      EverywhereOrigin(m, n, y);
    }
    FromSeqKeeps(pieces, Everywhere(n).Intersect(m[k]).value);
    forall l | l in FromSeq(pieces)
      ensures FromSeq(pieces)[l].ops == n
    {
      FromSeqOrigin(pieces, l);
      EverywhereOrigin(m, n, FromSeq(pieces)[l]);
    }
  }

  lemma EverywhereGrants(m: RangeMap, address: usize, size: usize, n: MemoryOps)
    requires Owed(m, address, size, n) && size > 0
    ensures ConstrainRange(m, Everywhere(n)).Some? && Permits(ConstrainRange(m, Everywhere(n)).value, address, size, n)
  {
    assert HasRight(m, address, n);
    var k :| k in m && m[k].HasByte(address) && m[k].ops.Contains(n);
    EverywhereKeeps(m, n, k);
    var m' := ConstrainRange(m, Everywhere(n)).value;
    forall b | address <= b < address + size
      ensures HasByte(m', b)
    {
      assert HasRight(m, b, n);
      var j :| j in m && m[j].HasByte(b) && m[j].ops.Contains(n);
      EverywhereKeeps(m, n, j);
      assert m'[j].HasByte(b);
    }
    PermitsIfOverlapsCarry(m', address, size, n);
  }

  // ----- from single rights to all requests

  lemma {:induction false} SweepBoth(m: RangeMap, ks: set<usize>, end: int, covered: int)
    requires ks <= m.Keys
    requires Sweep(m, ks, end, covered, MemoryOps(true, false)) && Sweep(m, ks, end, covered, MemoryOps(false, true))
    ensures Sweep(m, ks, end, covered, MemoryOps(true, true))
    decreases |ks|
  {
    var k := Least(ks);
    var c := Max(covered, m[k].End());
    if c < end {
      SweepBoth(m, ks - {k}, end, c);
    }
  }

  lemma FewerRights(m: RangeMap, address: int, size: int, need: MemoryOps, less: MemoryOps)
    requires AllBytesHaveRight(m, address, size, need) && need.Contains(less)
    ensures AllBytesHaveRight(m, address, size, less)
  {
    forall b | address <= b < address + size
      ensures HasRight(m, b, less)
    {
      assert HasRight(m, b, need);
    }
  }

  lemma OwedForAll(m: RangeMap, address: usize, size: usize, need: MemoryOps)
    requires GrantsOwed(m) && InBounds(address, size) && AllBytesHaveRight(m, address, size, need)
    ensures Permits(m, address, size, need)
  {
    if need.IsEmpty() {
      assert forall b :: address <= b < address + size ==> HasRight(m, b, need) ==> HasByte(m, b);
      PermitsIfOverlapsCarry(m, address, size, need);
    } else if One(need) {
      assert Owed(m, address, size, need);
    } else if size > 0 {
      var r, w := MemoryOps(true, false), MemoryOps(false, true);
      FewerRights(m, address, size, need, r);
      FewerRights(m, address, size, need, w);
      assert Owed(m, address, size, r) && Owed(m, address, size, w);
      SweepBoth(m, OverlapKeys(m, address, address + size), address + size, address);
    }
  }

  /** A range that the sweep reaches before it is done carries the rights. */
  lemma {:induction false} SweepVisits(m: RangeMap, ks: set<usize>, end: int, covered: int, need: MemoryOps, l: usize)
    requires ks <= m.Keys && l in ks && covered < end && Sweep(m, ks, end, covered, need)
    requires forall j :: j in ks && j < l ==> m[j].End() < end
    ensures m[l].ops.Contains(need)
    decreases |ks|
  {
    var k := Least(ks);
    if k != l {
      SweepVisits(m, ks - {k}, end, Max(covered, m[k].End()), need, l);
    }
  }

  /** A wrapping request that one range with the rights spans is granted. */
  lemma OwedWrapped(m: RangeMap, address: usize, size: usize, need: MemoryOps, k: usize)
    requires GrantsOwed(m) && !InBounds(address, size)
    requires k in OverlapKeys(m, address, WrapAdd(address, size)) && m[k].ops.Contains(need)
    ensures Permits(m, address, size, need)
  {
    var end := WrapAdd(address, size);
    var ks := OverlapKeys(m, address, end);
    var l := Least(ks);
    var from: usize, length: usize := end - 1, address - end + 2;
    forall b | from <= b < from + length
      ensures HasRight(m, b, need)
    {
      assert m[k].HasByte(b);
    }
    OwedForAll(m, from, length, need);
    var near := OverlapKeys(m, from, address + 1);
    assert l in near;
    forall j | j in near && j < l
      ensures m[j].End() < address + 1
    {
      assert j !in ks;
    }
    SweepVisits(m, near, address + 1, from, need, l);
  }

  // ----- the exact condition

  lemma WidensNot(m: RangeMap, r: Range, address: usize, size: usize, need: MemoryOps)
    requires GrantsOwed(m) && ConstrainRange(m, r).Some? && Permits(ConstrainRange(m, r).value, address, size, need)
    ensures Permits(m, address, size, need)
  {
    var m' := ConstrainRange(m, r).value;
    if InBounds(address, size) {
      PermitsSound(m', address, size, need);
      forall b | address <= b < address + size
        ensures HasRight(m, b, need)
      {
        assert HasRight(m', b, need);
        var l :| l in m' && m'[l].HasByte(b) && m'[l].ops.Contains(need);
        var k := ConstrainNarrowsRange(m, r, l);
      }
      OwedForAll(m, address, size, need);
    } else {
      var l := Least(OverlapKeys(m', address, WrapAdd(address, size)));
      assert m'[l].ops.Contains(need);
      var k := ConstrainNarrowsRange(m, r, l);
      OwedWrapped(m, address, size, need, k);
    }
  }

  /**
   * No range constraint widens a capability exactly when its sweep grants every request for one
   * right whose bytes all have it. This holds for every range map.
   */
  lemma NeverWidensIff(m: RangeMap)
    ensures NeverWidens(m) <==> GrantsOwed(m)
  {
    if GrantsOwed(m) {
      forall r, address, size, need
        ensures !Widens(m, r, address, size, need)
      {
        if ConstrainRange(m, r).Some? && Permits(ConstrainRange(m, r).value, address, size, need) {
          WidensNot(m, r, address, size, need);
        }
      }
    } else {
      var address, size, n :| Owed(m, address, size, n) && !Permits(m, address, size, n);
      EverywhereGrants(m, address, size, n);
      assert Widens(m, Everywhere(n), address, size, n);
    }
  }

  // ----- a condition on the ranges

  predicate IsFirstAt(m: RangeMap, l: usize, b: int) {
    l in m && m[l].HasByte(b) && forall j :: j in m && m[j].HasByte(b) ==> l <= j
  }

  /** The first range at a byte carries the right whenever some range at it does. */
  ghost predicate FirstCarries(m: RangeMap, n: MemoryOps) {
    forall l, b :: IsFirstAt(m, l, b) && HasRight(m, b, n) ==> m[l].ops.Contains(n)
  }

  /** The sweep for bytes up to `e` comes to range `k` although earlier ranges reach as far: none reaches `e`. */
  ghost predicate PassedOver(m: RangeMap, k: usize, e: int) {
    && k in m && k < e && 0 < m[k].End() < e < MODULUS
    && forall j :: j in m && j < k && m[k].End() <= m[j].End() ==> m[j].End() < e
  }

  /** Such a range carries the right when all bytes from the one before its end to `e` have it. */
  ghost predicate PassedCarries(m: RangeMap, n: MemoryOps) {
    forall k, e :: PassedOver(m, k, e) && AllBytesHaveRight(m, m[k].End() - 1, e - m[k].End() + 1, n) ==>
      m[k].ops.Contains(n)
  }

  ghost predicate RangesCarry(m: RangeMap) {
    forall n :: One(n) ==> FirstCarries(m, n) && PassedCarries(m, n)
  }

  /** The state of the sweep for a request whose bytes all have the right: what is passed ends where coverage is. */
  ghost predicate Swept(m: RangeMap, ks: set<usize>, address: usize, end: usize, covered: int) {
    && ks <= OverlapKeys(m, address, end) && address <= covered < end
    && (forall j :: j in OverlapKeys(m, address, end) && j !in ks ==> m[j].End() <= covered)
    && (forall j, k :: j in OverlapKeys(m, address, end) && j !in ks && k in ks ==> j < k)
  }

  lemma NextSwept(m: RangeMap, ks: set<usize>, address: usize, end: usize, covered: int, n: MemoryOps)
    requires One(n) && RangesCarry(m)
    requires Swept(m, ks, address, end, covered) && AllBytesHaveRight(m, address, end - address, n)
    ensures ks != {} && m[Least(ks)].base <= covered && m[Least(ks)].ops.Contains(n)
  {
    var all := OverlapKeys(m, address, end);
    assert HasRight(m, covered, n);
    var h :| h in m && m[h].HasByte(covered) && m[h].ops.Contains(n);
    assert h in all && h in ks;
    var k := Least(ks);
    if m[k].End() > covered {
      forall j | j in m && m[j].HasByte(covered)
        ensures k <= j
      {
        assert j in all && j in ks;
      }
      assert IsFirstAt(m, k, covered);
    } else {
      NextPassed(m, ks, address, end, covered, n);
    }
  }

  lemma NextPassed(m: RangeMap, ks: set<usize>, address: usize, end: usize, covered: int, n: MemoryOps)
    requires One(n) && RangesCarry(m)
    requires Swept(m, ks, address, end, covered) && AllBytesHaveRight(m, address, end - address, n)
    requires ks != {} && m[Least(ks)].End() <= covered
    ensures m[Least(ks)].ops.Contains(n)
  {
    var k := Least(ks);
    forall j | j in m && j < k && m[k].End() <= m[j].End()
      ensures m[j].End() < end
    {
      assert j in OverlapKeys(m, address, end) && j !in ks;
    }
    assert PassedOver(m, k, end);
    assert AllBytesHaveRight(m, m[k].End() - 1, end - m[k].End() + 1, n);
  }

  lemma {:induction false} SweepOwed(m: RangeMap, ks: set<usize>, address: usize, end: usize, covered: int,
      n: MemoryOps)
    requires One(n) && RangesCarry(m)
    requires Swept(m, ks, address, end, covered) && AllBytesHaveRight(m, address, end - address, n)
    ensures Sweep(m, ks, end, covered, n)
    decreases |ks|
  {
    NextSwept(m, ks, address, end, covered, n);
    var k := Least(ks);
    var c := Max(covered, m[k].End());
    if c < end {
      SweepOwed(m, ks - {k}, address, end, c, n);
    }
  }

  lemma OwedGranted(m: RangeMap, address: usize, size: usize, n: MemoryOps)
    requires RangesCarry(m) && Owed(m, address, size, n)
    ensures Permits(m, address, size, n)
  {
    if size > 0 {
      var ks := OverlapKeys(m, address, address + size);
      NextSwept(m, ks, address, address + size, address, n);
      SweepOwed(m, ks, address, address + size, address, n);
    }
  }

  lemma GrantedFirst(m: RangeMap, l: usize, b: int, n: MemoryOps)
    requires GrantsOwed(m) && One(n) && IsFirstAt(m, l, b) && HasRight(m, b, n)
    ensures m[l].ops.Contains(n)
  {
    var at: usize := b;
    assert Owed(m, at, 1, n);
    var ks := OverlapKeys(m, at, at + 1);
    assert l in ks;
    forall j | j in ks
      ensures l <= j
    {
      assert m[j].HasByte(b);
    }
    assert Least(ks) == l;
  }

  lemma GrantedPassed(m: RangeMap, k: usize, e: int, n: MemoryOps)
    requires GrantsOwed(m) && One(n) && PassedOver(m, k, e)
    requires AllBytesHaveRight(m, m[k].End() - 1, e - m[k].End() + 1, n)
    ensures m[k].ops.Contains(n)
  {
    var from: usize, length: usize := m[k].End() - 1, e - m[k].End() + 1;
    assert Owed(m, from, length, n);
    var ks := OverlapKeys(m, from, e);
    assert k in ks;
    SweepVisits(m, ks, e, from, n, k);
  }

  /** The condition range by range; ranges that hold no byte can be passed over, but are nobody's first. */
  lemma NeverWidensRangesIff(m: RangeMap)
    ensures NeverWidens(m) <==> RangesCarry(m)
  {
    NeverWidensIff(m);
    if RangesCarry(m) {
      forall address, size, n | Owed(m, address, size, n)
        ensures Permits(m, address, size, n)
      {
        OwedGranted(m, address, size, n);
      }
    }
    if GrantsOwed(m) {
      forall n | One(n)
        ensures FirstCarries(m, n) && PassedCarries(m, n)
      {
        forall l, b | IsFirstAt(m, l, b) && HasRight(m, b, n)
          ensures m[l].ops.Contains(n)
        {
          GrantedFirst(m, l, b, n);
        }
        forall k, e | PassedOver(m, k, e) && AllBytesHaveRight(m, m[k].End() - 1, e - m[k].End() + 1, n)
          ensures m[k].ops.Contains(n)
        {
          GrantedPassed(m, k, e, n);
        }
      }
    }
  }
}

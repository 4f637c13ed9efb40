/** Which requests a memory capability permits when its ranges may overlap, wrap or hold no byte. */
module MemorySweep {
  import opened MachineInt
  import opened MemoryRanges
  import opened MemoryPermits
  import opened MemoryWidening

  /** No earlier range of those that meet the request reaches its end. */
  predicate Reached(m: RangeMap, l: usize, address: usize, end: usize) {
    l in OverlapKeys(m, address, end) &&
    forall j :: j in OverlapKeys(m, address, end) && j < l ==> m[j].End() < end
  }

  ghost predicate ReachedCarry(m: RangeMap, address: usize, end: usize, need: MemoryOps) {
    forall l :: Reached(m, l, address, end) ==> m[l].ops.Contains(need)
  }

  ghost predicate AllBytesExist(m: RangeMap, address: int, end: int) {
    forall b :: address <= b < end ==> HasByte(m, b)
  }

  /** The next range of the sweep starts where coverage has come, and is reached. */
  lemma NextReached(m: RangeMap, ks: set<usize>, address: usize, end: usize, covered: int)
    requires Swept(m, ks, address, end, covered) && AllBytesExist(m, address, end)
    ensures ks != {} && m[Least(ks)].base <= covered && Reached(m, Least(ks), address, end)
  {
    var all := OverlapKeys(m, address, end);
    assert HasByte(m, covered);
    var h :| h in m && m[h].HasByte(covered);
    assert h in all && h in ks;
    var k := Least(ks);
    forall j | j in all && j < k
      ensures m[j].End() < end
    {
      assert j !in ks;
    }
  }

  lemma SweptOn(m: RangeMap, ks: set<usize>, address: usize, end: usize, covered: int)
    requires Swept(m, ks, address, end, covered) && ks != {} && Max(covered, m[Least(ks)].End()) < end
    ensures Swept(m, ks - {Least(ks)}, address, end, Max(covered, m[Least(ks)].End()))
  {
  }

  ghost predicate Granted(m: RangeMap, address: usize, end: usize, need: MemoryOps) {
    AllBytesExist(m, address, end) && ReachedCarry(m, address, end, need)
  }

  lemma NextGranted(m: RangeMap, ks: set<usize>, address: usize, end: usize, covered: int, need: MemoryOps)
    requires Swept(m, ks, address, end, covered) && Granted(m, address, end, need)
    ensures ks != {} && m[Least(ks)].base <= covered && m[Least(ks)].ops.Contains(need)
  {
    NextReached(m, ks, address, end, covered);
  }

  lemma {:induction false} SweepReached(m: RangeMap, ks: set<usize>, address: usize, end: usize, covered: int,
      need: MemoryOps)
    requires Swept(m, ks, address, end, covered) && Granted(m, address, end, need)
    ensures Sweep(m, ks, end, covered, need)
    decreases |ks|
  {
    NextGranted(m, ks, address, end, covered, need);
    var k := Least(ks);
    var c := Max(covered, m[k].End());
    if c < end {
      SweptOn(m, ks, address, end, covered);
      SweepReached(m, ks - {k}, address, end, c, need);
    }
  }

  lemma GrantedByReached(m: RangeMap, address: usize, end: usize, need: MemoryOps)
    requires address < end && Granted(m, address, end, need)
    ensures OverlapKeys(m, address, end) != {} && Sweep(m, OverlapKeys(m, address, end), end, address, need)
  {
    var all := OverlapKeys(m, address, end);
    NextReached(m, all, address, end, address);
    SweepReached(m, all, address, end, address, need);
  }

  lemma RightIsByte(m: RangeMap, b: int, need: MemoryOps)
    requires HasRight(m, b, need)
    ensures HasByte(m, b)
  {
    var k :| k in m && m[k].HasByte(b);
    assert k in m.Keys;
  }

  lemma ReachedByGranted(m: RangeMap, address: usize, end: usize, need: MemoryOps)
    requires address < end && Sweep(m, OverlapKeys(m, address, end), end, address, need)
    ensures Granted(m, address, end, need)
  {
    var all := OverlapKeys(m, address, end);
    SweepSound(m, all, end, address, need);
    forall b | address <= b < end
      ensures HasByte(m, b)
    {
      RightIsByte(m, b, need);
    }
    forall l | Reached(m, l, address, end)
      ensures m[l].ops.Contains(need)
    {
      SweepVisits(m, all, end, address, need, l);
    }
  }

  lemma GrantedIffSwept(m: RangeMap, address: usize, end: usize, need: MemoryOps)
    requires address < end
    ensures OverlapKeys(m, address, end) != {} && Sweep(m, OverlapKeys(m, address, end), end, address, need) <==>
            Granted(m, address, end, need)
  {
    if Granted(m, address, end, need) {
      GrantedByReached(m, address, end, need);
    } else if Sweep(m, OverlapKeys(m, address, end), end, address, need) {
      ReachedByGranted(m, address, end, need);
    }
  }

  /**
   * Whatever the ranges, a request that stays in the address space is permitted exactly when each of its
   * bytes exists and each range that is reached before the request is covered carries the rights.
   */
  lemma PermitsIffReached(m: RangeMap, address: usize, size: usize, need: MemoryOps)
    requires InBounds(address, size) && size > 0
    ensures Permits(m, address, size, need) <==>
            AllBytesExist(m, address, address + size) && ReachedCarry(m, address, address + size, need)
  {
    GrantedIffSwept(m, address, address + size, need);
  }

  /** The range that the sweep of a wrapping request looks at first, and last. */
  predicate IsFirst(m: RangeMap, l: usize, address: usize, end: usize) {
    IsLeast(l, OverlapKeys(m, address, end))
  }

  lemma LeastIsOne(s: set<usize>, l: usize)
    requires IsLeast(l, s)
    ensures s != {} && Least(s) == l
  {
  }

  lemma FirstDecides(m: RangeMap, ks: set<usize>, end: usize, address: usize, need: MemoryOps)
    requires ks != {} && ks <= m.Keys && end <= address && m[Least(ks)].base < end
    ensures Sweep(m, ks, end, address, need) <==> m[Least(ks)].ops.Contains(need)
  {
  }

  /** A request that does not stay there is permitted exactly when the first range around it carries the rights. */
  lemma WrappedIffFirst(m: RangeMap, address: usize, size: usize, need: MemoryOps)
    requires !InBounds(address, size)
    ensures Permits(m, address, size, need) <==>
            exists l :: IsFirst(m, l, address, WrapAdd(address, size)) && m[l].ops.Contains(need)
  {
    var end := WrapAdd(address, size);
    var all := OverlapKeys(m, address, end);
    if all != {} {
      FirstDecides(m, all, end, address, need);
      assert IsFirst(m, Least(all), address, end);
    }
    forall l | IsFirst(m, l, address, end)
      ensures all != {} && l == Least(all)
    {
      LeastIsOne(all, l);
    }
  }
}

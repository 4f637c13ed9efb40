/** The coverage sweep of `MemoryCapability::permits`, proved against the byte-wise meaning. */
module MemoryPermits {
  import opened MachineInt
  import opened MemoryRanges

  /** The keys of the ranges that `find_overlapping_ranges` collects. */
  function OverlapKeys(m: RangeMap, start: usize, end: usize): set<usize> {
    set k | k in m && k < end && m[k].base < end && m[k].End() > start
  }

  /** The sweep over the collected ranges in base order; `covered` is how far coverage reaches. */
  function Sweep(m: RangeMap, ks: set<usize>, end: int, covered: int, need: MemoryOps): bool
    requires ks <= m.Keys
    decreases |ks|
  {
    if ks == {} then
      false
    else
      var k := Least(ks);
      if m[k].base > covered || !m[k].ops.Contains(need) then
        false
      else
        var c := Max(covered, m[k].End());
        c >= end || Sweep(m, ks - {k}, end, c, need)
  }

  /** `permits` for a memory request. */
  function Permits(m: RangeMap, address: usize, size: usize, need: MemoryOps): bool {
    if size == 0 then
      true
    else
      var end := WrapAdd(address, size);
      var ks := OverlapKeys(m, address, end);
      ks != {} && Sweep(m, ks, end, address, need)
  }

  /** The request ends inside the address space. */
  predicate InBounds(address: usize, size: usize) {
    address + size < MODULUS
  }

  /** The byte-wise meaning of a request that does not wrap. */
  ghost predicate AllBytesHaveRight(m: RangeMap, address: int, size: int, need: MemoryOps) {
    forall b :: address <= b < address + size ==> HasRight(m, b, need)
  }

  lemma {:induction false} SweepSound(m: RangeMap, ks: set<usize>, end: int, covered: int, need: MemoryOps)
    requires ks <= m.Keys
    requires Sweep(m, ks, end, covered, need)
    ensures forall b :: covered <= b < end ==> HasRight(m, b, need)
    decreases |ks|
  {
    var k := Least(ks);
    var c := Max(covered, m[k].End());
    assert forall b :: covered <= b < c ==> m[k].HasByte(b);
    if c < end {
      SweepSound(m, ks - {k}, end, c, need);
    }
  }

  /** A range map, well formed or not, permits only what its bytes allow. */
  lemma PermitsSound(m: RangeMap, address: usize, size: usize, need: MemoryOps)
    requires InBounds(address, size)
    requires Permits(m, address, size, need)
    ensures AllBytesHaveRight(m, address, size, need)
  {
    if size != 0 {
      SweepSound(m, OverlapKeys(m, address, address + size), address + size, address, need);
    }
  }

  lemma {:induction false} SweepComplete(m: RangeMap, ks: set<usize>, end: int, covered: int, need: MemoryOps)
    requires ks <= m.Keys && covered < end
    requires forall k :: k in ks ==> m[k].ops.Contains(need)
    requires forall b :: covered <= b < end ==> Covers(m, ks, b)
    ensures Sweep(m, ks, end, covered, need)
    decreases |ks|
  {
    assert Covers(m, ks, covered);
    var k := Least(ks);
    var c := Max(covered, m[k].End());
    if c < end {
      forall b | c <= b < end
        ensures Covers(m, ks - {k}, b)
      {
        assert Covers(m, ks, b);
      }
      SweepComplete(m, ks - {k}, end, c, need);
    }
  }

  /** Coverage by ranges that all carry the rights is enough, whether or not they overlap. */
  lemma PermitsIfOverlapsCarry(m: RangeMap, address: usize, size: usize, need: MemoryOps)
    requires InBounds(address, size)
    requires forall b :: address <= b < address + size ==> HasByte(m, b)
    requires forall k :: k in OverlapKeys(m, address, address + size) ==> m[k].ops.Contains(need)
    ensures Permits(m, address, size, need)
  {
    if size != 0 {
      var end := address + size;
      var ks := OverlapKeys(m, address, end);
      forall b | address <= b < end
        ensures Covers(m, ks, b)
      {
        assert HasByte(m, b);
        var k :| k in m && m[k].HasByte(b);
        assert k in ks;
      }
      assert Covers(m, ks, address);
      SweepComplete(m, ks, end, address, need);
    }
  }

  /** On a well-formed map an overlapping range owns a requested byte, so its rights are the byte's rights. */
  lemma OverlapCarries(m: RangeMap, address: usize, size: usize, need: MemoryOps, k: usize)
    requires WellFormed(m) && InBounds(address, size) && size > 0
    requires AllBytesHaveRight(m, address, size, need)
    requires k in OverlapKeys(m, address, address + size)
    ensures m[k].ops.Contains(need)
  {
    var b := Max(address, k);
    assert m[k].HasByte(b);
    assert HasRight(m, b, need);
    var j :| j in m && m[j].HasByte(b) && m[j].ops.Contains(need);
    UniqueOwner(m, b, j, k);
  }

  /** The exact meaning of `permits` on a tame map, for requests that stay in the address space. */
  lemma PermitsIffBytes(m: RangeMap, address: usize, size: usize, need: MemoryOps)
    requires Tame(m) && InBounds(address, size)
    ensures Permits(m, address, size, need) <==> AllBytesHaveRight(m, address, size, need)
  {
    if Permits(m, address, size, need) {
      PermitsSound(m, address, size, need);
    } else if AllBytesHaveRight(m, address, size, need) && size > 0 {
      assert HasRight(m, address, need);
      forall k | k in OverlapKeys(m, address, address + size)
        ensures m[k].ops.Contains(need)
      {
        OverlapCarries(m, address, size, need, k);
      }
      assert forall b :: address <= b < address + size ==> HasRight(m, b, need) ==> HasByte(m, b);
      PermitsIfOverlapsCarry(m, address, size, need);
    }
  }

  /** One range reaches from below the wrapped end of the request past its address. */
  ghost predicate SpansWrap(m: RangeMap, address: usize, size: usize, need: MemoryOps)
  {
    exists k :: k in m && k < WrapAdd(address, size) && address < m[k].End() && m[k].ops.Contains(need)
  }

  /** A request whose end wraps is granted exactly when one range spans it. */
  lemma PermitsWrapped(m: RangeMap, address: usize, size: usize, need: MemoryOps)
    requires Tame(m) && !InBounds(address, size)
    ensures Permits(m, address, size, need) <==> SpansWrap(m, address, size, need)
  {
    var end := WrapAdd(address, size);
    var ks := OverlapKeys(m, address, end);
    if SpansWrap(m, address, size, need) {
      var k :| k in m && k < end && address < m[k].End() && m[k].ops.Contains(need);
      assert k in ks;
      var l := Least(ks);
      assert l == k;
    } else if ks != {} {
      var l := Least(ks);
      assert !m[l].ops.Contains(need);
    }
  }

  /** A wrapping request is granted if a range spans it and every range it meets carries the rights. */
  lemma WrappedIfOverlapsCarry(m: RangeMap, address: usize, size: usize, need: MemoryOps, k: usize)
    requires !InBounds(address, size)
    requires k in OverlapKeys(m, address, WrapAdd(address, size))
    requires forall l :: l in OverlapKeys(m, address, WrapAdd(address, size)) ==> m[l].ops.Contains(need)
    ensures Permits(m, address, size, need)
  {
    var l := Least(OverlapKeys(m, address, WrapAdd(address, size)));
    assert l < WrapAdd(address, size) <= address;
  }

  /** A non-empty request granted although none of its bytes exists: in-bounds is needed in `PermitsSound`. */
  lemma WrappedRequestGranted()
    ensures exists m: RangeMap, a: usize, s: usize, need: MemoryOps ::
      && WellFormed(m) && !InBounds(a, s) && Permits(m, a, s, need)
      && !AllBytesHaveRight(m, a, s, need)
  {
    var need := MemoryOps(true, false);
    var m: RangeMap := map[0 := Range(0, MODULUS - 1, need)];
    var a, s := MODULUS - 2, 10;
    assert WellFormed(m);
    assert m[0].base < WrapAdd(a, s) && a < m[0].End();
    PermitsWrapped(m, a, s, need);
    assert SpansWrap(m, a, s, need);
    assert !HasRight(m, MODULUS, need);
  }

  ghost function Within(m: RangeMap, ks: set<usize>, start: int, end: int): set<usize>
    requires ks <= m.Keys
  {
    set k | k in ks && m[k].base < end && m[k].End() > start
  }

  lemma {:induction false} SweepShrink(m: RangeMap, ks: set<usize>, end: int, covered: int, need: MemoryOps,
                                       start': int, end': int, need': MemoryOps)
    requires ks <= m.Keys && covered < end && end' <= end && Max(start', covered) < end'
    requires need.Contains(need')
    requires Sweep(m, ks, end, covered, need)
    ensures Sweep(m, Within(m, ks, start', end'), end', Max(start', covered), need')
    decreases |ks|
  {
    var ks' := Within(m, ks, start', end');
    var k := Least(ks);
    var c := Max(covered, m[k].End());
    var rest' := Within(m, ks - {k}, start', end');
    if c < end && Max(start', c) < end' {
      SweepShrink(m, ks - {k}, end, c, need, start', end', need');
    }
    if k in ks' {
      assert Least(ks') == k && ks' - {k} == rest';
    } else {
      assert ks' == rest';
    }
  }

  /** Being permitted is inherited by every sub-interval with fewer rights, for any range map. */
  lemma PermitsShrinks(m: RangeMap, address: usize, size: usize, need: MemoryOps,
                       address': usize, size': usize, need': MemoryOps)
    requires InBounds(address, size)
    requires Permits(m, address, size, need)
    requires address <= address' && address' + size' <= address + size && need.Contains(need')
    ensures Permits(m, address', size', need')
  {
    if size' != 0 {
      var ks := OverlapKeys(m, address, address + size);
      var ks' := OverlapKeys(m, address', address' + size');
      SweepShrink(m, ks, address + size, address, need, address', address' + size', need');
      assert ks' == Within(m, ks, address', address' + size');
    }
  }

  /** `permits` as the source runs it: collect, then loop in base order updating `covered`. */
  method CheckPermits(m: RangeMap, address: usize, size: usize, read: bool, write: bool) returns (ok: bool)
    ensures ok == Permits(m, address, size, MemoryOps(read, write))
    ensures ok && InBounds(address, size) ==> AllBytesHaveRight(m, address, size, MemoryOps(read, write))
  {
    var need := MemoryOps(read, write);
    ghost var granted := Permits(m, address, size, need);
    if granted && InBounds(address, size) {
      PermitsSound(m, address, size, need);
    }
    if size == 0 {
      return true;
    }
    var end := WrapAdd(address, size);
    var todo := OverlapKeys(m, address, end);
    if todo == {} {
      return false;
    }
    var covered: int := address;
    while todo != {}
      invariant todo <= m.Keys
      invariant Permits(m, address, size, need) == Sweep(m, todo, end, covered, need)
      decreases |todo|
    {
      var k := Least(todo);
      if m[k].base > covered || !m[k].ops.Contains(need) {
        return false;
      }
      covered := Max(covered, m[k].End());
      if covered >= end {
        return true;
      }
      todo := todo - {k};
    }
    return false;
  }
}

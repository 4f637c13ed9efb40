/** What a memory join permits: all of its argument, and when all of its receiver. */
module MemoryJoinRights {
  import opened MachineInt
  import opened MemoryRanges
  import opened MemoryPermits
  import opened MemoryJoin
  import opened MemoryJoinShape

  /** A byte of an entry is a byte of its own range of `a` or of a range of `b` that meets that one. */
  lemma EntryByte(a: RangeMap, b: RangeMap, o: usize, e: Range, x: int)
    requires WellFormed(a) && WellFormed(b) && IsEntry(a, b, b.Keys, o, e) && e.HasByte(x)
    ensures a[o].HasByte(x) || exists q :: Touches(a, b, o, q) && b[q].HasByte(x)
  {
  }

  /** An entry that holds a byte of `b[q]` belongs to a range that meets `b[q]`. */
  lemma EntryMeets(a: RangeMap, b: RangeMap, o: usize, e: Range, q: usize, x: int)
    requires WellFormed(a) && WellFormed(b) && IsEntry(a, b, b.Keys, o, e) && e.HasByte(x)
    requires q in b && b[q].HasByte(x)
    ensures Touches(a, b, o, q)
  {
  }

  // ----- the sweep over a join

  /** An entry that decides a byte of the request, or ends at one, carries the rights. */
  ghost predicate Decides(m: RangeMap, l: usize, x: int) {
    l in m && m[l].HasByte(x) && ((forall j :: j in m && j < l ==> !m[j].HasByte(x)) || x == m[l].End() - 1)
  }

  ghost predicate DecidedFor(m: RangeMap, address: int, end: int, need: MemoryOps) {
    && (forall x :: address <= x < end ==> HasByte(m, x))
    && (forall l, x :: address <= x < end && Decides(m, l, x) ==> m[l].ops.Contains(need))
  }

  /** The entries the sweep has passed end where coverage has got to. */
  ghost predicate Passed(m: RangeMap, ks: set<usize>, address: usize, end: usize, covered: int) {
    && ks <= OverlapKeys(m, address, end)
    && (forall j :: j in OverlapKeys(m, address, end) && j !in ks ==> m[j].End() <= covered)
    && address <= covered < end
  }

  lemma NextCarries(m: RangeMap, ks: set<usize>, address: usize, end: usize, covered: int, need: MemoryOps)
    requires forall k :: k in m ==> m[k].Live()
    requires Passed(m, ks, address, end, covered) && DecidedFor(m, address, end, need)
    ensures ks != {} && m[Least(ks)].base <= covered && m[Least(ks)].ops.Contains(need)
  {
    assert HasByte(m, covered);
    var h :| h in m && m[h].HasByte(covered);
    assert h in OverlapKeys(m, address, end);
    var k := Least(ks);
    if m[k].End() > covered {
      forall j | j in m && j < k
        ensures !m[j].HasByte(covered)
      {
        assert m[j].HasByte(covered) ==> j in OverlapKeys(m, address, end);
      }
      assert Decides(m, k, covered);
    } else {
      assert Decides(m, k, m[k].End() - 1);
    }
  }

  lemma {:induction false} SweepDecided(m: RangeMap, ks: set<usize>,
                                        address: usize, end: usize, covered: int, need: MemoryOps)
    requires forall k :: k in m ==> m[k].Live()
    requires Passed(m, ks, address, end, covered) && DecidedFor(m, address, end, need)
    ensures Sweep(m, ks, end, covered, need)
    decreases |ks|
  {
    NextCarries(m, ks, address, end, covered, need);
    var k := Least(ks);
    var c := Max(covered, m[k].End());
    if c < end {
      SweepDecided(m, ks - {k}, address, end, c, need);
    }
  }

  /** A request is granted if every byte is held and every deciding entry carries the rights. */
  lemma DecidedPermits(m: RangeMap, address: usize, size: usize, need: MemoryOps)
    requires forall k :: k in m ==> m[k].Live()
    requires InBounds(address, size) && size > 0 && DecidedFor(m, address, address + size, need)
    ensures Permits(m, address, size, need)
  {
    var ks := OverlapKeys(m, address, address + size);
    NextCarries(m, ks, address, address + size, address, need);
    SweepDecided(m, ks, address, address + size, address, need);
  }

  /** A wrapping request is granted if some entry spans it and whatever decides its address carries the rights. */
  lemma DecidedSpan(m: RangeMap, address: usize, size: usize, need: MemoryOps, from: int, to: int)
    requires forall k :: k in m ==> m[k].Live()
    requires !InBounds(address, size) && Holds(m, from, to) && from < WrapAdd(address, size) && address < to
    requires forall l :: Decides(m, l, address) ==> m[l].ops.Contains(need)
    ensures Permits(m, address, size, need)
  {
    var end := WrapAdd(address, size);
    var ks := OverlapKeys(m, address, end);
    var k :| k in m && k <= from && to <= m[k].End();
    assert k in ks;
    var l := Least(ks);
    assert m[l].HasByte(address);
    forall j | j in m && j < l
      ensures !m[j].HasByte(address)
    {
      assert m[j].HasByte(address) ==> j in ks;
    }
    assert Decides(m, l, address);
  }

  // ----- the join and its argument

  lemma ShapedLive(a: RangeMap, b: RangeMap, m: RangeMap)
    requires WellFormed(b) && Shaped(a, b, b.Keys, m)
    ensures forall k :: k in m ==> m[k].Live()
  {
  }

  /** Every entry that holds a byte of a range of `b` carries its rights. */
  lemma ArgumentCarried(a: RangeMap, b: RangeMap, l: usize, x: int, need: MemoryOps)
    requires WellFormed(a) && WellFormed(b) && l in Join(a, b) && Join(a, b)[l].HasByte(x) && HasRight(b, x, need)
    ensures Join(a, b)[l].ops.Contains(need)
  {
    var e := Join(a, b)[l];
    JoinShaped(a, b);
    var q :| q in b && b[q].HasByte(x) && b[q].ops.Contains(need);
    if Apart(a, b, b.Keys, l, e) {
      UniqueOwner(b, x, l, q);
    } else {
      var o :| Survives(a, b, b.Keys, o) && IsEntry(a, b, b.Keys, o, e);
      EntryMeets(a, b, o, e, q, x);
    }
  }

  /** The join of well-formed capabilities permits everything the argument permits. */
  lemma JoinPermitsOther(a: RangeMap, b: RangeMap, address: usize, size: usize, need: MemoryOps)
    requires WellFormed(a) && WellFormed(b)
    requires Permits(b, address, size, need)
    ensures Permits(Join(a, b), address, size, need)
  {
    var m := Join(a, b);
    JoinShaped(a, b);
    ShapedLive(a, b, m);
    JoinHolds(a, b);
    if !InBounds(address, size) {
      PermitsWrapped(b, address, size, need);
      var q :| q in b && q < WrapAdd(address, size) && address < b[q].End() && b[q].ops.Contains(need);
      assert HasRight(b, address, need) by {
        assert b[q].HasByte(address);
      }
      forall l | Decides(m, l, address)
        ensures m[l].ops.Contains(need)
      {
        ArgumentCarried(a, b, l, address, need);
      }
      DecidedSpan(m, address, size, need, q, b[q].End());
    } else if size > 0 {
      PermitsSound(b, address, size, need);
      forall x | address <= x < address + size
        ensures HasByte(m, x)
      {
        assert HasRight(b, x, need);
        JoinByte(a, b, x);
      }
      forall l, x | address <= x < address + size && Decides(m, l, x)
        ensures m[l].ops.Contains(need)
      {
        ArgumentCarried(a, b, l, x, need);
      }
      DecidedPermits(m, address, size, need);
    }
  }

  // ----- the join and its receiver

  /**
   * The range of `a` whose entry decides the bytes of `b[q]`: the one that reaches `b[q]` from
   * below, or without such a one the last that meets it.
   */
  ghost predicate Leads(a: RangeMap, b: RangeMap, q: usize, o: usize) {
    Touches(a, b, o, q) && (o < q || forall k: usize :: Touches(a, b, k, q) ==> q <= k <= o)
  }

  /** Whenever ranges of `a` meet one range of `b`, the leading one gathers the rights of all of them. */
  ghost predicate LeadsCarry(a: RangeMap, b: RangeMap) {
    forall q, o, k :: Leads(a, b, q, o) && Touches(a, b, k, q) ==> Gathered(a, b, b.Keys, o).Contains(a[k].ops)
  }

  lemma LeaderSurvives(a: RangeMap, b: RangeMap, q: usize, o: usize)
    requires WellFormed(a) && WellFormed(b) && Leads(a, b, q, o)
    ensures Survives(a, b, b.Keys, o)
  {
  }

  /** The entry of a range of `a` that starts within or after `b[q]` does not start before it. */
  lemma EntryStartsAt(a: RangeMap, b: RangeMap, q: usize, o: usize, e: Range)
    requires WellFormed(a) && WellFormed(b) && q in b && q <= o && IsEntry(a, b, b.Keys, o, e)
    ensures q <= e.base
  {
  }

  lemma SpansBytes(a: RangeMap, b: RangeMap, q: usize, o: usize, e: Range, x: int)
    requires WellFormed(a) && WellFormed(b) && Touches(a, b, o, q) && IsEntry(a, b, b.Keys, o, e) && b[q].HasByte(x)
    ensures e.HasByte(x)
  {
  }

  lemma JoinEntryOf(a: RangeMap, b: RangeMap, o: usize) returns (k: usize)
    requires WellFormed(a) && WellFormed(b) && Survives(a, b, b.Keys, o)
    ensures k in Join(a, b) && IsEntry(a, b, b.Keys, o, Join(a, b)[k])
  {
    JoinShaped(a, b);
    assert HasEntry(a, b, b.Keys, Join(a, b), o);
    k :| k in Join(a, b) && IsEntry(a, b, b.Keys, o, Join(a, b)[k]);
  }

  /** Among the surviving ranges that meet `b[q]`, the entry of the leader starts first. */
  lemma LeaderBelow(a: RangeMap, b: RangeMap, q: usize, o: usize, e: Range, i: usize, f: Range)
    requires WellFormed(a) && WellFormed(b) && Leads(a, b, q, o) && IsEntry(a, b, b.Keys, o, e)
    requires Touches(a, b, i, q) && Survives(a, b, b.Keys, i) && IsEntry(a, b, b.Keys, i, f)
    ensures e.base <= f.base
  {
  }

  /** No entry below the leader's holds a byte of `b[q]`. */
  lemma LeaderFirst(a: RangeMap, b: RangeMap, q: usize, o: usize, e: Range, l: usize, x: int)
    requires WellFormed(a) && WellFormed(b) && Leads(a, b, q, o) && b[q].HasByte(x)
    requires IsEntry(a, b, b.Keys, o, e)
    requires l in Join(a, b) && Join(a, b)[l].HasByte(x)
    ensures e.base <= l
  {
    JoinShaped(a, b);
    var f := Join(a, b)[l];
    if Apart(a, b, b.Keys, l, f) {
      UniqueOwner(b, x, l, q);
      assert false;
    } else {
      var i :| Survives(a, b, b.Keys, i) && IsEntry(a, b, b.Keys, i, f);
      EntryMeets(a, b, i, f, q, x);
      LeaderBelow(a, b, q, o, e, i, f);
    }
  }

  /** Requests for one byte of `b[q]` are decided by the rights the leader gathers. */
  lemma LeaderDecides(a: RangeMap, b: RangeMap, q: usize, o: usize, x: usize, need: MemoryOps)
    requires WellFormed(a) && WellFormed(b) && Leads(a, b, q, o) && b[q].HasByte(x)
    requires !Gathered(a, b, b.Keys, o).Contains(need)
    ensures InBounds(x, 1) && !Permits(Join(a, b), x, 1, need)
  {
    LeaderSurvives(a, b, q, o);
    var m := Join(a, b);
    var i := JoinEntryOf(a, b, o);
    SpansBytes(a, b, q, o, m[i], x);
    assert i in OverlapKeys(m, x, x + 1);
    var l := Least(OverlapKeys(m, x, x + 1));
    LeaderFirst(a, b, q, o, m[i], l, x);
    assert l == i;
  }

  /** A one-byte request where the leader lacks the rights of a range it meets: granted before, denied after. */
  lemma LostByte(a: RangeMap, b: RangeMap, q: usize, o: usize, k: usize) returns (x: usize)
    requires WellFormed(a) && WellFormed(b) && Leads(a, b, q, o) && Touches(a, b, k, q)
    requires !Gathered(a, b, b.Keys, o).Contains(a[k].ops)
    ensures InBounds(x, 1) && Permits(a, x, 1, a[k].ops) && !Permits(Join(a, b), x, 1, a[k].ops)
  {
    x := Max(k, q);
    LeaderDecides(a, b, q, o, x, a[k].ops);
    PermitsIffBytes(a, x, 1, a[k].ops);
    assert HasRight(a, x, a[k].ops) by {
      assert a[k].HasByte(x);
    }
  }

  /** If leaders carry all rights, an entry that decides a byte of `a` carries the rights of that byte. */
  lemma ReceiverCarried(a: RangeMap, b: RangeMap, l: usize, x: int, k: usize)
    requires WellFormed(a) && WellFormed(b) && LeadsCarry(a, b)
    requires Decides(Join(a, b), l, x) && k in a && a[k].HasByte(x)
    ensures Join(a, b)[l].ops.Contains(a[k].ops)
  {
    var m := Join(a, b);
    JoinShaped(a, b);
    if Apart(a, b, b.Keys, l, m[l]) {
      assert Touches(a, b, k, l);
      assert false;
    } else {
      var o :| Survives(a, b, b.Keys, o) && IsEntry(a, b, b.Keys, o, m[l]);
      if k != o {
        EntryByte(a, b, o, m[l], x);
        assert !a[o].HasByte(x);
        var q :| Touches(a, b, o, q) && b[q].HasByte(x);
        assert Touches(a, b, k, q);
        DeciderLeads(a, b, l, x, k, o, q);
        assert Gathered(a, b, b.Keys, o).Contains(a[k].ops);
      }
    }
  }

  lemma DeciderLeads(a: RangeMap, b: RangeMap, l: usize, x: int, k: usize, o: usize, q: usize)
    requires WellFormed(a) && WellFormed(b)
    requires Decides(Join(a, b), l, x) && k in a && a[k].HasByte(x) && k != o
    requires Survives(a, b, b.Keys, o) && IsEntry(a, b, b.Keys, o, Join(a, b)[l])
    requires Touches(a, b, o, q) && b[q].HasByte(x) && Touches(a, b, k, q)
    ensures Leads(a, b, q, o)
  {
    var m := Join(a, b);
    if q <= o {
      assert !Displaced(a, b, o, q);
      EntryStartsAt(a, b, q, o, m[l]);
      forall f: usize | Touches(a, b, f, q)
        ensures q <= f <= o
      {
        if f < q {
          assert Leads(a, b, q, f);
          LeaderSurvives(a, b, q, f);
          var i := JoinEntryOf(a, b, f);
          SpansBytes(a, b, q, f, m[i], x);
          assert false;
        }
      }
    }
  }

  lemma ReceiverPermitted(a: RangeMap, b: RangeMap, address: usize, size: usize, need: MemoryOps)
    requires WellFormed(a) && WellFormed(b) && LeadsCarry(a, b)
    requires Permits(a, address, size, need)
    ensures Permits(Join(a, b), address, size, need)
  {
    var m := Join(a, b);
    JoinShaped(a, b);
    ShapedLive(a, b, m);
    JoinHolds(a, b);
    if !InBounds(address, size) {
      PermitsWrapped(a, address, size, need);
      var k :| k in a && k < WrapAdd(address, size) && address < a[k].End() && a[k].ops.Contains(need);
      forall l | Decides(m, l, address)
        ensures m[l].ops.Contains(need)
      {
        ReceiverCarried(a, b, l, address, k);
      }
      assert Holds(a, k, a[k].End());
      DecidedSpan(m, address, size, need, k, a[k].End());
    } else if size > 0 {
      PermitsSound(a, address, size, need);
      forall x | address <= x < address + size
        ensures HasByte(m, x)
      {
        assert HasRight(a, x, need);
        JoinByte(a, b, x);
      }
      forall l, x | address <= x < address + size && Decides(m, l, x)
        ensures m[l].ops.Contains(need)
      {
        assert HasRight(a, x, need);
        var k :| k in a && a[k].HasByte(x) && a[k].ops.Contains(need);
        ReceiverCarried(a, b, l, x, k);
      }
      DecidedPermits(m, address, size, need);
    }
  }

  /** Whatever one of the operands permits, the join permits. */
  ghost predicate JoinIsUpperBound(a: RangeMap, b: RangeMap) {
    forall address, size, need ::
      Permits(a, address, size, need) || Permits(b, address, size, need) ==> Permits(Join(a, b), address, size, need)
  }

  /** The join of well-formed capabilities is an upper bound exactly when the leaders carry all rights. */
  lemma JoinUpperBoundIff(a: RangeMap, b: RangeMap)
    requires WellFormed(a) && WellFormed(b)
    ensures JoinIsUpperBound(a, b) <==> LeadsCarry(a, b)
  {
    if LeadsCarry(a, b) {
      forall address, size, need | Permits(a, address, size, need) || Permits(b, address, size, need)
        ensures Permits(Join(a, b), address, size, need)
      {
        if Permits(a, address, size, need) {
          ReceiverPermitted(a, b, address, size, need);
        } else {
          JoinPermitsOther(a, b, address, size, need);
        }
      }
    } else {
      var q, o, k :| Leads(a, b, q, o) && Touches(a, b, k, q) && !Gathered(a, b, b.Keys, o).Contains(a[k].ops);
      var x := LostByte(a, b, q, o, k);
    }
  }

  /** No range of `b` meets two ranges of `a`. */
  ghost predicate MeetsAtMostOne(a: RangeMap, b: RangeMap) {
    forall q, j, k :: Touches(a, b, j, q) && Touches(a, b, k, q) ==> j == k
  }

  lemma EntriesApart(a: RangeMap, b: RangeMap, j: usize, k: usize, x: int)
    requires WellFormed(a) && WellFormed(b) && MeetsAtMostOne(a, b)
    requires j in Join(a, b) && k in Join(a, b) && Join(a, b)[j].HasByte(x) && Join(a, b)[k].HasByte(x)
    ensures j == k
  {
    var m := Join(a, b);
    JoinShaped(a, b);
    if Apart(a, b, b.Keys, j, m[j]) && Apart(a, b, b.Keys, k, m[k]) {
      UniqueOwner(b, x, j, k);
    } else if Apart(a, b, b.Keys, j, m[j]) {
      var o :| Survives(a, b, b.Keys, o) && IsEntry(a, b, b.Keys, o, m[k]);
      EntryMeets(a, b, o, m[k], j, x);
    } else if Apart(a, b, b.Keys, k, m[k]) {
      var o :| Survives(a, b, b.Keys, o) && IsEntry(a, b, b.Keys, o, m[j]);
      EntryMeets(a, b, o, m[j], k, x);
    } else {
      OwnersApart(a, b, m[j], m[k], x);
    }
  }

  lemma OwnersApart(a: RangeMap, b: RangeMap, e: Range, f: Range, x: int)
    requires WellFormed(a) && WellFormed(b) && MeetsAtMostOne(a, b) && e.HasByte(x) && f.HasByte(x)
    requires HasOwner(a, b, b.Keys, e) && HasOwner(a, b, b.Keys, f)
    ensures e == f
  {
    var i :| Survives(a, b, b.Keys, i) && IsEntry(a, b, b.Keys, i, e);
    var o :| Survives(a, b, b.Keys, o) && IsEntry(a, b, b.Keys, o, f);
    EntryByte(a, b, i, e, x);
    EntryByte(a, b, o, f, x);
    if q :| q in b && b[q].HasByte(x) {
      EntryMeets(a, b, i, e, q, x);
      EntryMeets(a, b, o, f, q, x);
    } else {
      UniqueOwner(a, x, i, o);
    }
    SameEntry(a, b, b.Keys, o, e, f);
  }

  /** If no range of `b` meets two ranges of `a`, the join is a well-formed upper bound. */
  lemma JoinWellFormed(a: RangeMap, b: RangeMap)
    requires WellFormed(a) && WellFormed(b) && MeetsAtMostOne(a, b)
    ensures WellFormed(Join(a, b)) && JoinIsUpperBound(a, b)
  {
    var m := Join(a, b);
    JoinShaped(a, b);
    ShapedLive(a, b, m);
    forall j, k | j in m && k in m && j != k
      ensures m[j].End() <= k || m[k].End() <= j
    {
      if k < m[j].End() && j < m[k].End() {
        EntriesApart(a, b, j, k, Max(j, k));
      }
    }
    JoinUpperBoundIff(a, b);
  }

  /** The receiver loses a right: a range of the argument covers two of its ranges, and only the last gathers rights. */
  lemma JoinLosesRight()
    ensures exists a: RangeMap, b: RangeMap :: WellFormed(a) && WellFormed(b) && !JoinIsUpperBound(a, b)
  {
    var ro, wo := MemoryOps(true, false), MemoryOps(false, true);
    var a: RangeMap := map[10 := Range(10, 5, wo), 20 := Range(20, 5, ro)];
    var b: RangeMap := map[5 := Range(5, 30, ro)];
    assert WellFormed(a) && WellFormed(b);
    assert Touches(a, b, 10, 5) && Touches(a, b, 20, 5);
    assert Leads(a, b, 5, 20);
    assert !Gathered(a, b, b.Keys, 20).Contains(a[10].ops);
    assert !LeadsCarry(a, b);
    JoinUpperBoundIff(a, b);
  }
}

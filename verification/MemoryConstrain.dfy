/** Range constraints, `split` and the coded order of memory capabilities. */
module MemoryConstrain {
  import opened Wrappers
  import opened MachineInt
  import opened MemoryRanges
  import opened MemoryPermits
  import opened MemoryMeet

  function Single(r: Range): RangeMap {
    map[r.base := r]
  }

  lemma IntersectEnds(r: Range, s: Range)
    requires r.Intersect(s).Some?
    ensures var i := r.Intersect(s).value;
            i.base == Max(r.base, s.base) && i.End() == Min(r.End(), s.End()) && i.ops == r.ops.And(s.ops)
  {
  }

  lemma {:induction false} PiecesIgnoreApart(r: Range, m: RangeMap, ks: set<usize>, far: set<usize>)
    requires ks <= m.Keys && far <= m.Keys
    requires forall k :: k in far ==> !r.Overlaps(m[k])
    ensures Pieces(r, m, ks) == Pieces(r, m, ks - far)
    decreases |ks|
  {
    if ks != {} {
      var k := Least(ks);
      PiecesIgnoreApart(r, m, ks - {k}, far);
      if k in far {
        assert ks - far == ks - {k} - far;
      } else {
        assert Least(ks - far) == k;
        assert ks - {k} - far == ks - far - {k};
      }
    }
  }

  lemma {:induction false} PiecesAgainstSingle(m: RangeMap, ks: set<usize>, r: Range)
    requires ks <= m.Keys
    ensures AllPieces(m, ks, Single(r)) == Pieces(r, m, ks)
    decreases |ks|
  {
    if ks != {} {
      var k := Least(ks);
      PiecesAgainstSingle(m, ks - {k}, r);
      IntersectSymmetric(r, m[k]);
      assert Single(r).Keys == {r.base};
      assert Pieces(m[k], Single(r), {r.base} - {r.base}) == [];
      assert Least({r.base}) == r.base;
    }
  }

  /** A range constraint is the meet with that single range, errors included. */
  lemma ConstrainIsMeet(m: RangeMap, r: Range)
    ensures ConstrainRange(m, r) == Meet(m, Single(r))
  {
    var near := OverlapKeys(m, r.base, r.End());
    PiecesIgnoreApart(r, m, m.Keys, m.Keys - near);
    assert m.Keys - (m.Keys - near) == near;
    PiecesAgainstSingle(m, m.Keys, r);
  }

  lemma {:induction false} SameBaseSingle(rs: seq<Range>, b: usize)
    requires |rs| > 0
    requires forall r :: r in rs ==> r.base == b
    ensures FromSeq(rs).Keys == {b}
  {
    var n := |rs| - 1;
    assert rs[n] in rs;
    if n == 0 {
      assert FromSeq(rs[..n]) == map[];
    } else {
      assert forall r :: r in rs[..n] ==> r in rs;
      SameBaseSingle(rs[..n], b);
    }
  }

  /** Pieces cut from a dead map, or by a dead range, start at one base and are dead. */
  lemma DeadPiece(m: RangeMap, r: Range, p: Range)
    requires Dead(m) || (Tame(m) && !r.Live())
    requires p in Pieces(r, m, OverlapKeys(m, r.base, r.End()))
    ensures p.base == (if Dead(m) then Max(m[Least(m.Keys)].base, r.base) else r.base) && p.End() <= p.base
  {
  }

  lemma ConstrainDead(m: RangeMap, r: Range)
    requires Dead(m) || (Tame(m) && !r.Live())
    requires ConstrainRange(m, r).Some?
    ensures Dead(ConstrainRange(m, r).value)
  {
    var pieces := Pieces(r, m, OverlapKeys(m, r.base, r.End()));
    forall p | p in pieces
      ensures p.base == pieces[0].base && p.End() <= p.base
    {
      DeadPiece(m, r, p);
      DeadPiece(m, r, pieces[0]);
    }
    SameBaseSingle(pieces, pieces[0].base);
    FromSeqOrigin(pieces, pieces[0].base);
  }

  /** A constraint leaves a tame map tame; an empty or wrapping one leaves a map without bytes. */
  lemma ConstrainTame(m: RangeMap, r: Range)
    requires Tame(m) && ConstrainRange(m, r).Some?
    ensures Tame(ConstrainRange(m, r).value)
    ensures WellFormed(m) && r.Live() ==> WellFormed(ConstrainRange(m, r).value)
    ensures Dead(m) || !r.Live() ==> Dead(ConstrainRange(m, r).value)
  {
    if WellFormed(m) && r.Live() {
      ConstrainIsMeet(m, r);
      MeetWellFormed(m, Single(r));
    }
    if Dead(m) || !r.Live() {
      ConstrainDead(m, r);
    }
  }

  /** Constraining never adds a right to a byte, whatever the map and the constraint. */
  lemma ConstrainNarrowsRange(m: RangeMap, r: Range, l: usize) returns (k: usize)
    requires ConstrainRange(m, r).Some? && l in ConstrainRange(m, r).value
    ensures k in m
    ensures var p := ConstrainRange(m, r).value[l];
            k <= l && p.End() <= m[k].End() && m[k].ops.Contains(p.ops) && r.ops.Contains(p.ops)
  {
    var near := OverlapKeys(m, r.base, r.End());
    var pieces := Pieces(r, m, near);
    FromSeqOrigin(pieces, l);
    var p := FromSeq(pieces)[l];
    PieceOrigin(r, m, near, p);
    k :| k in near && r.Intersect(m[k]) == Some(p);
    IntersectEnds(r, m[k]);
  }

  /** On a tame map everything the constrained capability permits, the original permits. */
  lemma ConstrainNeverWidens(m: RangeMap, r: Range, address: usize, size: usize, need: MemoryOps)
    requires Tame(m) && ConstrainRange(m, r).Some?
    requires Permits(ConstrainRange(m, r).value, address, size, need)
    ensures Permits(m, address, size, need)
  {
    var m' := ConstrainRange(m, r).value;
    ConstrainTame(m, r);
    if InBounds(address, size) {
      PermitsIffBytes(m, address, size, need);
      PermitsIffBytes(m', address, size, need);
      forall b | address <= b < address + size
        ensures HasRight(m, b, need)
      {
        assert HasRight(m', b, need);
        var l :| l in m' && m'[l].HasByte(b) && m'[l].ops.Contains(need);
        var k := ConstrainNarrowsRange(m, r, l);
      }
    } else {
      PermitsWrapped(m, address, size, need);
      PermitsWrapped(m', address, size, need);
      var l :| l in m' && l < WrapAdd(address, size) && address < m'[l].End() && m'[l].ops.Contains(need);
      var k := ConstrainNarrowsRange(m, r, l);
    }
  }

  /** Two live ranges that overlap, the later with more rights. */
  ghost function Overlapping(): RangeMap {
    map[0 := Range(0, 10, MemoryOps(true, false)), 5 := Range(5, 15, MemoryOps(true, true))]
  }

  /** Both pieces cut by `[6, 8)` start at 6, so the later replaces the earlier. */
  lemma OverlappingPieces()
    ensures var r := Range(6, 2, MemoryOps(true, true));
            OverlapKeys(Overlapping(), 6, 8) == {0, 5}
            && Pieces(r, Overlapping(), {0, 5}) == [Range(6, 2, MemoryOps(true, false)), r]
  {
    var m := Overlapping();
    var r := Range(6, 2, MemoryOps(true, true));
    assert OverlapKeys(m, 6, 8) == {0, 5};
    assert Least({0, 5}) == 0 && {0, 5} - {0} == {5} && Least({5}) == 5 && {5} - {5} == {};
    assert Pieces(r, m, {}) == [];
    assert Pieces(r, m, {5}) == [r] + Pieces(r, m, {});
  }

  lemma OverlappingDenies()
    ensures !Permits(Overlapping(), 6, 2, MemoryOps(false, true)) && !Tame(Overlapping())
  {
    var m := Overlapping();
    OverlappingPieces();
    assert Least({0, 5}) == 0;
    assert 0 in m && 5 in m && m[0].End() == 10;
  }

  lemma TwoAtOneBase(p: Range, r: Range)
    requires p.base == r.base
    ensures FromSeq([p, r]) == Single(r)
  {
    assert [p, r][..1] == [p] && [p][..0] == [];
    assert FromSeq([]) == map[];
    assert FromSeq([p]) == Single(p);
  }

  lemma SingleGrants(r: Range, need: MemoryOps)
    requires r.Live() && r.ops.Contains(need)
    ensures Permits(Single(r), r.base, r.size, need)
  {
    forall b | r.base <= b < r.base + r.size
      ensures HasRight(Single(r), b, need)
    {
      assert Single(r)[r.base].HasByte(b);
    }
    PermitsIffBytes(Single(r), r.base, r.size, need);
  }

  ghost predicate Widens(m: RangeMap, r: Range, address: usize, size: usize, need: MemoryOps) {
    && ConstrainRange(m, r).Some?
    && Permits(ConstrainRange(m, r).value, address, size, need) && !Permits(m, address, size, need)
  }

  /** Without disjointness a constraint can widen: the later of two equal-based pieces replaces the earlier. */
  lemma ConstrainWidensOverlapping()
    ensures exists m: RangeMap, r: Range, address: usize, size: usize, need: MemoryOps ::
      (forall k :: k in m ==> m[k].Live()) && !Tame(m) && r.Live() && Widens(m, r, address, size, need)
  {
    var m := Overlapping();
    var r := Range(6, 2, MemoryOps(true, true));
    var w := MemoryOps(false, true);
    OverlappingPieces();
    OverlappingDenies();
    TwoAtOneBase(Range(6, 2, MemoryOps(true, false)), r);
    SingleGrants(r, w);
    assert ConstrainRange(m, r).value == Single(r);
    assert Widens(m, r, 6, 2, w);
  }

  /** `split`: one capability per range, in base order. */
  function Split(m: RangeMap, ks: set<usize>): (parts: seq<RangeMap>)
    requires ks <= m.Keys
    ensures forall p :: p in parts <==> exists k :: k in ks && p == Single(m[k])
    decreases |ks|
  {
    if ks == {} then [] else
      var k := Least(ks);
      [Single(m[k])] + Split(m, ks - {k})
  }

  /** A part of a split is tame and permits no more than the whole. */
  lemma SplitNarrows(m: RangeMap, k: usize, address: usize, size: usize, need: MemoryOps)
    requires Tame(m) && k in m
    ensures Tame(Single(m[k]))
    ensures Permits(Single(m[k]), address, size, need) ==> Permits(m, address, size, need)
  {
    var part := Single(m[k]);
    if Dead(m) {
      assert part.Keys == {k};
    }
    if InBounds(address, size) {
      PermitsIffBytes(m, address, size, need);
      PermitsIffBytes(part, address, size, need);
      assert forall b :: HasRight(part, b, need) ==> HasRight(m, b, need);
      assert AllBytesHaveRight(part, address, size, need) ==> AllBytesHaveRight(m, address, size, need);
    } else {
      PermitsWrapped(m, address, size, need);
      PermitsWrapped(part, address, size, need);
    }
  }

  predicate RangeLeq(r: Range, s: Range) {
    s.ContainsRange(r) && s.ops.Contains(r.ops)
  }

  /** `leq`: each range lies in one range of the other with at least its rights. */
  predicate Leq(a: RangeMap, b: RangeMap) {
    forall j :: j in a ==> exists k :: k in b && RangeLeq(a[j], b[k])
  }

  lemma LeqPreorder(a: RangeMap, b: RangeMap, c: RangeMap)
    ensures Leq(a, a)
    ensures Leq(a, b) && Leq(b, c) ==> Leq(a, c)
  {
    assert forall j :: j in a ==> RangeLeq(a[j], a[j]);
    if Leq(a, b) && Leq(b, c) {
      forall j | j in a
        ensures exists l :: l in c && RangeLeq(a[j], c[l])
      {
        var k :| k in b && RangeLeq(a[j], b[k]);
        var l :| l in c && RangeLeq(b[k], c[l]);
        assert RangeLeq(a[j], c[l]);
      }
    }
  }

  /** The coded order is sound for what is permitted, whatever the smaller map looks like. */
  lemma LeqSound(a: RangeMap, b: RangeMap, address: usize, size: usize, need: MemoryOps)
    requires Tame(b) && Leq(a, b)
    requires Permits(a, address, size, need)
    ensures Permits(b, address, size, need)
  {
    if InBounds(address, size) {
      PermitsSound(a, address, size, need);
      PermitsIffBytes(b, address, size, need);
      forall x | address <= x < address + size
        ensures HasRight(b, x, need)
      {
        assert HasRight(a, x, need);
        var j :| j in a && a[j].HasByte(x) && a[j].ops.Contains(need);
        var k :| k in b && RangeLeq(a[j], b[k]);
        assert b[k].HasByte(x);
      }
    } else {
      PermitsWrapped(b, address, size, need);
      var j := Least(OverlapKeys(a, address, WrapAdd(address, size)));
      assert a[j].ops.Contains(need);
      var k :| k in b && RangeLeq(a[j], b[k]);
    }
  }

  /** In the coded order the meet is the greatest lower bound, among bounds whose ranges all carry a right. */
  lemma MeetGreatest(a: RangeMap, b: RangeMap, c: RangeMap)
    requires WellFormed(a) && WellFormed(b) && WellFormed(c) && c != map[]
    requires forall l :: l in c ==> !c[l].ops.IsEmpty()
    ensures Leq(c, a) && Leq(c, b) <==> Meet(a, b).Some? && Leq(c, Meet(a, b).value)
  {
    if Leq(c, a) && Leq(c, b) {
      forall l | l in c
        ensures Meet(a, b).Some? && exists k :: k in Meet(a, b).value && RangeLeq(c[l], Meet(a, b).value[k])
      {
        var k := BoundInMeet(a, b, c[l]);
      }
      var l :| l in c;
    } else if Meet(a, b).Some? && Leq(c, Meet(a, b).value) {
      MeetBelow(a, b);
      LeqPreorder(c, Meet(a, b).value, a);
      LeqPreorder(c, Meet(a, b).value, b);
    }
  }

  lemma BoundInMeet(a: RangeMap, b: RangeMap, r: Range) returns (k: usize)
    requires WellFormed(a) && WellFormed(b) && r.Live() && !r.ops.IsEmpty()
    requires exists i :: i in a && RangeLeq(r, a[i])
    requires exists i :: i in b && RangeLeq(r, b[i])
    ensures Meet(a, b).Some? && k in Meet(a, b).value && RangeLeq(r, Meet(a, b).value[k])
  {
    var i :| i in a && RangeLeq(r, a[i]);
    var j :| j in b && RangeLeq(r, b[j]);
    assert a[i].HasByte(r.base) && b[j].HasByte(r.base);
    var p := Offspring(a, b, i, j, r.base);
    MeetKeepsPieces(a, b, p);
    assert p.HasByte(r.End() - 1);
    k := p.base;
  }

  lemma MeetBelow(a: RangeMap, b: RangeMap)
    requires WellFormed(a) && WellFormed(b) && Meet(a, b).Some?
    ensures Leq(Meet(a, b).value, a) && Leq(Meet(a, b).value, b)
  {
    var m := Meet(a, b).value;
    forall l | l in m
      ensures exists j :: j in a && RangeLeq(m[l], a[j])
      ensures exists k :: k in b && RangeLeq(m[l], b[k])
    {
      MeetKeepsPieces(a, b, m[l]);
      var j, k := Parents(a, b, m[l]);
      assert m[l].HasByte(m[l].End() - 1);
      assert RangeLeq(m[l], a[j]) && RangeLeq(m[l], b[k]);
    }
  }

  method ComputeConstrainRange(m: RangeMap, base: usize, size: usize, read: bool, write: bool)
      returns (r: Option<RangeMap>)
    ensures r == ConstrainRange(m, Range(base, size, MemoryOps(read, write)))
  {
    var request := Range(base, size, MemoryOps(read, write));
    var todo := OverlapKeys(m, base, WrapAdd(base, size));
    if todo == {} {
      return None;
    }
    var pieces: seq<Range> := [];
    ghost var all := Pieces(request, m, todo);
    while todo != {}
      invariant todo <= m.Keys
      invariant pieces + Pieces(request, m, todo) == all
      decreases |todo|
    {
      var k := Least(todo);
      IntersectSymmetric(request, m[k]);
      var piece := m[k].Intersect(request);
      if piece.Some? {
        pieces := pieces + [piece.value];
      }
      todo := todo - {k};
    }
    assert pieces + [] == pieces;
    if |pieces| == 0 {
      return None;
    }
    r := Some(FromSeq(pieces));
  }

  /** The inner loop of `meet`: push the intersections of one range with all ranges of `b`. */
  method PushPieces(r: Range, b: RangeMap, pieces: seq<Range>) returns (result: seq<Range>)
    ensures result == pieces + Pieces(r, b, b.Keys)
  {
    result := pieces;
    var todo := b.Keys;
    while todo != {}
      invariant todo <= b.Keys
      invariant result + Pieces(r, b, todo) == pieces + Pieces(r, b, b.Keys)
      decreases |todo|
    {
      var k := Least(todo);
      var piece := r.Intersect(b[k]);
      if piece.Some? {
        result := result + [piece.value];
      }
      todo := todo - {k};
    }
    assert result + [] == result;
  }

  method ComputeMeet(a: RangeMap, b: RangeMap) returns (r: Option<RangeMap>)
    ensures r == Meet(a, b)
  {
    var pieces: seq<Range> := [];
    var todo := a.Keys;
    while todo != {}
      invariant todo <= a.Keys
      invariant pieces + AllPieces(a, todo, b) == AllPieces(a, a.Keys, b)
      decreases |todo|
    {
      var j := Least(todo);
      ghost var before := pieces;
      pieces := PushPieces(a[j], b, pieces);
      assert pieces + AllPieces(a, todo - {j}, b) == before + AllPieces(a, todo, b);
      todo := todo - {j};
    }
    assert pieces + [] == pieces;
    if |pieces| == 0 {
      return None;
    }
    r := Some(FromSeq(pieces));
  }
}

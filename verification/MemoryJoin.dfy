/**
 * The join of memory capabilities as coded, with its two nested loops over ranges and over the overlapping
 * entries of a map that changes under them, and which bytes are left in the map when they are done.
 */
module MemoryJoin {
  import opened MachineInt
  import opened MemoryRanges

  function OverlapsWith(m: RangeMap, r: Range): set<usize> {
    set k | k in m && m[k].Overlaps(r)
  }

  /** The range that encompasses both, with the rights of both. */
  function Hull(e: Range, r: Range): Range {
    var b := Min(e.base, r.base);
    Range(b, WrapSub(Max(e.End(), r.End()), b), e.ops.Or(r.ops))
  }

  /** One pass of the inner loop: take the entry at `k` out and put its hull with `r` in. */
  function Replace(m: RangeMap, k: usize, r: Range): RangeMap {
    if k in m then (m - {k})[Hull(m[k], r).base := Hull(m[k], r)] else m
  }

  function Absorb(m: RangeMap, ks: set<usize>, r: Range): RangeMap
    decreases |ks|
  {
    if ks == {} then m else
      var k := Least(ks);
      Absorb(Replace(m, k, r), ks - {k}, r)
  }

  /** One pass of the outer loop. */
  function JoinStep(m: RangeMap, r: Range): RangeMap {
    var ks := OverlapsWith(m, r);
    if ks == {} then m[r.base := r] else Absorb(m, ks, r)
  }

  function JoinFrom(m: RangeMap, other: RangeMap, ks: set<usize>): RangeMap
    requires ks <= other.Keys
    decreases |ks|
  {
    if ks == {} then m else
      var k := Least(ks);
      JoinFrom(JoinStep(m, other[k]), other, ks - {k})
  }

  function Join(a: RangeMap, b: RangeMap): RangeMap {
    JoinFrom(a, b, b.Keys)
  }

  // ----- what one step does to single entries

  lemma HullMeaning(e: Range, r: Range)
    requires e.Live() && e.Overlaps(r)
    ensures var h := Hull(e, r);
            && h.Live() && h.base == Min(e.base, r.base) && h.End() == Max(e.End(), r.End())
            && h.ops == e.ops.Or(r.ops)
            && (forall b :: h.HasByte(b) <==> e.HasByte(b) || r.HasByte(b))
  {
  }

  ghost predicate IsHull(m: RangeMap, ks: set<usize>, r: Range, h: Range) {
    exists j :: j in m && j in ks && h == Hull(m[j], r)
  }

  /** Every entry after absorbing is an untouched old entry or the hull of an old one with `r`. */
  lemma {:induction false} AbsorbOrigin(m: RangeMap, ks: set<usize>, r: Range, k: usize)
    requires ks <= m.Keys
    requires k in Absorb(m, ks, r)
    ensures (k in m && k !in ks && Absorb(m, ks, r)[k] == m[k]) || IsHull(m, ks, r, Absorb(m, ks, r)[k])
    decreases |ks|
  {
    if ks != {} {
      var l := Least(ks);
      var m1 := Replace(m, l, r);
      var ks1 := ks - {l};
      assert forall j :: j in ks1 ==> j in m1 && m1[j] == m[j];
      AbsorbOrigin(m1, ks1, r, k);
      if k in m1 && k !in ks1 && Absorb(m, ks, r)[k] == m1[k] {
        if k == Hull(m[l], r).base {
          assert IsHull(m, ks, r, m1[k]);
        }
      }
    }
  }

  /** The same for a whole step. */
  lemma StepOrigin(m: RangeMap, r: Range, k: usize)
    requires k in JoinStep(m, r)
    ensures var e := JoinStep(m, r)[k];
            || (k in m && e == m[k] && !e.Overlaps(r))
            || (k == r.base && e == r && OverlapsWith(m, r) == {})
            || IsHull(m, OverlapsWith(m, r), r, e)
  {
    var ks := OverlapsWith(m, r);
    if ks != {} {
      AbsorbOrigin(m, ks, r, k);
      assert JoinStep(m, r) == Absorb(m, ks, r);
      assert k in m && k !in ks ==> !m[k].Overlaps(r);
    }
  }

  // ----- coverage

  /** One entry reaches from `x` to `y`. */
  ghost predicate Holds(m: RangeMap, x: int, y: int) {
    exists k :: k in m && k <= x && y <= m[k].End()
  }

  /** Every interval inside one entry of `m` is inside one entry of `m'`. */
  ghost predicate Keeps(m: RangeMap, m': RangeMap) {
    forall x, y :: x < y && Holds(m, x, y) ==> Holds(m', x, y)
  }

  /** Dead entries lie below `lo`; ends are monotone in base among live entries. */
  ghost predicate Mono(m: RangeMap, lo: int) {
    && (forall k :: k in m ==> m[k].Live() || k < lo)
    && (forall j, k :: j in m && k in m && j < k && m[j].Live() && m[k].Live() ==> m[j].End() <= m[k].End())
  }

  /** The state inside the inner loop: entries at `ks` are still to be absorbed into `r`. */
  ghost predicate Absorbing(m: RangeMap, ks: set<usize>, r: Range, lo: int) {
    && ks <= m.Keys && r.Live() && lo <= r.base
    && (forall k :: k in m ==> m[k].Live() || k < lo)
    && (forall k :: k in ks ==> m[k].Live() && m[k].Overlaps(r))
    && (forall k :: k in m && k !in ks && m[k].Live() && m[k].Overlaps(r) ==> k <= r.base && r.End() <= m[k].End())
    && EndsRise(m, ks, r)
  }

  /** Ends are monotone in base, counting for an entry at `ks` the end its hull with `r` will have. */
  ghost predicate EndsRise(m: RangeMap, ks: set<usize>, r: Range) {
    forall j, k :: j in m && k in m && j < k && m[j].Live() && m[k].Live() ==>
      m[j].End() <= if k in ks then Max(m[k].End(), r.End()) else m[k].End()
  }

  /** One inner pass keeps the state and every interval that was inside one entry. */
  lemma AbsorbingStep(m: RangeMap, ks: set<usize>, r: Range, lo: int)
    requires Absorbing(m, ks, r, lo) && ks != {}
    ensures var k := Least(ks); Absorbing(Replace(m, k, r), ks - {k}, r, lo)
    ensures Keeps(m, Replace(m, Least(ks), r))
    ensures Holds(Replace(m, Least(ks), r), r.base, r.End())
  {
    var k := Least(ks);
    var h := Hull(m[k], r);
    HullMeaning(m[k], r);
    var m1 := Replace(m, k, r);
    assert forall j :: j in m1 ==> j == h.base || (j in m && j != k && m1[j] == m[j]);
    AbsorbingOrder(m, ks, r, lo);
    forall x, y | x < y && Holds(m, x, y)
      ensures Holds(m1, x, y)
    {
      var j :| j in m && j <= x && y <= m[j].End();
      if j == k || j == h.base {
        assert h.base in m1;
      } else {
        assert j in m1;
      }
    }
    assert h.base in m1;
  }

  lemma ReplaceRises(m: RangeMap, ks: set<usize>, r: Range, lo: int)
    requires Absorbing(m, ks, r, lo) && ks != {}
    ensures EndsRise(Replace(m, Least(ks), r), ks - {Least(ks)}, r)
  {
    var k := Least(ks);
    var h := Hull(m[k], r);
    HullMeaning(m[k], r);
    var m1, ks1 := Replace(m, k, r), ks - {k};
    forall i, j | i in m1 && j in m1 && i < j && m1[i].Live() && m1[j].Live()
      ensures m1[i].End() <= if j in ks1 then Max(m1[j].End(), r.End()) else m1[j].End()
    {
      if i == h.base {
      } else if j == h.base {
      } else {
        assert i in m && j in m && m1[i] == m[i] && m1[j] == m[j];
      }
    }
  }

  lemma AbsorbingOrder(m: RangeMap, ks: set<usize>, r: Range, lo: int)
    requires Absorbing(m, ks, r, lo) && ks != {}
    ensures Absorbing(Replace(m, Least(ks), r), ks - {Least(ks)}, r, lo)
  {
    HullMeaning(m[Least(ks)], r);
    ReplaceRises(m, ks, r, lo);
  }

  lemma {:induction false} AbsorbKeeps(m: RangeMap, ks: set<usize>, r: Range, lo: int)
    requires Absorbing(m, ks, r, lo)
    ensures Mono(Absorb(m, ks, r), lo)
    ensures Keeps(m, Absorb(m, ks, r))
    ensures ks != {} ==> Holds(Absorb(m, ks, r), r.base, r.End())
    decreases |ks|
  {
    if ks != {} {
      AbsorbingStep(m, ks, r, lo);
      AbsorbKeeps(Replace(m, Least(ks), r), ks - {Least(ks)}, r, lo);
    }
  }

  lemma InsertApart(m: RangeMap, r: Range, lo: int)
    requires Mono(m, lo) && r.Live() && lo <= r.base && OverlapsWith(m, r) == {}
    ensures r.base !in m && Mono(m[r.base := r], lo)
  {
    assert r.base in m ==> r.base in OverlapsWith(m, r);
    forall j | j in m && m[j].Live()
      ensures j < r.base ==> m[j].End() <= r.End()
      ensures j > r.base ==> r.End() <= m[j].End()
    {
      assert j !in OverlapsWith(m, r);
    }
  }

  lemma InsertHolds(m: RangeMap, r: Range, x: int, y: int)
    requires r.base !in m && Holds(m, x, y)
    ensures Holds(m[r.base := r], x, y)
  {
    var j :| j in m && j <= x && y <= m[j].End();
    assert j in m[r.base := r];
  }

  /** A live range joins without any loss. */
  lemma StepLive(m: RangeMap, r: Range, lo: int)
    requires Mono(m, lo) && r.Live() && lo <= r.base
    ensures Mono(JoinStep(m, r), lo)
    ensures Keeps(m, JoinStep(m, r))
    ensures Holds(JoinStep(m, r), r.base, r.End())
  {
    var ks := OverlapsWith(m, r);
    if ks == {} {
      InsertApart(m, r, lo);
      forall x, y | x < y && Holds(m, x, y)
        ensures Holds(m[r.base := r], x, y)
      {
        InsertHolds(m, r, x, y);
      }
      assert r.base in m[r.base := r];
    } else {
      AbsorbKeeps(m, ks, r, lo);
    }
  }

  /** Absorbing a dead range changes rights only. */
  lemma {:induction false} AbsorbDead(m: RangeMap, ks: set<usize>, r: Range)
    requires ks <= m.Keys && !r.Live()
    requires forall k :: k in ks ==> m[k].Live() && m[k].Overlaps(r)
    ensures Absorb(m, ks, r).Keys == m.Keys
    ensures forall k :: k in m ==> Absorb(m, ks, r)[k].End() == m[k].End()
    decreases |ks|
  {
    if ks != {} {
      var k := Least(ks);
      HullMeaning(m[k], r);
      assert Replace(m, k, r).Keys == m.Keys;
      AbsorbDead(Replace(m, k, r), ks - {k}, r);
    }
  }

  /** Same bases and ends: the order of ends and every held interval stay. */
  lemma SameEnds(m: RangeMap, m': RangeMap, lo: int)
    requires Mono(m, lo) && m'.Keys == m.Keys && forall k :: k in m ==> m'[k].End() == m[k].End()
    ensures Mono(m', lo) && Keeps(m, m')
  {
  }

  /** A dead range joins without loss unless its base is already a key. */
  lemma StepDead(m: RangeMap, r: Range, lo: int)
    requires Mono(m, lo) && !r.Live() && lo <= r.base && r.base !in m
    ensures Mono(JoinStep(m, r), r.base + 1)
    ensures Keeps(m, JoinStep(m, r))
  {
    var ks := OverlapsWith(m, r);
    if ks == {} {
      forall x, y | x < y && Holds(m, x, y)
        ensures Holds(m[r.base := r], x, y)
      {
        InsertHolds(m, r, x, y);
      }
    } else {
      AbsorbDead(m, ks, r);
      SameEnds(m, JoinStep(m, r), lo);
    }
  }

  lemma HullByte(m: RangeMap, r: Range, lo: int, j: usize, b: int)
    requires Mono(m, lo) && lo <= r.base && j in OverlapsWith(m, r)
    requires Hull(m[j], r).HasByte(b)
    ensures HasByte(m, b) || r.HasByte(b)
  {
    assert m[j].Live();
    HullMeaning(m[j], r);
  }

  /** No step invents a byte. */
  lemma StepNoNewByte(m: RangeMap, r: Range, lo: int, b: int)
    requires Mono(m, lo) && lo <= r.base
    requires HasByte(JoinStep(m, r), b)
    ensures HasByte(m, b) || r.HasByte(b)
  {
    var m' := JoinStep(m, r);
    var k :| k in m' && m'[k].HasByte(b);
    StepOrigin(m, r, k);
    if IsHull(m, OverlapsWith(m, r), r, m'[k]) {
      var j :| j in m && j in OverlapsWith(m, r) && m'[k] == Hull(m[j], r);
      HullByte(m, r, lo, j, b);
    }
  }

  // ----- the byte set of a join

  /** A range of `b` without bytes sits on a base of `a` at `p`, and no range of `b` holds byte `p`. */
  ghost predicate Erases(a: RangeMap, b: RangeMap, p: usize) {
    p in a && p in b && !b[p].Live() && !HasByte(b, p)
  }

  /** Keys from `lo` on are bases of `a` that no range of `b` below `lo` reaches. */
  ghost predicate Fresh(a: RangeMap, b: RangeMap, m: RangeMap, lo: int) {
    forall k :: k in m && k >= lo ==> k in a && forall q :: q in b && q < lo ==> b[q].End() <= k
  }

  lemma StepFresh(a: RangeMap, b: RangeMap, m: RangeMap, lo: int, q: usize)
    requires Mono(m, lo) && Fresh(a, b, m, lo)
    requires q in b && lo <= q && forall x :: x in b && x >= lo ==> q <= x
    ensures Fresh(a, b, JoinStep(m, b[q]), q + 1)
  {
    var r := b[q];
    var m' := JoinStep(m, r);
    forall k | k in m' && k >= q + 1
      ensures k in m && k in a && forall x :: x in b && x < q + 1 ==> b[x].End() <= k
    {
      StepOrigin(m, r, k);
      if IsHull(m, OverlapsWith(m, r), r, m'[k]) {
        assert false;
      }
      assert m[k].Live() && !m[k].Overlaps(r);
      assert forall x :: x in b && x < q + 1 ==> x < lo || x == q;
    }
  }

  lemma StepHolds(a: RangeMap, b: RangeMap, m: RangeMap, lo: int, q: usize)
    requires Mono(m, lo) && Fresh(a, b, m, lo)
    requires q in b && lo <= q && forall x :: x in b && x >= lo ==> q <= x
    requires !Erases(a, b, q)
    ensures Mono(JoinStep(m, b[q]), q + 1) && Keeps(m, JoinStep(m, b[q]))
    ensures b[q].Live() ==> Holds(JoinStep(m, b[q]), q, b[q].End())
  {
    if b[q].Live() {
      StepLive(m, b[q], lo);
    } else {
      if q in m && q in a {
        var j :| j in b && b[j].HasByte(q);
        assert j < lo || j == q;
      }
      StepDead(m, b[q], lo);
    }
  }

  /** Without an erasing range, the join holds every interval of both sides inside one entry. */
  lemma {:induction false} JoinFromHolds(a: RangeMap, b: RangeMap, m: RangeMap, ks: set<usize>, lo: int)
    requires Mono(m, lo) && Fresh(a, b, m, lo)
    requires ks == set k | k in b && k >= lo
    requires forall p :: !Erases(a, b, p)
    ensures Keeps(m, JoinFrom(m, b, ks))
    ensures forall k :: k in ks && b[k].Live() ==> Holds(JoinFrom(m, b, ks), k, b[k].End())
    decreases |ks|
  {
    if ks != {} {
      var q := Least(ks);
      var m1 := JoinStep(m, b[q]);
      assert forall x :: x in b && x >= lo ==> x in ks;
      StepFresh(a, b, m, lo, q);
      StepHolds(a, b, m, lo, q);
      var next: int := q as int + 1;
      assert ks - {q} == set k | k in b && k >= next;
      JoinFromHolds(a, b, m1, ks - {q}, next);
    }
  }

  lemma {:induction false} JoinFromNoNewByte(b: RangeMap, m: RangeMap, ks: set<usize>, lo: int, x: int)
    requires Mono(m, lo) && ks <= b.Keys && forall k :: k in ks ==> lo <= k
    requires HasByte(JoinFrom(m, b, ks), x)
    ensures HasByte(m, x) || Covers(b, ks, x)
    decreases |ks|
  {
    if ks != {} {
      var q := Least(ks);
      StepMono(m, b[q], lo);
      JoinFromNoNewByte(b, JoinStep(m, b[q]), ks - {q}, q as int + 1, x);
      if HasByte(JoinStep(m, b[q]), x) {
        StepNoNewByte(m, b[q], lo, x);
      }
    }
  }

  /** Even an erasing step keeps the order of ends. */
  lemma StepMono(m: RangeMap, r: Range, lo: int)
    requires Mono(m, lo) && lo <= r.base
    ensures Mono(JoinStep(m, r), r.base + 1)
  {
    if r.Live() {
      StepLive(m, r, lo);
    } else if r.base !in m {
      StepDead(m, r, lo);
    } else if OverlapsWith(m, r) != {} {
      AbsorbDead(m, OverlapsWith(m, r), r);
      SameEnds(m, JoinStep(m, r), lo);
    }
  }

  /** An entry that does not meet `r` stays as it is, unless `r` has its base. */
  lemma {:induction false} AbsorbLeavesOthers(m: RangeMap, ks: set<usize>, r: Range, k: usize)
    requires ks <= m.Keys && k in m && k !in ks && k != r.base
    ensures k in Absorb(m, ks, r) && Absorb(m, ks, r)[k] == m[k]
    decreases |ks|
  {
    if ks != {} {
      var l := Least(ks);
      assert Hull(m[l], r).base == Min(l, r.base);
      AbsorbLeavesOthers(Replace(m, l, r), ks - {l}, r, k);
    }
  }

  /** Byte `p` of `a` is still only in the untouched entry at `p`. */
  ghost predicate Exposed(a: RangeMap, m: RangeMap, p: usize) {
    p in a && p in m && m[p] == a[p] && forall k :: k in m && k != p ==> !m[k].HasByte(p)
  }

  lemma StepExposed(a: RangeMap, b: RangeMap, m: RangeMap, lo: int, q: usize, p: usize)
    requires WellFormed(a) && Mono(m, lo) && Exposed(a, m, p) && Erases(a, b, p)
    requires q in b && lo <= q < p
    ensures Exposed(a, JoinStep(m, b[q]), p)
  {
    var r := b[q];
    var m' := JoinStep(m, r);
    assert !r.HasByte(p);
    assert !m[p].Overlaps(r);
    if OverlapsWith(m, r) != {} {
      AbsorbLeavesOthers(m, OverlapsWith(m, r), r, p);
    }
    forall k | k in m' && k != p
      ensures !m'[k].HasByte(p)
    {
      StepOrigin(m, r, k);
      if IsHull(m, OverlapsWith(m, r), r, m'[k]) {
        var j :| j in m && j in OverlapsWith(m, r) && m'[k] == Hull(m[j], r);
        assert m[j].Live();
        HullMeaning(m[j], r);
      }
    }
  }

  lemma LaterRangesMiss(b: RangeMap, m: RangeMap, ks: set<usize>, p: usize)
    requires Mono(m, p + 1) && ks <= b.Keys && forall k :: k in ks ==> p < k
    requires !HasByte(m, p)
    ensures !HasByte(JoinFrom(m, b, ks), p)
  {
    if HasByte(JoinFrom(m, b, ks), p) {
      JoinFromNoNewByte(b, m, ks, p as int + 1, p);
    }
  }

  lemma AfterLeast(ks: set<usize>)
    requires ks != {}
    ensures forall k :: k in ks - {Least(ks)} ==> Least(ks) + 1 <= k
  {
  }

  lemma StepMonoAt(m: RangeMap, b: RangeMap, q: usize, lo: int)
    requires Mono(m, lo) && q in b && lo <= q
    ensures Mono(JoinStep(m, b[q]), q + 1)
  {
    StepMono(m, b[q], lo);
  }

  lemma {:induction false} ErasedByteLost(a: RangeMap, b: RangeMap, m: RangeMap, ks: set<usize>, lo: int, p: usize)
    requires WellFormed(a) && Mono(m, lo) && Exposed(a, m, p) && Erases(a, b, p)
    requires p in ks && ks <= b.Keys && forall k :: k in ks ==> lo <= k
    ensures !HasByte(JoinFrom(m, b, ks), p)
    decreases |ks|
  {
    var q := Least(ks);
    var m1 := JoinStep(m, b[q]);
    AfterLeast(ks);
    StepMonoAt(m, b, q, lo);
    if q < p {
      StepExposed(a, b, m, lo, q, p);
      ErasedByteLost(a, b, m1, ks - {q}, b[q].base as int + 1, p);
    } else {
      assert q == p;
      LaterRangesMiss(b, m1, ks - {p}, p);
    }
  }

  lemma BytesAreIntervals(m: RangeMap, x: int)
    ensures HasByte(m, x) <==> Holds(m, x, x + 1)
  {
  }

  ghost predicate JoinCoversUnion(a: RangeMap, b: RangeMap) {
    forall x :: HasByte(Join(a, b), x) <==> HasByte(a, x) || HasByte(b, x)
  }

  /**
   * The byte set of a join with a well-formed capability is the union of the two byte sets
   * exactly when no empty or wrapping range of `b` sits on a base of `a` outside the bytes of `b`.
   */
  lemma JoinBytes(a: RangeMap, b: RangeMap)
    requires WellFormed(a)
    ensures JoinCoversUnion(a, b) <==> forall p :: !Erases(a, b, p)
  {
    assert b.Keys == set k | k in b && k >= 0;
    assert Mono(a, 0) && Fresh(a, b, a, 0);
    if exists p: usize :: Erases(a, b, p) {
      var p: usize :| Erases(a, b, p);
      assert Exposed(a, a, p) by {
        assert a[p].HasByte(p);
      }
      ErasedByteLost(a, b, a, b.Keys, 0, p);
      assert a[p].HasByte(p) && HasByte(a, p);
    } else {
      JoinFromHolds(a, b, a, b.Keys, 0);
      forall x
        ensures HasByte(Join(a, b), x) <==> HasByte(a, x) || HasByte(b, x)
      {
        JoinByte(a, b, x);
      }
    }
  }

  /** An empty range on the base of a range erases that range. */
  lemma JoinLosesByte()
    ensures var ops := MemoryOps(true, false);
            var a: RangeMap, b: RangeMap := map[10 := Range(10, 5, ops)], map[10 := Range(10, 0, ops)];
            WellFormed(a) && !JoinCoversUnion(a, b)
  {
    var ops := MemoryOps(true, false);
    var a: RangeMap, b: RangeMap := map[10 := Range(10, 5, ops)], map[10 := Range(10, 0, ops)];
    assert Erases(a, b, 10);
    JoinBytes(a, b);
  }

  lemma JoinByte(a: RangeMap, b: RangeMap, x: int)
    requires WellFormed(a)
    requires Keeps(a, Join(a, b))
    requires forall k :: k in b && b[k].Live() ==> Holds(Join(a, b), k, b[k].End())
    ensures HasByte(Join(a, b), x) <==> HasByte(a, x) || HasByte(b, x)
  {
    BytesAreIntervals(a, x);
    BytesAreIntervals(Join(a, b), x);
    if HasByte(Join(a, b), x) {
      JoinFromNoNewByte(b, a, b.Keys, 0, x);
    }
    if HasByte(b, x) {
      var k :| k in b && b[k].HasByte(x);
      var l :| l in Join(a, b) && l <= k && b[k].End() <= Join(a, b)[l].End();
      assert Join(a, b)[l].HasByte(x);
    }
  }

  /** Every interval inside one range of either operand is inside one entry of the join. */
  lemma JoinHolds(a: RangeMap, b: RangeMap)
    requires WellFormed(a) && WellFormed(b)
    ensures Keeps(a, Join(a, b))
    ensures forall k :: k in b && b[k].Live() ==> Holds(Join(a, b), k, b[k].End())
  {
    assert Mono(a, 0) && Fresh(a, b, a, 0);
    assert b.Keys == set k | k in b && k >= 0;
    JoinFromHolds(a, b, a, b.Keys, 0);
  }

  // ----- the loops

  /** The search loop: the bases of the entries that overlap `r`, in order. */
  method CollectOverlapping(merged: RangeMap, r: Range) returns (bases: seq<usize>)
    ensures forall k :: k in bases <==> k in OverlapsWith(merged, r)
    ensures forall i, j :: 0 <= i < j < |bases| ==> bases[i] < bases[j]
  {
    bases := [];
    var todo := merged.Keys;
    while todo != {}
      invariant todo <= merged.Keys
      invariant forall k :: k in bases <==> k in OverlapsWith(merged, r) && k !in todo
      invariant forall i, k :: 0 <= i < |bases| && k in todo ==> bases[i] < k
      invariant forall i, j :: 0 <= i < j < |bases| ==> bases[i] < bases[j]
      decreases |todo|
    {
      var k := Least(todo);
      if merged[k].Overlaps(r) {
        bases := bases + [k];
      }
      todo := todo - {k};
    }
  }

  /** The outer loop of `join`, removing and re-inserting entries of a local map. */
  method ComputeJoin(a: RangeMap, b: RangeMap) returns (joined: RangeMap)
    ensures joined == Join(a, b)
    ensures WellFormed(a) && WellFormed(b) ==>
              forall x :: HasByte(joined, x) <==> HasByte(a, x) || HasByte(b, x)
  {
    var merged: RangeMap := FromSeq(Values(a, a.Keys));
    RebuildFromValues(a);
    var todo := b.Keys;
    while todo != {}
      invariant todo <= b.Keys
      invariant JoinFrom(merged, b, todo) == Join(a, b)
      decreases |todo|
    {
      var q := Least(todo);
      merged := AddRange(merged, b[q]);
      todo := todo - {q};
    }
    RebuildFromValues(merged);
    joined := FromSeq(Values(merged, merged.Keys));
    if WellFormed(a) && WellFormed(b) {
      JoinBytes(a, b);
      assert forall p: usize :: !Erases(a, b, p);
    }
  }

  /** The body of the inner loop: take the entry out, if it is still there, and put the hull in. */
  method ReplaceEntry(merged: RangeMap, k: usize, r: Range) returns (result: RangeMap)
    ensures result == Replace(merged, k, r)
  {
    if k !in merged {
      return merged;
    }
    var existing := merged[k];
    result := merged - {k};
    var newBase := Min(existing.base, r.base);
    var newEnd := Max(existing.End(), r.End());
    result := result[newBase := Range(newBase, WrapSub(newEnd, newBase), existing.ops.Or(r.ops))];
  }

  /** One pass of the outer loop. */
  method AddRange(merged: RangeMap, r: Range) returns (result: RangeMap)
    ensures result == JoinStep(merged, r)
  {
    var bases := CollectOverlapping(merged, r);
    ghost var near := OverlapsWith(merged, r);
    if |bases| == 0 {
      assert near == {};
      return merged[r.base := r];
    }
    assert bases[0] in near;
    result := merged;
    ghost var left := near;
    for i := 0 to |bases|
      invariant forall k :: k in left <==> k in bases[i..]
      invariant Absorb(result, left, r) == JoinStep(merged, r)
    {
      NextBase(bases, i, left);
      result := ReplaceEntry(result, bases[i], r);
      left := left - {bases[i]};
    }
  }

  /** In an ascending list the next base is the least of those left. */
  lemma NextBase(bases: seq<usize>, i: nat, left: set<usize>)
    requires i < |bases|
    requires forall j, k :: 0 <= j < k < |bases| ==> bases[j] < bases[k]
    requires forall k :: k in left <==> k in bases[i..]
    ensures bases[i] in left && Least(left) == bases[i]
    ensures forall k :: k in left - {bases[i]} <==> k in bases[i + 1..]
  {
  }
}

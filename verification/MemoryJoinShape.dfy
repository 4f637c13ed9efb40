/** What a memory join of well-formed sides leaves behind, entry by entry. */
module MemoryJoinShape {
  import opened MachineInt
  import opened MemoryRanges
  import opened MemoryJoin

  // ----- one pass of the outer loop

  lemma {:induction false} GreatestExists(s: set<usize>) returns (g: usize)
    requires s != {}
    ensures g in s && forall x :: x in s ==> x <= g
    decreases |s|
  {
    var y :| y in s;
    var rest := s - {y};
    assert s == rest + {y};
    if rest == {} {
      g := y;
    } else {
      var z := GreatestExists(rest);
      g := if y >= z then y else z;
    }
  }

  /** Taking entries out in two goes, with a replacement that is itself replaced. */
  lemma RemoveTwice(m: RangeMap, l: usize, ks: set<usize>, mid: Range, last: Range)
    requires mid.base == last.base && l !in ks && mid.base !in ks
    ensures ((m - {l})[mid.base := mid] - ks)[last.base := last] == (m - (ks + {l}))[last.base := last]
  {
  }

  /** Entries from `r.base` on collapse into one: the hull of the last. */
  lemma {:induction false} AbsorbAbove(m: RangeMap, ks: set<usize>, r: Range, g: usize)
    requires ks <= m.Keys && g in ks && forall k :: k in ks ==> r.base <= k <= g
    ensures Absorb(m, ks, r) == (m - ks)[r.base := Hull(m[g], r)]
    decreases |ks|
  {
    var l := Least(ks);
    var rest := ks - {l};
    var m1 := Replace(m, l, r);
    assert rest + {l} == ks;
    if l == g {
      assert rest == {} && ks == {l};
    } else {
      assert m1 == (m - {l})[r.base := Hull(m[l], r)] && m1[g] == m[g];
      AbsorbAbove(m1, rest, r, g);
      RemoveTwice(m, l, rest, Hull(m[l], r), Hull(m[g], r));
    }
  }

  /** Where each entry after a step comes from, when at most one entry reaches `r` from below. */
  ghost predicate StepResult(m: RangeMap, r: Range, g: usize, m': RangeMap)
    requires g in m
  {
    var near := OverlapsWith(m, r);
    && (forall k :: k in m && k !in near && k != r.base ==> k in m' && m'[k] == m[k])
    && (forall k :: k in near && k < r.base ==> k in m' && m'[k] == Hull(m[k], r))
    && (g >= r.base ==> r.base in m' && m'[r.base] == Hull(m[g], r))
    && (forall k :: k in m' ==>
          || (k in m && k !in near && m'[k] == m[k])
          || (k in near && k < r.base && m'[k] == Hull(m[k], r))
          || (k == r.base && g >= r.base && m'[k] == Hull(m[g], r)))
  }

  lemma ResultAlone(m: RangeMap, r: Range, f: usize)
    requires f < r.base && OverlapsWith(m, r) == {f}
    ensures StepResult(m, r, f, (m - {f})[f := Hull(m[f], r)])
  {
  }

  lemma ResultBoth(m: RangeMap, r: Range, f: usize, g: usize)
    requires f in OverlapsWith(m, r) && g in OverlapsWith(m, r) && f < r.base <= g
    requires forall k :: k in OverlapsWith(m, r) && k != f ==> r.base <= k <= g
    ensures StepResult(m, r, g, (m - OverlapsWith(m, r))[f := Hull(m[f], r)][r.base := Hull(m[g], r)])
  {
  }

  lemma StepAbove(m: RangeMap, r: Range, g: usize)
    requires g in OverlapsWith(m, r) && forall k :: k in OverlapsWith(m, r) ==> r.base <= k <= g
    ensures JoinStep(m, r) == (m - OverlapsWith(m, r))[r.base := Hull(m[g], r)]
  {
    AbsorbAbove(m, OverlapsWith(m, r), r, g);
  }

  lemma StepBoth(m: RangeMap, r: Range, f: usize, g: usize)
    requires f in OverlapsWith(m, r) && g in OverlapsWith(m, r) && f < r.base <= g
    requires forall k :: k in OverlapsWith(m, r) && k != f ==> r.base <= k <= g
    ensures JoinStep(m, r) == (m - OverlapsWith(m, r))[f := Hull(m[f], r)][r.base := Hull(m[g], r)]
  {
    var near := OverlapsWith(m, r);
    var rest := near - {f};
    var m1: RangeMap := (m - {f})[f := Hull(m[f], r)];
    assert Least(near) == f;
    assert JoinStep(m, r) == Absorb(m1, rest, r);
    assert m1[g] == m[g];
    AbsorbAbove(m1, rest, r, g);
    RemoveAround(m, near, f, Hull(m[f], r));
  }

  lemma RemoveAround(m: RangeMap, near: set<usize>, f: usize, h: Range)
    requires f in near && h.base == f
    ensures (m - {f})[f := h] - (near - {f}) == (m - near)[f := h]
  {
  }

  lemma StepAlone(m: RangeMap, r: Range, f: usize)
    requires f < r.base && OverlapsWith(m, r) == {f}
    ensures JoinStep(m, r) == (m - {f})[f := Hull(m[f], r)]
  {
    assert f in OverlapsWith(m, r);
    assert Least({f}) == f && {f} - {f} == {};
    assert Absorb(Replace(m, f, r), {f} - {f}, r) == Replace(m, f, r);
  }

  lemma StepShape(m: RangeMap, r: Range, g: usize)
    requires g in OverlapsWith(m, r) && forall k :: k in OverlapsWith(m, r) ==> k <= g
    requires forall j, k :: j in OverlapsWith(m, r) && k in OverlapsWith(m, r) && j < r.base && k < r.base ==> j == k
    ensures StepResult(m, r, g, JoinStep(m, r))
  {
    var near := OverlapsWith(m, r);
    var f := Least(near);
    if f >= r.base {
      StepAbove(m, r, g);
    } else if f == g {
      assert near == {f};
      StepAlone(m, r, f);
      ResultAlone(m, r, f);
    } else {
      StepBoth(m, r, f, g);
      ResultBoth(m, r, f, g);
    }
  }

  // ----- the entries of the merged map

  ghost predicate Touches(a: RangeMap, b: RangeMap, o: usize, q: usize) {
    o in a && q in b && a[o].Overlaps(b[q])
  }

  /** A range of `a` is displaced by a range of `b` that starts at or below it and meets a later range of `a` too. */
  ghost predicate Displaced(a: RangeMap, b: RangeMap, o: usize, q: usize) {
    Touches(a, b, o, q) && q <= o && exists k :: o < k && Touches(a, b, k, q)
  }

  ghost predicate Survives(a: RangeMap, b: RangeMap, done: set<usize>, o: usize) {
    o in a && forall q :: q in done ==> !Displaced(a, b, o, q)
  }

  /** The rights of `a[o]` and of the merged ranges that meet it. */
  ghost function Gathered(a: RangeMap, b: RangeMap, done: set<usize>, o: usize): MemoryOps
    requires o in a
  {
    MemoryOps(a[o].ops.read || exists q :: q in done && Touches(a, b, o, q) && b[q].ops.read,
              a[o].ops.write || exists q :: q in done && Touches(a, b, o, q) && b[q].ops.write)
  }

  /** `e` spans exactly `a[o]` and the merged ranges that meet it. */
  ghost predicate Spans(a: RangeMap, b: RangeMap, done: set<usize>, o: usize, e: Range)
    requires o in a
  {
    && e.base <= o && a[o].End() <= e.End()
    && (forall q :: q in done && Touches(a, b, o, q) ==> e.base <= q && b[q].End() <= e.End())
    && (e.base == o || (e.base in done && Touches(a, b, o, e.base)))
    && (e.End() == a[o].End() || exists q :: q in done && Touches(a, b, o, q) && e.End() == b[q].End())
  }

  ghost predicate IsEntry(a: RangeMap, b: RangeMap, done: set<usize>, o: usize, e: Range) {
    o in a && e.Live() && Spans(a, b, done, o, e) && e.ops == Gathered(a, b, done, o)
  }

  /** A range of `b` that meets no range of `a`. */
  ghost predicate Apart(a: RangeMap, b: RangeMap, done: set<usize>, k: usize, e: Range) {
    k in done && k in b && e == b[k] && forall o :: !Touches(a, b, o, k)
  }

  ghost predicate HasEntry(a: RangeMap, b: RangeMap, done: set<usize>, m: RangeMap, o: usize) {
    exists k :: k in m && IsEntry(a, b, done, o, m[k])
  }

  ghost predicate HasOwner(a: RangeMap, b: RangeMap, done: set<usize>, e: Range) {
    exists o :: Survives(a, b, done, o) && IsEntry(a, b, done, o, e)
  }

  /** Each range of `a` not displaced has an entry, and every entry is one of those or a range of `b` apart from `a`. */
  ghost predicate Shaped(a: RangeMap, b: RangeMap, done: set<usize>, m: RangeMap) {
    && (forall o :: Survives(a, b, done, o) ==> HasEntry(a, b, done, m, o))
    && (forall k :: k in m ==> Apart(a, b, done, k, m[k]) || HasOwner(a, b, done, m[k]))
  }

  /** `q` is the next range of `b`. */
  ghost predicate IsNext(a: RangeMap, b: RangeMap, done: set<usize>, q: usize) {
    WellFormed(a) && WellFormed(b) && done <= b.Keys && q in b && forall p :: p in done ==> p < q
  }

  /** A range of `a` from `q` on has not been merged with anything yet. */
  lemma EntryUntouched(a: RangeMap, b: RangeMap, done: set<usize>, q: usize, o: usize, e: Range)
    requires IsNext(a, b, done, q) && IsEntry(a, b, done, o, e) && q <= o
    ensures e == a[o]
  {
  }

  lemma TouchingSurvives(a: RangeMap, b: RangeMap, done: set<usize>, q: usize, o: usize)
    requires IsNext(a, b, done, q) && Touches(a, b, o, q)
    ensures Survives(a, b, done, o)
  {
  }

  lemma HullIsEntry(a: RangeMap, b: RangeMap, done: set<usize>, q: usize, o: usize, e: Range)
    requires IsNext(a, b, done, q) && IsEntry(a, b, done, o, e) && Touches(a, b, o, q)
    ensures IsEntry(a, b, done + {q}, o, Hull(e, b[q]))
  {
    HullMeaning(e, b[q]);
    var h := Hull(e, b[q]);
    assert h.ops == Gathered(a, b, done + {q}, o);
  }

  // ----- a step keeps the shape

  /** Near entries, seen from the ranges of `a` they belong to. */
  lemma NearHasOwner(a: RangeMap, b: RangeMap, done: set<usize>, m: RangeMap, q: usize, k: usize) returns (o: usize)
    requires IsNext(a, b, done, q) && Shaped(a, b, done, m)
    requires k in OverlapsWith(m, b[q])
    ensures Touches(a, b, o, q) && IsEntry(a, b, done, o, m[k])
    ensures k < q ==> o < q
    ensures q <= k ==> o == k && m[k] == a[k]
  {
    if Apart(a, b, done, k, m[k]) {
      assert false;
    }
    o :| Survives(a, b, done, o) && IsEntry(a, b, done, o, m[k]);
    if q <= o {
      EntryUntouched(a, b, done, q, o, m[k]);
    }
  }

  /** At most one range of `a` reaches `b[q]` from below. */
  lemma OneBelow(a: RangeMap, b: RangeMap, q: usize, i: usize, j: usize)
    requires WellFormed(a) && WellFormed(b)
    requires Touches(a, b, i, q) && Touches(a, b, j, q) && i < q && j < q
    ensures i == j
  {
  }

  /** One range of `a` has only one entry. */
  lemma SameEntry(a: RangeMap, b: RangeMap, done: set<usize>, o: usize, e: Range, f: Range)
    requires IsEntry(a, b, done, o, e) && IsEntry(a, b, done, o, f)
    ensures e == f
  {
  }

  lemma NearOneBelow(a: RangeMap, b: RangeMap, done: set<usize>, m: RangeMap, q: usize, j: usize, k: usize)
    requires IsNext(a, b, done, q) && Shaped(a, b, done, m)
    requires j in OverlapsWith(m, b[q]) && k in OverlapsWith(m, b[q]) && j < q && k < q
    ensures j == k
  {
    var i := NearHasOwner(a, b, done, m, q, j);
    var o := NearHasOwner(a, b, done, m, q, k);
    OneBelow(a, b, q, i, o);
    SameEntry(a, b, done, o, m[j], m[k]);
  }

  /** A range of `a` that meets `b[q]` has a near entry: its own, or from `q` on itself. */
  lemma TouchedIsNear(a: RangeMap, b: RangeMap, done: set<usize>, m: RangeMap, q: usize, o: usize) returns (k: usize)
    requires IsNext(a, b, done, q) && Shaped(a, b, done, m) && Touches(a, b, o, q)
    ensures k in OverlapsWith(m, b[q]) && IsEntry(a, b, done, o, m[k])
    ensures o < q ==> k < q
    ensures q <= o ==> k == o
  {
    TouchingSurvives(a, b, done, q, o);
    assert HasEntry(a, b, done, m, o);
    k :| k in m && IsEntry(a, b, done, o, m[k]);
    if q <= o {
      EntryUntouched(a, b, done, q, o, m[k]);
    }
  }

  lemma SurvivesMore(a: RangeMap, b: RangeMap, done: set<usize>, q: usize, o: usize)
    ensures Survives(a, b, done + {q}, o) <==> Survives(a, b, done, o) && !Displaced(a, b, o, q)
  {
  }

  /** An entry away from `b[q]` and what it stands for are not changed by the step. */
  lemma FarEntryStays(a: RangeMap, b: RangeMap, done: set<usize>, m: RangeMap, q: usize, o: usize, k: usize)
    requires IsNext(a, b, done, q) && k in m && IsEntry(a, b, done, o, m[k])
    ensures k !in OverlapsWith(m, b[q]) <==> !Touches(a, b, o, q)
    ensures !Touches(a, b, o, q) ==> k != q && IsEntry(a, b, done + {q}, o, m[k])
  {
  }

  lemma NothingTouches(a: RangeMap, b: RangeMap, done: set<usize>, m: RangeMap, q: usize, o: usize)
    requires IsNext(a, b, done, q) && Shaped(a, b, done, m) && OverlapsWith(m, b[q]) == {}
    ensures !Touches(a, b, o, q)
  {
    if Touches(a, b, o, q) {
      var k := TouchedIsNear(a, b, done, m, q, o);
    }
  }

  lemma StepApartEntry(a: RangeMap, b: RangeMap, done: set<usize>, m: RangeMap, q: usize, o: usize)
    requires IsNext(a, b, done, q) && Shaped(a, b, done, m) && OverlapsWith(m, b[q]) == {}
    requires Survives(a, b, done + {q}, o)
    ensures HasEntry(a, b, done + {q}, m[q := b[q]], o)
  {
    NothingTouches(a, b, done, m, q, o);
    SurvivesMore(a, b, done, q, o);
    assert HasEntry(a, b, done, m, o);
    var k :| k in m && IsEntry(a, b, done, o, m[k]);
    FarEntryStays(a, b, done, m, q, o, k);
    assert m[q := b[q]][k] == m[k];
  }

  lemma StepApartShaped(a: RangeMap, b: RangeMap, done: set<usize>, m: RangeMap, q: usize)
    requires IsNext(a, b, done, q) && Shaped(a, b, done, m) && OverlapsWith(m, b[q]) == {}
    ensures Shaped(a, b, done + {q}, m[q := b[q]])
  {
    var m' := m[q := b[q]];
    forall o | Survives(a, b, done + {q}, o)
      ensures HasEntry(a, b, done + {q}, m', o)
    {
      StepApartEntry(a, b, done, m, q, o);
    }
    forall k | k in m'
      ensures Apart(a, b, done + {q}, k, m'[k]) || HasOwner(a, b, done + {q}, m'[k])
    {
      if k == q {
        forall o
          ensures !Touches(a, b, o, q)
        {
          NothingTouches(a, b, done, m, q, o);
        }
      } else {
        FarOwnerStays(a, b, done, m, q, k);
      }
    }
  }

  lemma FarOwnerStays(a: RangeMap, b: RangeMap, done: set<usize>, m: RangeMap, q: usize, k: usize)
    requires IsNext(a, b, done, q) && Shaped(a, b, done, m) && k in m && k !in OverlapsWith(m, b[q])
    ensures Apart(a, b, done + {q}, k, m[k]) || HasOwner(a, b, done + {q}, m[k])
  {
    if !Apart(a, b, done, k, m[k]) {
      var o :| Survives(a, b, done, o) && IsEntry(a, b, done, o, m[k]);
      FarEntryStays(a, b, done, m, q, o, k);
      SurvivesMore(a, b, done, q, o);
    }
  }

  /** The greatest near key, if it is not below `q`, is the last range of `a` that meets `b[q]`. */
  lemma GreatestIsLast(a: RangeMap, b: RangeMap, done: set<usize>, m: RangeMap, q: usize, g: usize, o: usize)
    requires IsNext(a, b, done, q) && Shaped(a, b, done, m)
    requires g in OverlapsWith(m, b[q]) && forall k :: k in OverlapsWith(m, b[q]) ==> k <= g
    requires Touches(a, b, o, q) && q <= o
    ensures q <= g && o <= g && Touches(a, b, g, q) && m[g] == a[g]
    ensures IsEntry(a, b, done, g, m[g])
  {
    var k := TouchedIsNear(a, b, done, m, q, o);
    var i := NearHasOwner(a, b, done, m, q, g);
  }

  lemma StepMeetsEntry(a: RangeMap, b: RangeMap, done: set<usize>, m: RangeMap, q: usize,
                       g: usize, m': RangeMap, o: usize)
    requires IsNext(a, b, done, q) && Shaped(a, b, done, m)
    requires g in OverlapsWith(m, b[q]) && forall k :: k in OverlapsWith(m, b[q]) ==> k <= g
    requires StepResult(m, b[q], g, m')
    requires Survives(a, b, done + {q}, o)
    ensures HasEntry(a, b, done + {q}, m', o)
  {
    SurvivesMore(a, b, done, q, o);
    if !Touches(a, b, o, q) {
      assert HasEntry(a, b, done, m, o);
      var k :| k in m && IsEntry(a, b, done, o, m[k]);
      FarEntryStays(a, b, done, m, q, o, k);
      assert m'[k] == m[k];
    } else {
      var k := TouchedIsNear(a, b, done, m, q, o);
      HullIsEntry(a, b, done, q, o, m[k]);
      if o < q {
        assert m'[k] == Hull(m[k], b[q]);
      } else {
        GreatestIsLast(a, b, done, m, q, g, o);
        assert g == o;
        assert m'[q] == Hull(m[g], b[q]);
      }
    }
  }

  lemma StepMeetsOwner(a: RangeMap, b: RangeMap, done: set<usize>, m: RangeMap, q: usize,
                       g: usize, m': RangeMap, k: usize)
    requires IsNext(a, b, done, q) && Shaped(a, b, done, m)
    requires g in OverlapsWith(m, b[q]) && forall k :: k in OverlapsWith(m, b[q]) ==> k <= g
    requires StepResult(m, b[q], g, m') && k in m'
    ensures Apart(a, b, done + {q}, k, m'[k]) || HasOwner(a, b, done + {q}, m'[k])
  {
    var near := OverlapsWith(m, b[q]);
    if k in m && k !in near && m'[k] == m[k] {
      FarOwnerStays(a, b, done, m, q, k);
    } else {
      var from := if k in near && k < q && m'[k] == Hull(m[k], b[q]) then k else g;
      var o := NearHasOwner(a, b, done, m, q, from);
      HullIsEntry(a, b, done, q, o, m[from]);
      TouchingSurvives(a, b, done, q, o);
      forall i | o < i && Touches(a, b, i, q) && q <= o
        ensures false
      {
        GreatestIsLast(a, b, done, m, q, g, i);
      }
      SurvivesMore(a, b, done, q, o);
    }
  }

  lemma StepShaped(a: RangeMap, b: RangeMap, done: set<usize>, m: RangeMap, q: usize)
    requires IsNext(a, b, done, q) && Shaped(a, b, done, m)
    ensures Shaped(a, b, done + {q}, JoinStep(m, b[q]))
  {
    var near := OverlapsWith(m, b[q]);
    if near == {} {
      StepApartShaped(a, b, done, m, q);
    } else {
      var g := GreatestExists(near);
      forall j, k | j in near && k in near && j < q && k < q
        ensures j == k
      {
        NearOneBelow(a, b, done, m, q, j, k);
      }
      StepShape(m, b[q], g);
      var m' := JoinStep(m, b[q]);
      forall o | Survives(a, b, done + {q}, o)
        ensures HasEntry(a, b, done + {q}, m', o)
      {
        StepMeetsEntry(a, b, done, m, q, g, m', o);
      }
      forall k | k in m'
        ensures Apart(a, b, done + {q}, k, m'[k]) || HasOwner(a, b, done + {q}, m'[k])
      {
        StepMeetsOwner(a, b, done, m, q, g, m', k);
      }
    }
  }

  ghost predicate Split(b: RangeMap, done: set<usize>, ks: set<usize>) {
    done + ks == b.Keys && forall p, k :: p in done && k in ks ==> p < k
  }

  lemma SplitNext(b: RangeMap, done: set<usize>, ks: set<usize>)
    requires Split(b, done, ks) && ks != {}
    ensures Split(b, done + {Least(ks)}, ks - {Least(ks)})
    ensures Least(ks) in b && done <= b.Keys && forall p :: p in done ==> p < Least(ks)
  {
  }

  lemma {:induction false} JoinFromShaped(a: RangeMap, b: RangeMap, m: RangeMap, done: set<usize>, ks: set<usize>)
    requires WellFormed(a) && WellFormed(b) && ks <= b.Keys
    requires Split(b, done, ks) && Shaped(a, b, done, m)
    ensures Shaped(a, b, b.Keys, JoinFrom(m, b, ks))
    decreases |ks|
  {
    if ks == {} {
      assert done == b.Keys;
    } else {
      var q := Least(ks);
      SplitNext(b, done, ks);
      StepShaped(a, b, done, m, q);
      JoinFromShaped(a, b, JoinStep(m, b[q]), done + {q}, ks - {q});
    }
  }

  // ----- the ranges of `b` that meet no range of `a`

  /** Each merged range of `b` that meets no range of `a` has its own entry, unchanged. */
  ghost predicate KeepsApart(a: RangeMap, b: RangeMap, done: set<usize>, m: RangeMap) {
    forall k :: k in b && Apart(a, b, done, k, b[k]) ==> k in m && m[k] == b[k]
  }

  lemma StepKeepsApartAt(a: RangeMap, b: RangeMap, done: set<usize>, m: RangeMap, q: usize, k: usize)
    requires IsNext(a, b, done, q) && Shaped(a, b, done, m) && KeepsApart(a, b, done, m)
    requires k in b && Apart(a, b, done + {q}, k, b[k])
    ensures k in JoinStep(m, b[q]) && JoinStep(m, b[q])[k] == b[k]
  {
    var near := OverlapsWith(m, b[q]);
    if k == q {
      if near != {} {
        var l :| l in near;
        var o := NearHasOwner(a, b, done, m, q, l);
        assert false;
      }
    } else {
      assert Apart(a, b, done, k, b[k]);
      if near != {} {
        AbsorbLeavesOthers(m, near, b[q], k);
      }
    }
  }

  lemma {:induction false} JoinFromKeepsApart(a: RangeMap, b: RangeMap, m: RangeMap, done: set<usize>, ks: set<usize>)
    requires WellFormed(a) && WellFormed(b) && ks <= b.Keys
    requires Split(b, done, ks) && Shaped(a, b, done, m) && KeepsApart(a, b, done, m)
    ensures KeepsApart(a, b, b.Keys, JoinFrom(m, b, ks))
    decreases |ks|
  {
    if ks == {} {
      assert done == b.Keys;
    } else {
      var q := Least(ks);
      SplitNext(b, done, ks);
      StepShaped(a, b, done, m, q);
      forall k | k in b && Apart(a, b, done + {q}, k, b[k])
        ensures k in JoinStep(m, b[q]) && JoinStep(m, b[q])[k] == b[k]
      {
        StepKeepsApartAt(a, b, done, m, q, k);
      }
      JoinFromKeepsApart(a, b, JoinStep(m, b[q]), done + {q}, ks - {q});
    }
  }

  // ----- the whole join

  lemma StartShaped(a: RangeMap, b: RangeMap)
    requires WellFormed(a)
    ensures Shaped(a, b, {}, a) && KeepsApart(a, b, {}, a)
  {
    forall o | o in a
      ensures IsEntry(a, b, {}, o, a[o]) && Survives(a, b, {}, o)
    {
    }
  }

  /** The join of well-formed capabilities, entry by entry. */
  lemma JoinShaped(a: RangeMap, b: RangeMap)
    requires WellFormed(a) && WellFormed(b)
    ensures Shaped(a, b, b.Keys, Join(a, b)) && KeepsApart(a, b, b.Keys, Join(a, b))
  {
    StartShaped(a, b);
    JoinFromShaped(a, b, a, {}, b.Keys);
    JoinFromKeepsApart(a, b, a, {}, b.Keys);
  }

  lemma ShapedWithin(a: RangeMap, b: RangeMap, m: RangeMap, m': RangeMap, k: usize)
    requires Shaped(a, b, b.Keys, m) && Shaped(a, b, b.Keys, m') && KeepsApart(a, b, b.Keys, m') && k in m
    ensures k in m' && m'[k] == m[k]
  {
    if !Apart(a, b, b.Keys, k, m[k]) {
      var o :| Survives(a, b, b.Keys, o) && IsEntry(a, b, b.Keys, o, m[k]);
      assert HasEntry(a, b, b.Keys, m', o);
      var l :| l in m' && IsEntry(a, b, b.Keys, o, m'[l]);
      SameEntry(a, b, b.Keys, o, m[k], m'[l]);
    }
  }

  /** That description leaves nothing open: a map that meets it is the join. */
  lemma JoinIsOnlyShape(a: RangeMap, b: RangeMap, m: RangeMap)
    requires WellFormed(a) && WellFormed(b)
    ensures Shaped(a, b, b.Keys, m) && KeepsApart(a, b, b.Keys, m) <==> m == Join(a, b)
  {
    JoinShaped(a, b);
    if Shaped(a, b, b.Keys, m) && KeepsApart(a, b, b.Keys, m) {
      forall k | k in m
        ensures k in Join(a, b) && Join(a, b)[k] == m[k]
      {
        ShapedWithin(a, b, m, Join(a, b), k);
      }
      forall k | k in Join(a, b)
        ensures k in m
      {
        ShapedWithin(a, b, Join(a, b), m, k);
      }
    }
  }
}

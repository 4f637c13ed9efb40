/** Which piece survives when several intersections start at one address, for any range maps. */
module MemoryCollisions {
  import opened Wrappers
  import opened MachineInt
  import opened MemoryRanges
  import opened MemoryPermits
  import opened MemoryMeet

  /** The ranges share bytes and rights from `k` on. */
  predicate StartsAt(r: Range, s: Range, k: usize) {
    r.Intersect(s).Some? && r.Intersect(s).value.base == k
  }

  /** The range of `m` at `j` is the last among those at `ks` whose intersection with `r` starts at `k`. */
  ghost predicate LastAt(r: Range, m: RangeMap, ks: set<usize>, j: usize, k: usize)
    requires ks <= m.Keys
  {
    j in ks && StartsAt(r, m[j], k) && forall l :: l in ks && j < l ==> !StartsAt(r, m[l], k)
  }

  ghost predicate SomeAt(r: Range, m: RangeMap, ks: set<usize>, k: usize)
    requires ks <= m.Keys
  {
    exists j :: j in ks && StartsAt(r, m[j], k)
  }

  function Head(r: Range, s: Range): seq<Range> {
    match r.Intersect(s) case Some(i) => [i] case None => []
  }

  lemma HeadAt(r: Range, s: Range, k: usize)
    ensures k in FromSeq(Head(r, s)) <==> StartsAt(r, s, k)
    ensures StartsAt(r, s, k) ==> FromSeq(Head(r, s))[k] == r.Intersect(s).value
  {
    FromSeqLast(Head(r, s), k);
  }

  lemma SplitFirst(r: Range, m: RangeMap, ks: set<usize>, l: usize, k: usize)
    requires ks <= m.Keys && ks != {} && l == Least(ks)
    ensures FromSeq(Pieces(r, m, ks)) == FromSeq(Head(r, m[l])) + FromSeq(Pieces(r, m, ks - {l}))
    ensures SomeAt(r, m, ks, k) <==> StartsAt(r, m[l], k) || SomeAt(r, m, ks - {l}, k)
  {
    FromSeqConcat(Head(r, m[l]), Pieces(r, m, ks - {l}));
  }

  lemma {:induction false} PiecesAt(r: Range, m: RangeMap, ks: set<usize>, k: usize)
    requires ks <= m.Keys
    ensures k in FromSeq(Pieces(r, m, ks)) <==> SomeAt(r, m, ks, k)
    decreases |ks|
  {
    if ks != {} {
      var l := Least(ks);
      SplitFirst(r, m, ks, l, k);
      PiecesAt(r, m, ks - {l}, k);
      HeadAt(r, m[l], k);
    }
  }

  lemma LastOfRest(r: Range, m: RangeMap, ks: set<usize>, l: usize, j: usize, k: usize)
    requires ks <= m.Keys && IsLeast(l, ks) && LastAt(r, m, ks, j, k)
    ensures j == l ==> StartsAt(r, m[l], k) && !SomeAt(r, m, ks - {l}, k)
    ensures j != l ==> LastAt(r, m, ks - {l}, j, k)
  {
  }

  lemma {:induction false} PiecesLast(r: Range, m: RangeMap, ks: set<usize>, j: usize, k: usize)
    requires ks <= m.Keys && LastAt(r, m, ks, j, k)
    ensures k in FromSeq(Pieces(r, m, ks)) && FromSeq(Pieces(r, m, ks))[k] == r.Intersect(m[j]).value
    decreases |ks|
  {
    var l := Least(ks);
    var rest := ks - {l};
    LastOfRest(r, m, ks, l, j, k);
    if j == l {
      HeadAt(r, m[l], k);
      PiecesAt(r, m, rest, k);
    } else {
      PiecesLast(r, m, rest, j, k);
    }
    SplitFirst(r, m, ks, l, k);
  }

  /** Of the pairs with keys `js` in `a` the pair of `i` and `j` is the last, in the order of the nested loops. */
  ghost predicate LastPair(a: RangeMap, js: set<usize>, b: RangeMap, i: usize, j: usize, k: usize)
    requires js <= a.Keys
  {
    i in js && LastAt(a[i], b, b.Keys, j, k) && forall l :: l in js && i < l ==> !SomeAt(a[l], b, b.Keys, k)
  }

  ghost predicate SomePairAt(a: RangeMap, js: set<usize>, b: RangeMap, k: usize)
    requires js <= a.Keys
  {
    exists i :: i in js && SomeAt(a[i], b, b.Keys, k)
  }

  lemma SplitFirstPairs(a: RangeMap, js: set<usize>, b: RangeMap, l: usize, k: usize)
    requires js <= a.Keys && js != {} && l == Least(js)
    ensures FromSeq(AllPieces(a, js, b)) == FromSeq(Pieces(a[l], b, b.Keys)) + FromSeq(AllPieces(a, js - {l}, b))
    ensures SomePairAt(a, js, b, k) <==> SomeAt(a[l], b, b.Keys, k) || SomePairAt(a, js - {l}, b, k)
  {
    FromSeqConcat(Pieces(a[l], b, b.Keys), AllPieces(a, js - {l}, b));
  }

  lemma {:induction false} AllPiecesAt(a: RangeMap, js: set<usize>, b: RangeMap, k: usize)
    requires js <= a.Keys
    ensures k in FromSeq(AllPieces(a, js, b)) <==> SomePairAt(a, js, b, k)
    decreases |js|
  {
    if js != {} {
      var l := Least(js);
      SplitFirstPairs(a, js, b, l, k);
      AllPiecesAt(a, js - {l}, b, k);
      PiecesAt(a[l], b, b.Keys, k);
    }
  }

  lemma LastOfRestPairs(a: RangeMap, js: set<usize>, b: RangeMap, l: usize, i: usize, j: usize, k: usize)
    requires js <= a.Keys && IsLeast(l, js) && LastPair(a, js, b, i, j, k)
    ensures i == l ==> !SomePairAt(a, js - {l}, b, k)
    ensures i != l ==> LastPair(a, js - {l}, b, i, j, k)
  {
  }

  lemma {:induction false} AllPiecesLast(a: RangeMap, js: set<usize>, b: RangeMap, i: usize, j: usize, k: usize)
    requires js <= a.Keys && LastPair(a, js, b, i, j, k)
    ensures k in FromSeq(AllPieces(a, js, b)) && FromSeq(AllPieces(a, js, b))[k] == a[i].Intersect(b[j]).value
    decreases |js|
  {
    var l := Least(js);
    var rest := js - {l};
    LastOfRestPairs(a, js, b, l, i, j, k);
    if i == l {
      PiecesLast(a[l], b, b.Keys, j, k);
      AllPiecesAt(a, rest, b, k);
    } else {
      AllPiecesLast(a, rest, b, i, j, k);
    }
    SplitFirstPairs(a, js, b, l, k);
  }

  /**
   * The meet of any two maps, overlapping or not, has a range at `k` exactly when some intersection starts there,
   * and it is the one of the last pair.
   */
  lemma MeetAt(a: RangeMap, b: RangeMap, k: usize)
    ensures SomePairAt(a, a.Keys, b, k) <==> Meet(a, b).Some? && k in Meet(a, b).value
    ensures forall i, j :: LastPair(a, a.Keys, b, i, j, k) ==>
              Meet(a, b).Some? && k in Meet(a, b).value && Meet(a, b).value[k] == a[i].Intersect(b[j]).value
  {
    AllPiecesAt(a, a.Keys, b, k);
    forall i, j | LastPair(a, a.Keys, b, i, j, k)
      ensures k in FromSeq(AllPieces(a, a.Keys, b)) && Meet(a, b).value[k] == a[i].Intersect(b[j]).value
    {
      AllPiecesLast(a, a.Keys, b, i, j, k);
    }
  }

  /** The same for a range constraint: of several pieces on one base the one from the highest range is left. */
  lemma ConstrainAt(m: RangeMap, r: Range, k: usize)
    ensures SomeAt(r, m, m.Keys, k) <==> ConstrainRange(m, r).Some? && k in ConstrainRange(m, r).value
    ensures forall j :: LastAt(r, m, m.Keys, j, k) ==>
              && ConstrainRange(m, r).Some? && k in ConstrainRange(m, r).value
              && ConstrainRange(m, r).value[k] == r.Intersect(m[j]).value
  {
    var ks := OverlapKeys(m, r.base, r.End());
    PiecesAt(r, m, ks, k);
    assert forall j :: j in m && StartsAt(r, m[j], k) ==> j in ks;
    forall j | LastAt(r, m, m.Keys, j, k)
      ensures k in FromSeq(Pieces(r, m, ks)) && FromSeq(Pieces(r, m, ks))[k] == r.Intersect(m[j]).value
    {
      PiecesLast(r, m, ks, j, k);
    }
  }
}

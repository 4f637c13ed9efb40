/**
 * The intersection of ranges, the meet of memory capabilities and the range constraint, which are built
 * from it, and what they keep: no piece is lost to another one on the same base, and the bytes are those of both.
 */
module MemoryMeet {
  import opened Wrappers
  import opened MachineInt
  import opened MemoryRanges
  import opened MemoryPermits

  lemma IntersectSymmetric(r: Range, s: Range)
    ensures r.Intersect(s) == s.Intersect(r)
  {
  }

  /** What an intersection of two ranges holds, for live ranges. */
  lemma IntersectMeaning(r: Range, s: Range)
    requires r.Live() && s.Live()
    ensures r.Intersect(s).Some? <==> !r.ops.And(s.ops).IsEmpty() && exists b :: r.HasByte(b) && s.HasByte(b)
    ensures r.Intersect(s).Some? ==>
              var i := r.Intersect(s).value;
              && i.Live() && i.ops == r.ops.And(s.ops)
              && forall b :: i.HasByte(b) <==> r.HasByte(b) && s.HasByte(b)
  {
    if r.Overlaps(s) {
      assert r.HasByte(Max(r.base, s.base)) && s.HasByte(Max(r.base, s.base));
    }
  }

  /** The intersections of `r` with the ranges at `ks`, in base order. */
  function Pieces(r: Range, m: RangeMap, ks: set<usize>): seq<Range>
    requires ks <= m.Keys
    decreases |ks|
  {
    if ks == {} then [] else
      var k := Least(ks);
      (match r.Intersect(m[k]) case Some(i) => [i] case None => []) + Pieces(r, m, ks - {k})
  }

  /** The intersections of the ranges of `a` at `ks` with all ranges of `b`, in the order of the nested loops. */
  function AllPieces(a: RangeMap, ks: set<usize>, b: RangeMap): seq<Range>
    requires ks <= a.Keys
    decreases |ks|
  {
    if ks == {} then [] else
      var k := Least(ks);
      Pieces(a[k], b, b.Keys) + AllPieces(a, ks - {k}, b)
  }

  function Meet(a: RangeMap, b: RangeMap): Option<RangeMap> {
    var pieces := AllPieces(a, a.Keys, b);
    if |pieces| == 0 then None else Some(FromSeq(pieces))
  }

  /** `apply_range_constraint`. */
  function ConstrainRange(m: RangeMap, r: Range): Option<RangeMap> {
    var pieces := Pieces(r, m, OverlapKeys(m, r.base, r.End()));
    if |pieces| == 0 then None else Some(FromSeq(pieces))
  }

  lemma {:induction false} PieceOrigin(r: Range, m: RangeMap, ks: set<usize>, p: Range)
    requires ks <= m.Keys
    ensures p in Pieces(r, m, ks) <==> exists k :: k in ks && r.Intersect(m[k]) == Some(p)
    decreases |ks|
  {
    if ks != {} {
      var k := Least(ks);
      PieceOrigin(r, m, ks - {k}, p);
      assert r.Intersect(m[k]) == Some(p) ==> p in Pieces(r, m, ks);
    }
  }

  ghost predicate CommonPiece(a: RangeMap, b: RangeMap, j: usize, k: usize, p: Range) {
    j in a && k in b && a[j].Intersect(b[k]) == Some(p)
  }

  lemma {:induction false} AllPiecesOrigin(a: RangeMap, ks: set<usize>, b: RangeMap, p: Range)
    requires ks <= a.Keys
    ensures p in AllPieces(a, ks, b) <==> exists j, k :: j in ks && CommonPiece(a, b, j, k, p)
    decreases |ks|
  {
    if ks != {} {
      var l := Least(ks);
      PieceOrigin(a[l], b, b.Keys, p);
      AllPiecesOrigin(a, ks - {l}, b, p);
      assert forall k :: k in b.Keys && a[l].Intersect(b[k]) == Some(p) ==> CommonPiece(a, b, l, k, p);
    }
  }

  /** The two ranges a piece of the meet is the intersection of. */
  lemma Parents(a: RangeMap, b: RangeMap, p: Range) returns (j: usize, k: usize)
    requires WellFormed(a) && WellFormed(b)
    requires p in AllPieces(a, a.Keys, b)
    ensures j in a && k in b && a[j].Intersect(b[k]) == Some(p)
    ensures p.Live() && p.HasByte(p.base) && !p.ops.IsEmpty() && p.ops == a[j].ops.And(b[k].ops)
    ensures forall x :: p.HasByte(x) <==> a[j].HasByte(x) && b[k].HasByte(x)
  {
    AllPiecesOrigin(a, a.Keys, b, p);
    j, k :| j in a && k in b && CommonPiece(a, b, j, k, p);
    IntersectMeaning(a[j], b[k]);
  }

  /** Ranges that share a byte and a right have their intersection in the meet. */
  lemma Offspring(a: RangeMap, b: RangeMap, j: usize, k: usize, x: int) returns (p: Range)
    requires WellFormed(a) && WellFormed(b)
    requires j in a && k in b && a[j].HasByte(x) && b[k].HasByte(x)
    requires !a[j].ops.And(b[k].ops).IsEmpty()
    ensures p in AllPieces(a, a.Keys, b) && p.HasByte(x) && p.ops == a[j].ops.And(b[k].ops)
    ensures forall y :: p.HasByte(y) <==> a[j].HasByte(y) && b[k].HasByte(y)
  {
    IntersectMeaning(a[j], b[k]);
    p := a[j].Intersect(b[k]).value;
    assert CommonPiece(a, b, j, k, p);
    AllPiecesOrigin(a, a.Keys, b, p);
  }

  /** Two pieces that share a byte are the same piece. */
  lemma PiecesApart(a: RangeMap, b: RangeMap, p: Range, q: Range, x: int)
    requires WellFormed(a) && WellFormed(b)
    requires p in AllPieces(a, a.Keys, b) && q in AllPieces(a, a.Keys, b)
    requires p.HasByte(x) && q.HasByte(x)
    ensures p == q
  {
    var j, k := Parents(a, b, p);
    var j', k' := Parents(a, b, q);
    UniqueOwner(a, x, j, j');
    UniqueOwner(b, x, k, k');
  }

  /** No intersection is lost to a map-key collision, and nothing else is in the meet. */
  lemma MeetKeepsPieces(a: RangeMap, b: RangeMap, p: Range)
    requires WellFormed(a) && WellFormed(b) && Meet(a, b).Some?
    ensures p in AllPieces(a, a.Keys, b) <==> p.base in Meet(a, b).value && Meet(a, b).value[p.base] == p
  {
    var pieces := AllPieces(a, a.Keys, b);
    if p in pieces {
      forall x, y | x in pieces && y in pieces && x.base == y.base
        ensures x == y
      {
        var _, _ := Parents(a, b, x);
        var _, _ := Parents(a, b, y);
        PiecesApart(a, b, x, y, x.base);
      }
      FromSeqKeeps(pieces, p);
    } else if p.base in FromSeq(pieces) {
      FromSeqOrigin(pieces, p.base);
    }
  }

  lemma MeetWellFormed(a: RangeMap, b: RangeMap)
    requires WellFormed(a) && WellFormed(b) && Meet(a, b).Some?
    ensures WellFormed(Meet(a, b).value)
  {
    var m := Meet(a, b).value;
    forall k | k in m
      ensures m[k].Live()
    {
      MeetKeepsPieces(a, b, m[k]);
      var _, _ := Parents(a, b, m[k]);
    }
    forall j, k | j in m && k in m && j != k
      ensures m[j].End() <= k || m[k].End() <= j
    {
      MeetKeepsPieces(a, b, m[j]);
      MeetKeepsPieces(a, b, m[k]);
      if k < m[j].End() && j < m[k].End() {
        PiecesApart(a, b, m[j], m[k], Max(j, k));
      }
    }
  }

  /** Byte by byte, the meet grants exactly the rights that both capabilities grant. */
  lemma MeetBytes(a: RangeMap, b: RangeMap, x: int, need: MemoryOps)
    requires WellFormed(a) && WellFormed(b) && !need.IsEmpty()
    ensures HasRight(a, x, need) && HasRight(b, x, need) <==>
            Meet(a, b).Some? && HasRight(Meet(a, b).value, x, need)
  {
    if HasRight(a, x, need) && HasRight(b, x, need) {
      var j :| j in a && a[j].HasByte(x) && a[j].ops.Contains(need);
      var k :| k in b && b[k].HasByte(x) && b[k].ops.Contains(need);
      var p := Offspring(a, b, j, k, x);
      MeetKeepsPieces(a, b, p);
    } else if Meet(a, b).Some? && HasRight(Meet(a, b).value, x, need) {
      var m := Meet(a, b).value;
      var l :| l in m && m[l].HasByte(x) && m[l].ops.Contains(need);
      MeetKeepsPieces(a, b, m[l]);
      var j, k := Parents(a, b, m[l]);
    }
  }

  /** The meet permits a non-empty read or write request, wrapping or not, exactly when both capabilities do. */
  lemma MeetPermits(a: RangeMap, b: RangeMap, address: usize, size: usize, need: MemoryOps)
    requires WellFormed(a) && WellFormed(b) && size > 0 && !need.IsEmpty()
    ensures Permits(a, address, size, need) && Permits(b, address, size, need) <==>
            Meet(a, b).Some? && Permits(Meet(a, b).value, address, size, need)
  {
    if InBounds(address, size) {
      PermitsIffBytes(a, address, size, need);
      PermitsIffBytes(b, address, size, need);
      MeetBytes(a, b, address, need);
      if Meet(a, b).Some? {
        MeetWellFormed(a, b);
        PermitsIffBytes(Meet(a, b).value, address, size, need);
        forall x | address <= x < address + size
          ensures HasRight(a, x, need) && HasRight(b, x, need) <==> HasRight(Meet(a, b).value, x, need)
        {
          MeetBytes(a, b, x, need);
        }
      }
    } else {
      MeetPermitsWrapped(a, b, address, size, need);
    }
  }

  lemma MeetPermitsWrapped(a: RangeMap, b: RangeMap, address: usize, size: usize, need: MemoryOps)
    requires WellFormed(a) && WellFormed(b) && !InBounds(address, size) && !need.IsEmpty()
    ensures Permits(a, address, size, need) && Permits(b, address, size, need) <==>
            Meet(a, b).Some? && Permits(Meet(a, b).value, address, size, need)
  {
    PermitsWrapped(a, address, size, need);
    PermitsWrapped(b, address, size, need);
    if Permits(a, address, size, need) && Permits(b, address, size, need) {
      SpansBoth(a, b, address, size, need);
    }
    if Meet(a, b).Some? {
      MeetWellFormed(a, b);
      PermitsWrapped(Meet(a, b).value, address, size, need);
      if SpansWrap(Meet(a, b).value, address, size, need) {
        SpansMeet(a, b, address, size, need);
      }
    }
  }

  lemma SpansBoth(a: RangeMap, b: RangeMap, address: usize, size: usize, need: MemoryOps)
    requires WellFormed(a) && WellFormed(b) && !InBounds(address, size) && !need.IsEmpty()
    requires SpansWrap(a, address, size, need) && SpansWrap(b, address, size, need)
    ensures Meet(a, b).Some? && SpansWrap(Meet(a, b).value, address, size, need)
  {
    var end := WrapAdd(address, size);
    var j :| j in a && j < end && address < a[j].End() && a[j].ops.Contains(need);
    var k :| k in b && k < end && address < b[k].End() && b[k].ops.Contains(need);
    var p := Offspring(a, b, j, k, address);
    assert a[j].HasByte(end - 1) && b[k].HasByte(end - 1);
    MeetKeepsPieces(a, b, p);
  }

  lemma SpansMeet(a: RangeMap, b: RangeMap, address: usize, size: usize, need: MemoryOps)
    requires WellFormed(a) && WellFormed(b) && !InBounds(address, size) && !need.IsEmpty()
    requires Meet(a, b).Some? && SpansWrap(Meet(a, b).value, address, size, need)
    ensures SpansWrap(a, address, size, need) && SpansWrap(b, address, size, need)
  {
    var m := Meet(a, b).value;
    var end := WrapAdd(address, size);
    var l :| l in m && l < end && address < m[l].End() && m[l].ops.Contains(need);
    MeetKeepsPieces(a, b, m[l]);
    var j, k := Parents(a, b, m[l]);
    assert m[l].HasByte(address) && m[l].HasByte(end - 1);
  }

  ghost predicate PermittedByBoth(a: RangeMap, b: RangeMap, address: usize, size: usize, need: MemoryOps) {
    size > 0 && !need.IsEmpty() && Permits(a, address, size, need) && Permits(b, address, size, need)
  }

  /** `meet` fails exactly when no non-empty read or write request is permitted by both. */
  lemma MeetFailsIff(a: RangeMap, b: RangeMap)
    requires WellFormed(a) && WellFormed(b)
    ensures Meet(a, b).None? <==> forall address, size, need :: !PermittedByBoth(a, b, address, size, need)
  {
    if Meet(a, b).None? {
      forall address, size, need
        ensures !PermittedByBoth(a, b, address, size, need)
      {
        if size > 0 && !need.IsEmpty() {
          MeetPermits(a, b, address, size, need);
        }
      }
    } else {
      var p := AllPieces(a, a.Keys, b)[0];
      var _, _ := Parents(a, b, p);
      MeetKeepsPieces(a, b, p);
      assert HasRight(Meet(a, b).value, p.base, p.ops);
      MeetBytes(a, b, p.base, p.ops);
      PermitsIffBytes(a, p.base, 1, p.ops);
      PermitsIffBytes(b, p.base, 1, p.ops);
      assert AllBytesHaveRight(a, p.base, 1, p.ops) && AllBytesHaveRight(b, p.base, 1, p.ops);
      assert PermittedByBoth(a, b, p.base, 1, p.ops);
    }
  }
}

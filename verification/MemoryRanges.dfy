/** Memory ranges, ordered range maps, and what they mean byte by byte. */
module MemoryRanges {
  import opened Wrappers
  import opened MachineInt

  /** The READ and WRITE bits. */
  datatype MemoryOps = MemoryOps(read: bool, write: bool) {
    predicate Contains(need: MemoryOps) {
      (need.read ==> read) && (need.write ==> write)
    }

    predicate IsEmpty() {
      !read && !write
    }

    function And(other: MemoryOps): MemoryOps {
      MemoryOps(read && other.read, write && other.write)
    }

    function Or(other: MemoryOps): MemoryOps {
      MemoryOps(read || other.read, write || other.write)
    }
  }

  /** The rights are ordered by containment, with their intersection and union as bounds. */
  lemma OpsLattice(a: MemoryOps, b: MemoryOps, c: MemoryOps)
    ensures a.Contains(b) && b.Contains(a) <==> a == b
    ensures a.And(b).Contains(c) <==> a.Contains(c) && b.Contains(c)
    ensures c.Contains(a.Or(b)) <==> c.Contains(a) && c.Contains(b)
    ensures a.IsEmpty() <==> forall o: MemoryOps :: o.Contains(a)
  {
    assert MemoryOps(false, false).Contains(a) <==> a.IsEmpty();
  }

  datatype Range = Range(base: usize, size: usize, ops: MemoryOps) {
    function End(): usize {
      WrapAdd(base, size)
    }

    predicate HasByte(b: int) {
      base <= b < End()
    }

    predicate ContainsRange(other: Range) {
      base <= other.base && End() >= other.End()
    }

    predicate Overlaps(other: Range) {
      base < other.End() && other.base < End()
    }

    function Intersect(other: Range): Option<Range> {
      if !Overlaps(other) then
        None
      else
        var b := Max(base, other.base);
        var e := Min(End(), other.End());
        var both := ops.And(other.ops);
        if both.IsEmpty() then None else Some(Range(b, WrapSub(e, b), both))
    }

    /** A live range has at least one byte and does not wrap around the address space. */
    predicate Live() {
      0 < size && base + size < MODULUS
    }
  }

  /** A BTreeMap from base address to range: every key is the base of its range. */
  type RangeMap = m: map<usize, Range> | forall k :: k in m ==> m[k].base == k

  predicate IsLeast(k: usize, s: set<usize>) {
    k in s && forall x :: x in s ==> k <= x
  }

  /** The smallest key: iterating a BTreeMap visits the keys by taking it repeatedly. */
  function Least(s: set<usize>): (k: usize)
    requires s != {}
    ensures IsLeast(k, s)
  {
    LeastExists(s);
    var k :| IsLeast(k, s);
    k
  }

  lemma {:induction false} LeastExists(s: set<usize>)
    requires s != {}
    ensures exists k :: IsLeast(k, s)
  {
    var y :| y in s;
    var rest := s - {y};
    if rest == {} {
      assert s == {y} && IsLeast(y, s);
    } else {
      LeastExists(rest);
      var z :| IsLeast(z, rest);
      assert s == rest + {y};
      assert IsLeast(if y <= z then y else z, s);
    }
  }

  /** Some range holds byte `b` and carries all the rights in `need`. */
  ghost predicate HasRight(m: RangeMap, b: int, need: MemoryOps) {
    exists k :: k in m && m[k].HasByte(b) && m[k].ops.Contains(need)
  }

  /** Some range with its key in `ks` holds byte `b`. */
  ghost predicate Covers(m: RangeMap, ks: set<usize>, b: int)
    requires ks <= m.Keys
  {
    exists k :: k in ks && m[k].HasByte(b)
  }

  ghost predicate HasByte(m: RangeMap, b: int) {
    Covers(m, m.Keys, b)
  }

  ghost predicate Disjoint(m: RangeMap) {
    forall j, k :: j in m && k in m && j != k ==> m[j].End() <= k || m[k].End() <= j
  }

  /** Positive sizes, no wrap-around, pairwise disjoint. */
  ghost predicate WellFormed(m: RangeMap) {
    && (forall k :: k in m ==> m[k].Live())
    && Disjoint(m)
  }

  /** What a range constraint that is empty or wraps around leaves behind: one range without bytes. */
  ghost predicate Dead(m: RangeMap) {
    exists k :: m.Keys == {k} && m[k].End() <= k
  }

  /** The maps reached from well-formed ones by constraining. */
  ghost predicate Tame(m: RangeMap) {
    WellFormed(m) || Dead(m)
  }

  lemma UniqueOwner(m: RangeMap, b: int, j: usize, k: usize)
    requires WellFormed(m)
    requires j in m && k in m && m[j].HasByte(b) && m[k].HasByte(b)
    ensures j == k
  {
  }

  /** `MemoryCapability::new`: later ranges replace earlier ones with the same base. */
  function FromSeq(rs: seq<Range>): RangeMap {
    if |rs| == 0 then map[] else
      FromSeq(rs[..|rs| - 1])[rs[|rs| - 1].base := rs[|rs| - 1]]
  }

  lemma {:induction false} FromSeqOrigin(rs: seq<Range>, k: usize)
    requires k in FromSeq(rs)
    ensures FromSeq(rs)[k] in rs
  {
    var n := |rs| - 1;
    if rs[n].base != k {
      FromSeqOrigin(rs[..n], k);
    }
  }

  /** Of the ranges with one base the last one is kept. */
  lemma {:induction false} FromSeqLast(rs: seq<Range>, k: usize)
    ensures k in FromSeq(rs) <==> exists i :: 0 <= i < |rs| && rs[i].base == k
    ensures forall i :: 0 <= i < |rs| && rs[i].base == k && (forall j :: i < j < |rs| ==> rs[j].base != k) ==>
              k in FromSeq(rs) && FromSeq(rs)[k] == rs[i]
  {
    if |rs| > 0 {
      var n := |rs| - 1;
      FromSeqLast(rs[..n], k);
      assert forall i :: 0 <= i < n ==> rs[..n][i] == rs[i];
    }
  }

  lemma {:induction false} FromSeqConcat(a: seq<Range>, b: seq<Range>)
    ensures FromSeq(a + b) == FromSeq(a) + FromSeq(b)
  {
    if |b| == 0 {
      assert a + b == a;
    } else {
      var n := |b| - 1;
      assert (a + b)[..|a + b| - 1] == a + b[..n];
      FromSeqConcat(a, b[..n]);
    }
  }

  /** If equal bases mean equal ranges, no range is lost to a key collision. */
  lemma {:induction false} FromSeqKeeps(rs: seq<Range>, r: Range)
    requires r in rs
    requires forall x, y :: x in rs && y in rs && x.base == y.base ==> x == y
    ensures r.base in FromSeq(rs) && FromSeq(rs)[r.base] == r
  {
    var n := |rs| - 1;
    if rs[n].base != r.base {
      assert r in rs[..n];
      FromSeqKeeps(rs[..n], r);
    }
  }

  /** The values of a map in key order; rebuilding from them gives the map back. */
  function Values(m: RangeMap, ks: set<usize>): (rs: seq<Range>)
    requires ks <= m.Keys
    ensures forall r :: r in rs <==> exists k :: k in ks && m[k] == r
    decreases |ks|
  {
    if ks == {} then [] else var k := Least(ks); [m[k]] + Values(m, ks - {k})
  }

  lemma RebuildFromValues(m: RangeMap)
    ensures FromSeq(Values(m, m.Keys)) == m
  {
    var rs := Values(m, m.Keys);
    forall k | k in m
      ensures k in FromSeq(rs) && FromSeq(rs)[k] == m[k]
    {
      FromSeqKeeps(rs, m[k]);
    }
    forall k | k in FromSeq(rs)
      ensures k in m
    {
      FromSeqOrigin(rs, k);
    }
  }
}

/** When several leaves together include a leaf, said about their data. */
module LeafInclusion {
  import opened Wrappers
  import opened MachineInt
  import opened Requests
  import opened LeafCapability
  import opened LeafLattice
  import MR = MemoryRanges
  import MP = MemoryPermits
  import MC = MemoryConstrain
  import F = FileCapability
  import FJ = FileJoinExactness
  import P = PluginCallCapability

  predicate SomePermits(gs: seq<Leaf>, r: Request) {
    exists i :: 0 <= i < |gs| && LeafPermits(gs[i], r)
  }

  ghost predicate Includes(gs: seq<Leaf>, l: Leaf) {
    forall r :: LeafPermits(l, r) ==> SomePermits(gs, r)
  }

  // ----- files

  predicate FileCovers(g: Leaf, f: F.FileCap, pattern: string) {
    g.File? && g.file.ops.Contains(f.ops) && F.CoversPattern(g.file.paths, pattern)
  }

  /** Each pattern is covered by one pattern of a leaf that has all the operations. */
  predicate FileCovered(gs: seq<Leaf>, f: F.FileCap) {
    forall p :: p in f.paths ==> exists i :: 0 <= i < |gs| && FileCovers(gs[i], f, p)
  }

  lemma FileCoveredIff(gs: seq<Leaf>, f: F.FileCap, ch: char)
    requires forall i :: 0 <= i < |gs| ==> UnusedIn(ch, gs[i])
    ensures FileCovered(gs, f) <==> Includes(gs, File(f))
  {
    if FileCovered(gs, f) {
      forall r | LeafPermits(File(f), r)
        ensures SomePermits(gs, r)
      {
        var p :| p in f.paths && F.PathMatches(p, r.path);
        var i :| 0 <= i < |gs| && FileCovers(gs[i], f, p);
        assert LeafPermits(gs[i], r);
      }
    }
    if Includes(gs, File(f)) {
      forall p | p in f.paths
        ensures exists i :: 0 <= i < |gs| && FileCovers(gs[i], f, p)
      {
        var r := FileAccess(F.Sample(p, ch), f.ops.read, f.ops.write, f.ops.execute);
        assert F.PathAllowed(f, r.path);
        assert LeafPermits(File(f), r);
        var i :| 0 <= i < |gs| && LeafPermits(gs[i], r);
        F.PatternBySample(gs[i].file.paths, p, ch);
        assert FileCovers(gs[i], f, p);
      }
    }
  }

  // ----- plugin calls

  predicate CallsAll(g: Leaf, p: PluginId) {
    g.PluginCall? && p in g.calls.functions && P.AllowsAll(g.calls, p)
  }

  predicate CallAllowed(g: Leaf, p: PluginId, f: string) {
    g.PluginCall? && P.IsCallAllowed(g.calls, p, f)
  }

  /** A plugin allowed as a whole is allowed as a whole by one leaf; a function named is allowed by one. */
  predicate CallsCovered(gs: seq<Leaf>, c: P.CallCap) {
    forall p :: p in c.functions ==>
      if P.AllowsAll(c, p) then exists i :: 0 <= i < |gs| && CallsAll(gs[i], p)
      else forall f :: f in c.functions[p] ==> exists i :: 0 <= i < |gs| && CallAllowed(gs[i], p, f)
  }

  function CallOf(p: PluginId, f: string): Request {
    CallAccess(PluginText("", Some(p)), f)
  }

  ghost function Named(g: Leaf, p: PluginId): set<string> {
    if g.PluginCall? && p in g.calls.functions then g.calls.functions[p] else {}
  }

  ghost function AllNamed(gs: seq<Leaf>, p: PluginId): (s: set<string>)
    ensures forall i :: 0 <= i < |gs| ==> Named(gs[i], p) <= s
  {
    if |gs| == 0 then {} else
      var rest := AllNamed(gs[1..], p);
      assert forall i :: 0 < i < |gs| ==> gs[i] == gs[1..][i - 1];
      Named(gs[0], p) + rest
  }

  /** Finitely many names do not allow a whole plugin. */
  lemma WholePlugin(gs: seq<Leaf>, c: P.CallCap, p: PluginId)
    requires Includes(gs, PluginCall(c)) && p in c.functions && P.AllowsAll(c, p)
    ensures exists i :: 0 <= i < |gs| && CallsAll(gs[i], p)
  {
    var x := P.Longer(AllNamed(gs, p));
    assert LeafPermits(PluginCall(c), CallOf(p, x));
    var i :| 0 <= i < |gs| && LeafPermits(gs[i], CallOf(p, x));
    assert x !in Named(gs[i], p);
    assert CallsAll(gs[i], p);
  }

  lemma CallsCoveredIff(gs: seq<Leaf>, c: P.CallCap)
    ensures CallsCovered(gs, c) <==> Includes(gs, PluginCall(c))
  {
    if CallsCovered(gs, c) {
      forall r | LeafPermits(PluginCall(c), r)
        ensures SomePermits(gs, r)
      {
        var p := r.plugin.parsed.value;
        if P.AllowsAll(c, p) {
          var i :| 0 <= i < |gs| && CallsAll(gs[i], p);
          assert LeafPermits(gs[i], r);
        } else {
          var i :| 0 <= i < |gs| && CallAllowed(gs[i], p, r.func);
          assert LeafPermits(gs[i], r);
        }
      }
    }
    if Includes(gs, PluginCall(c)) {
      forall p | p in c.functions && P.AllowsAll(c, p)
        ensures exists i :: 0 <= i < |gs| && CallsAll(gs[i], p)
      {
        WholePlugin(gs, c, p);
      }
      forall p, f | p in c.functions && f in c.functions[p]
        ensures exists i :: 0 <= i < |gs| && CallAllowed(gs[i], p, f)
      {
        assert LeafPermits(PluginCall(c), CallOf(p, f));
        var i :| 0 <= i < |gs| && LeafPermits(gs[i], CallOf(p, f));
        assert CallAllowed(gs[i], p, f);
      }
    }
  }

  // ----- memory

  predicate MemoryGrants(g: Leaf, address: usize, size: usize, need: MR.MemoryOps) {
    g.Memory? && MP.Permits(g.ranges, address, size, need)
  }

  ghost predicate SomeGrants(gs: seq<Leaf>, address: usize, size: usize, need: MR.MemoryOps) {
    exists i :: 0 <= i < |gs| && MemoryGrants(gs[i], address, size, need)
  }

  /** A request from the start of one range to the end of another. */
  predicate IsRun(m: MR.RangeMap, j: usize, k: usize, need: MR.MemoryOps) {
    && j in m && k in m && m[j].Live() && m[k].Live() && j <= k
    && j < m[k].End() && MP.Permits(m, j, m[k].End() - j, need)
  }

  /** One leaf grants each run that the capability grants. */
  ghost predicate RunsCovered(gs: seq<Leaf>, m: MR.RangeMap) {
    forall j, k, need :: IsRun(m, j, k, need) ==> SomeGrants(gs, j, m[k].End() - j, need)
  }

  predicate Spanned(g: Leaf, r: MR.Range) {
    g.Memory? && exists l :: l in g.ranges && MC.RangeLeq(r, g.ranges[l])
  }

  /** A range long enough for a request around the address space lies in one range of one leaf. */
  predicate LongCovered(gs: seq<Leaf>, m: MR.RangeMap) {
    forall k :: k in m && m[k].Live() && m[k].size >= 3 ==> exists i :: 0 <= i < |gs| && Spanned(gs[i], m[k])
  }

  ghost predicate MemoryCovered(gs: seq<Leaf>, m: MR.RangeMap) {
    (exists i :: 0 <= i < |gs| && gs[i].Memory?) && RunsCovered(gs, m) && LongCovered(gs, m)
  }

  ghost predicate AllTame(gs: seq<Leaf>) {
    forall i :: 0 <= i < |gs| ==> TameLeaf(gs[i])
  }

  lemma RunFrom(m: MR.RangeMap, address: int, last: int, j: usize, k: usize, need: MR.MemoryOps)
    requires MR.WellFormed(m) && j in m && k in m && address <= last
    requires m[j].ops.Contains(need) && m[k].ops.Contains(need)
    requires m[j].HasByte(address) && m[k].HasByte(last)
    requires MP.AllBytesHaveRight(m, address, last - address + 1, need)
    ensures IsRun(m, j, k, need)
  {
    var size: usize := m[k].End() - j;
    assert MP.AllBytesHaveRight(m, j, size, need);
    MP.PermitsIffBytes(m, j, size, need);
  }

  lemma OwnerOf(m: MR.RangeMap, b: int, need: MR.MemoryOps) returns (k: usize)
    requires MR.Tame(m) && MR.HasRight(m, b, need)
    ensures k in m && m[k].HasByte(b) && m[k].ops.Contains(need) && MR.WellFormed(m)
  {
    k :| k in m && m[k].HasByte(b) && m[k].ops.Contains(need);
  }

  /** Every granted request lies in a granted run. */
  lemma RunAround(m: MR.RangeMap, address: usize, size: usize, need: MR.MemoryOps) returns (j: usize, k: usize)
    requires MR.Tame(m) && MP.InBounds(address, size) && size > 0 && MP.Permits(m, address, size, need)
    ensures IsRun(m, j, k, need) && j <= address && address + size <= m[k].End()
  {
    MP.PermitsSound(m, address, size, need);
    var last: usize := address + size - 1;
    j := OwnerOf(m, address, need);
    k := OwnerOf(m, last, need);
    RunFrom(m, address, last, j, k, need);
  }

  lemma GrantShrinks(g: Leaf, from: usize, length: usize, address: usize, size: usize, need: MR.MemoryOps)
    requires MemoryGrants(g, from, length, need) && MP.InBounds(from, length)
    requires from <= address && address + size <= from + length
    ensures MemoryGrants(g, address, size, need)
  {
    MP.PermitsShrinks(g.ranges, from, length, need, address, size, need);
  }

  lemma RunGranted(gs: seq<Leaf>, m: MR.RangeMap, address: usize, size: usize, need: MR.MemoryOps)
    requires MR.Tame(m) && RunsCovered(gs, m)
    requires MP.InBounds(address, size) && size > 0 && MP.Permits(m, address, size, need)
    ensures SomeGrants(gs, address, size, need)
  {
    var j, k := RunAround(m, address, size, need);
    var reach: usize := m[k].End() - j;
    assert SomeGrants(gs, j, reach, need);
    var i :| 0 <= i < |gs| && MemoryGrants(gs[i], j, reach, need);
    GrantShrinks(gs[i], j, reach, address, size, need);
    assert MemoryGrants(gs[i], address, size, need);
  }

  lemma SpanningGrants(g: MR.RangeMap, r: MR.Range, address: usize, size: usize, need: MR.MemoryOps)
    requires MR.Tame(g) && !MP.InBounds(address, size) && Spanned(Memory(g), r)
    requires r.base < WrapAdd(address, size) && address < r.End() && r.ops.Contains(need)
    ensures MP.Permits(g, address, size, need)
  {
    var l :| l in g && MC.RangeLeq(r, g[l]);
    assert MP.SpansWrap(g, address, size, need);
    MP.PermitsWrapped(g, address, size, need);
  }

  lemma WrappedGranted(gs: seq<Leaf>, m: MR.RangeMap, address: usize, size: usize, need: MR.MemoryOps)
    requires MR.Tame(m) && AllTame(gs) && LongCovered(gs, m)
    requires !MP.InBounds(address, size) && MP.Permits(m, address, size, need)
    ensures exists i :: 0 <= i < |gs| && MemoryGrants(gs[i], address, size, need)
  {
    MP.PermitsWrapped(m, address, size, need);
    var k :| k in m && k < WrapAdd(address, size) && address < m[k].End() && m[k].ops.Contains(need);
    var i :| 0 <= i < |gs| && Spanned(gs[i], m[k]);
    assert TameLeaf(gs[i]);
    SpanningGrants(gs[i].ranges, m[k], address, size, need);
    assert MemoryGrants(gs[i], address, size, need);
  }

  /** The request around the address space that spans exactly one range. */
  function Around(r: MR.Range): Request
    requires r.Live() && r.size >= 3
  {
    MemoryAccess(r.End() - 1, MODULUS - (r.size - 2), r.ops.read, r.ops.write)
  }

  lemma AroundSpans(g: MR.RangeMap, r: MR.Range)
    requires MR.Tame(g) && r.Live() && r.size >= 3
    ensures LeafPermits(Memory(g), Around(r)) <==> Spanned(Memory(g), r)
  {
    var q := Around(r);
    var need := MR.MemoryOps(q.read, q.write);
    assert need == r.ops && WrapAdd(q.address, q.size) == r.base + 1;
    MP.PermitsWrapped(g, q.address, q.size, need);
    if MP.SpansWrap(g, q.address, q.size, need) {
      var l :| l in g && l < r.base + 1 && q.address < g[l].End() && g[l].ops.Contains(need);
      assert MC.RangeLeq(r, g[l]);
    }
  }

  lemma LongNeeded(gs: seq<Leaf>, m: MR.RangeMap, k: usize)
    requires MR.Tame(m) && AllTame(gs) && Includes(gs, Memory(m))
    requires k in m && m[k].Live() && m[k].size >= 3
    ensures exists i :: 0 <= i < |gs| && Spanned(gs[i], m[k])
  {
    AroundSpans(m, m[k]);
    assert MC.RangeLeq(m[k], m[k]);
    assert LeafPermits(Memory(m), Around(m[k]));
    var i :| 0 <= i < |gs| && LeafPermits(gs[i], Around(m[k]));
    assert TameLeaf(gs[i]);
    AroundSpans(gs[i].ranges, m[k]);
  }

  lemma RunNeeded(gs: seq<Leaf>, m: MR.RangeMap, address: usize, size: usize, need: MR.MemoryOps)
    requires Includes(gs, Memory(m)) && MP.Permits(m, address, size, need)
    ensures exists i :: 0 <= i < |gs| && MemoryGrants(gs[i], address, size, need)
  {
    var r := MemoryAccess(address, size, need.read, need.write);
    assert MR.MemoryOps(r.read, r.write) == need;
    assert LeafPermits(Memory(m), r);
    var i :| 0 <= i < |gs| && LeafPermits(gs[i], r);
    assert MemoryGrants(gs[i], address, size, need);
  }

  lemma MemoryIncluded(gs: seq<Leaf>, m: MR.RangeMap, r: Request)
    requires MR.Tame(m) && AllTame(gs) && MemoryCovered(gs, m) && LeafPermits(Memory(m), r)
    ensures SomePermits(gs, r)
  {
    var need := MR.MemoryOps(r.read, r.write);
    if r.size == 0 {
      var i :| 0 <= i < |gs| && gs[i].Memory?;
      assert LeafPermits(gs[i], r);
    } else {
      if MP.InBounds(r.address, r.size) {
        RunGranted(gs, m, r.address, r.size, need);
      } else {
        WrappedGranted(gs, m, r.address, r.size, need);
      }
      var i :| 0 <= i < |gs| && MemoryGrants(gs[i], r.address, r.size, need);
      assert LeafPermits(gs[i], r);
    }
  }

  lemma MemoryNeeded(gs: seq<Leaf>, m: MR.RangeMap)
    requires MR.Tame(m) && AllTame(gs) && Includes(gs, Memory(m))
    ensures MemoryCovered(gs, m)
  {
    RunNeeded(gs, m, 0, 0, MR.MemoryOps(false, false));
    forall j, k, need | IsRun(m, j, k, need)
      ensures exists i :: 0 <= i < |gs| && MemoryGrants(gs[i], j, m[k].End() - j, need)
    {
      RunNeeded(gs, m, j, m[k].End() - j, need);
    }
    forall k | k in m && m[k].Live() && m[k].size >= 3
      ensures exists i :: 0 <= i < |gs| && Spanned(gs[i], m[k])
    {
      LongNeeded(gs, m, k);
    }
  }

  lemma MemoryCoveredIff(gs: seq<Leaf>, m: MR.RangeMap)
    requires MR.Tame(m) && AllTame(gs)
    ensures MemoryCovered(gs, m) <==> Includes(gs, Memory(m))
  {
    if MemoryCovered(gs, m) {
      forall r | LeafPermits(Memory(m), r)
        ensures SomePermits(gs, r)
      {
        MemoryIncluded(gs, m, r);
      }
    } else if Includes(gs, Memory(m)) {
      MemoryNeeded(gs, m);
    }
  }

  // ----- any leaf

  ghost predicate Covered(gs: seq<Leaf>, l: Leaf) {
    match l
    case File(f) => FileCovered(gs, f)
    case Memory(m) => MemoryCovered(gs, m)
    case PluginCall(c) => CallsCovered(gs, c)
  }

  /** The condition on the data is inclusion of all permitted requests. */
  lemma CoveredIff(gs: seq<Leaf>, l: Leaf, ch: char)
    requires TameLeaf(l) && AllTame(gs) && forall i :: 0 <= i < |gs| ==> UnusedIn(ch, gs[i])
    ensures Covered(gs, l) <==> Includes(gs, l)
  {
    match l
    case File(f) => FileCoveredIff(gs, f, ch);
    case Memory(m) => MemoryCoveredIff(gs, m);
    case PluginCall(c) => CallsCoveredIff(gs, c);
  }

  // ----- one leaf of the same kind

  lemma OneFile(g: F.FileCap, f: F.FileCap)
    ensures FileCovered([File(g)], f) <==> f.paths == {} || FJ.Dominates(g, f)
  {
    if f.paths == {} || FJ.Dominates(g, f) {
      assert forall p :: p in f.paths ==> FileCovers([File(g)][0], f, p);
    }
  }

  /** Long ranges lie in one range with their rights; each byte of the others has their rights. */
  ghost predicate RangesWithin(m: MR.RangeMap, g: MR.RangeMap) {
    && (forall k :: k in m && m[k].size >= 3 ==> exists l :: l in g && MC.RangeLeq(m[k], g[l]))
    && (forall k, b :: k in m && m[k].size < 3 && m[k].HasByte(b) ==> MR.HasRight(g, b, m[k].ops))
  }

  lemma WithinAll(m: MR.RangeMap, g: MR.RangeMap, address: int, size: int, need: MR.MemoryOps)
    requires MR.WellFormed(m) && RangesWithin(m, g) && MP.AllBytesHaveRight(m, address, size, need)
    ensures MP.AllBytesHaveRight(g, address, size, need)
  {
    forall b | address <= b < address + size
      ensures MR.HasRight(g, b, need)
    {
      assert MR.HasRight(m, b, need);
    }
  }

  lemma WithinPermits(m: MR.RangeMap, g: MR.RangeMap, address: usize, size: usize, need: MR.MemoryOps)
    requires MR.WellFormed(m) && MR.Tame(g) && RangesWithin(m, g)
    requires MP.InBounds(address, size) && MP.Permits(m, address, size, need)
    ensures MP.Permits(g, address, size, need)
  {
    MP.PermitsSound(m, address, size, need);
    WithinAll(m, g, address, size, need);
    MP.PermitsIffBytes(g, address, size, need);
  }

  lemma WithinGrants(m: MR.RangeMap, g: MR.RangeMap, j: usize, k: usize, size: usize, need: MR.MemoryOps)
    requires MR.WellFormed(m) && MR.Tame(g) && RangesWithin(m, g) && IsRun(m, j, k, need)
    requires size == m[k].End() - j
    ensures MP.Permits(g, j, size, need)
  {
    RunInBounds(m, j, k, size, need);
    WithinPermits(m, g, j, size, need);
  }

  lemma RunInBounds(m: MR.RangeMap, j: usize, k: usize, size: usize, need: MR.MemoryOps)
    requires IsRun(m, j, k, need) && size == m[k].End() - j
    ensures MP.InBounds(j, size) && MP.Permits(m, j, size, need)
  {
  }

  lemma ShortByte(m: MR.RangeMap, g: MR.RangeMap, k: usize, b: int)
    requires MR.WellFormed(m) && RunsCovered([Memory(g)], m) && k in m && m[k].HasByte(b)
    ensures MR.HasRight(g, b, m[k].ops)
  {
    assert forall x :: k <= x < m[k].End() ==> m[k].HasByte(x) && MR.HasRight(m, x, m[k].ops);
    MP.PermitsIffBytes(m, k, m[k].size, m[k].ops);
    assert IsRun(m, k, k, m[k].ops);
    assert MP.Permits(g, k, m[k].size, m[k].ops);
    MP.PermitsSound(g, k, m[k].size, m[k].ops);
  }

  lemma RunsWithin(g: MR.RangeMap, m: MR.RangeMap)
    requires MR.WellFormed(m) && MR.Tame(g) && RangesWithin(m, g)
    ensures RunsCovered([Memory(g)], m)
  {
    var gs := [Memory(g)];
    assert gs[0] == Memory(g);
    forall j, k, need | IsRun(m, j, k, need)
      ensures SomeGrants(gs, j, m[k].End() - j, need)
    {
      WithinGrants(m, g, j, k, m[k].End() - j, need);
      assert MemoryGrants(gs[0], j, m[k].End() - j, need);
    }
  }

  lemma LongWithin(g: MR.RangeMap, m: MR.RangeMap)
    requires MR.WellFormed(m)
    ensures LongCovered([Memory(g)], m) <==>
            forall k :: k in m && m[k].size >= 3 ==> exists l :: l in g && MC.RangeLeq(m[k], g[l])
  {
    var gs := [Memory(g)];
    forall k | k in m
      ensures m[k].Live()
      ensures (exists i :: 0 <= i < |gs| && Spanned(gs[i], m[k])) <==> exists l :: l in g && MC.RangeLeq(m[k], g[l])
    {
      assert Spanned(gs[0], m[k]) <==> exists l :: l in g && MC.RangeLeq(m[k], g[l]);
    }
  }

  lemma OneMemory(g: MR.RangeMap, m: MR.RangeMap)
    requires MR.WellFormed(m) && MR.Tame(g)
    ensures MemoryCovered([Memory(g)], m) <==> RangesWithin(m, g)
  {
    assert [Memory(g)][0].Memory?;
    LongWithin(g, m);
    if RangesWithin(m, g) {
      RunsWithin(g, m);
    }
    if MemoryCovered([Memory(g)], m) {
      forall k, b | k in m && m[k].HasByte(b)
        ensures MR.HasRight(g, b, m[k].ops)
      {
        ShortByte(m, g, k, b);
      }
    }
  }

  lemma OneChild(g: Leaf, p: PluginId, f: string)
    ensures (exists i :: 0 <= i < |[g]| && CallsAll([g][i], p)) <==> CallsAll(g, p)
    ensures (exists i :: 0 <= i < |[g]| && CallAllowed([g][i], p, f)) <==> CallAllowed(g, p, f)
  {
    assert [g][0] == g;
  }

  /** Each plugin with an allowed call is in the other map, as a whole or with all the named functions. */
  predicate CallsWithin(c: P.CallCap, d: P.CallCap) {
    forall p :: p in c.functions && (P.AllowsAll(c, p) || c.functions[p] != {}) ==>
      p in d.functions && (P.AllowsAll(d, p) || (!P.AllowsAll(c, p) && c.functions[p] <= d.functions[p]))
  }

  lemma CallsAt(d: P.CallCap, c: P.CallCap, p: PluginId)
    requires p in c.functions
    ensures (if P.AllowsAll(c, p) then CallsAll(PluginCall(d), p)
             else forall f :: f in c.functions[p] ==> CallAllowed(PluginCall(d), p, f)) <==>
            (P.AllowsAll(c, p) || c.functions[p] != {} ==>
              p in d.functions && (P.AllowsAll(d, p) || (!P.AllowsAll(c, p) && c.functions[p] <= d.functions[p])))
  {
  }

  lemma OneCall(d: P.CallCap, c: P.CallCap)
    ensures CallsCovered([PluginCall(d)], c) <==> CallsWithin(c, d)
  {
    var gs := [PluginCall(d)];
    forall p | p in c.functions
      ensures (if P.AllowsAll(c, p) then exists i :: 0 <= i < |gs| && CallsAll(gs[i], p)
               else forall f :: f in c.functions[p] ==> exists i :: 0 <= i < |gs| && CallAllowed(gs[i], p, f)) <==>
              (P.AllowsAll(c, p) || c.functions[p] != {} ==>
                p in d.functions && (P.AllowsAll(d, p) || (!P.AllowsAll(c, p) && c.functions[p] <= d.functions[p])))
    {
      CallsAt(d, c, p);
      forall f
        ensures (exists i :: 0 <= i < |gs| && CallAllowed(gs[i], p, f)) <==> CallAllowed(PluginCall(d), p, f)
      {
        OneChild(PluginCall(d), p, f);
      }
      OneChild(PluginCall(d), p, "");
    }
  }
}

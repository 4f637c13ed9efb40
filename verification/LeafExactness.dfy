/** When a leaf takes constraints, and exactly what it permits afterwards. */
module LeafExactness {
  import opened Wrappers
  import opened MachineInt
  import opened Requests
  import opened LeafCapability
  import opened LeafLattice
  import MR = MemoryRanges
  import MP = MemoryPermits
  import MM = MemoryMeet
  import MC = MemoryConstrain
  import F = FileCapability
  import P = PluginCallCapability

  /** The request lies in the range, or wraps around the address space through it, with the range's rights. */
  predicate InRange(r: MR.Range, address: usize, size: usize, need: MR.MemoryOps) {
    r.ops.Contains(need) &&
    if MP.InBounds(address, size) then r.base <= address && address + size <= r.End()
    else r.base < WrapAdd(address, size) && address < r.End()
  }

  /** The request is one that the constraint leaves open. */
  predicate Within(c: Constraint, r: Request) {
    match (c, r)
    case (FilePath(path), FileAccess(p, _, _, _)) => p == path
    case (FileOperation(read, write, execute), FileAccess(_, rd, wr, ex)) =>
      (rd ==> read) && (wr ==> write) && (ex ==> execute)
    case (MemoryRange(base, size, read, write), MemoryAccess(a, s, rd, wr)) =>
      InRange(MR.Range(base, size, MR.MemoryOps(read, write)), a, s, MR.MemoryOps(rd, wr))
    case (CallConstraint(plugin, func), CallAccess(p, f)) => p.parsed == plugin.parsed && f == func
    case _ => false
  }

  predicate AllWithin(cs: seq<Constraint>, r: Request) {
    forall i :: 0 <= i < |cs| ==> Within(cs[i], r)
  }

  // ----- memory

  lemma SingleGrants(r: MR.Range, address: usize, size: usize, need: MR.MemoryOps)
    requires r.Live() && size > 0
    ensures MP.Permits(MC.Single(r), address, size, need) <==> InRange(r, address, size, need)
  {
    var m := MC.Single(r);
    if MP.InBounds(address, size) {
      MP.PermitsIffBytes(m, address, size, need);
      if InRange(r, address, size, need) {
        assert forall b :: address <= b < address + size ==> m[r.base].HasByte(b);
      }
      assert MP.AllBytesHaveRight(m, address, size, need) ==>
               MR.HasRight(m, address, need) && MR.HasRight(m, address + size - 1, need);
    } else {
      MP.PermitsWrapped(m, address, size, need);
      assert m.Keys == {r.base};
    }
  }

  lemma DeadGrantsNothing(m: MR.RangeMap, address: usize, size: usize, need: MR.MemoryOps)
    requires MR.Dead(m) && size > 0
    ensures !MP.Permits(m, address, size, need)
  {
    if MP.InBounds(address, size) {
      MP.PermitsIffBytes(m, address, size, need);
      assert MP.AllBytesHaveRight(m, address, size, need) ==> MR.HasRight(m, address, need);
    } else {
      MP.PermitsWrapped(m, address, size, need);
    }
  }

  /** A range constraint keeps exactly the permitted requests for some right that lie in the range. */
  lemma MemoryKept(m: MR.RangeMap, r: MR.Range, address: usize, size: usize, need: MR.MemoryOps)
    requires MR.Tame(m) && MM.ConstrainRange(m, r).Some? && size > 0 && !need.IsEmpty()
    ensures MP.Permits(MM.ConstrainRange(m, r).value, address, size, need) <==>
            MP.Permits(m, address, size, need) && InRange(r, address, size, need)
  {
    if MR.WellFormed(m) && r.Live() {
      MC.ConstrainIsMeet(m, r);
      MM.MeetPermits(m, MC.Single(r), address, size, need);
      SingleGrants(r, address, size, need);
    } else {
      MC.ConstrainTame(m, r);
      DeadGrantsNothing(MM.ConstrainRange(m, r).value, address, size, need);
      if MR.Dead(m) {
        DeadGrantsNothing(m, address, size, need);
      }
    }
  }

  /** A well-formed capability takes a live range exactly when some permitted request lies in the range. */
  lemma MemoryTakenIff(m: MR.RangeMap, r: MR.Range)
    requires MR.WellFormed(m) && r.Live()
    ensures MM.ConstrainRange(m, r).Some? <==>
            exists address, size, need :: MM.PermittedByBoth(m, MC.Single(r), address, size, need)
  {
    MC.ConstrainIsMeet(m, r);
    MM.MeetFailsIff(m, MC.Single(r));
  }

  // ----- one constraint

  /** The leaf permits something to be asked for at all; a call is always something. */
  predicate Useful(l: Leaf) {
    match l
    case File(f) => f.paths != {} && !f.ops.IsEmpty()
    case _ => true
  }

  /** Memory constraints are for ranges that hold bytes and do not wrap. */
  predicate LiveRange(c: Constraint) {
    c.MemoryRange? ==> MR.Range(c.base, c.size, MR.MemoryOps(c.read, c.write)).Live()
  }

  ghost predicate Witness(l: Leaf, cs: seq<Constraint>, r: Request) {
    Asks(r) && LeafPermits(l, r) && AllWithin(cs, r)
  }

  lemma WitnessOne(l: Leaf, c: Constraint, r: Request)
    ensures Witness(l, [c], r) <==> Asks(r) && LeafPermits(l, r) && Within(c, r)
  {
    assert [c][0] == c;
  }

  /** What one constraint leaves: the permitted requests within it. */
  lemma OneKept(l: Leaf, c: Constraint, r: Request)
    requires TameLeaf(l) && PlainPaths([c]) && Asks(r) && ConstrainOne(l, c).Some?
    ensures LeafPermits(ConstrainOne(l, c).value, r) <==> LeafPermits(l, r) && Within(c, r)
  {
    assert [c][0] == c;
    match l
    case File(f) =>
      if r.FileAccess? {
        var need := F.FileOps(r.read, r.write, r.execute);
        match c
        case FilePath(path) => F.ConstrainNeverWidens(f, path, need, r.path, need);
        case FileOperation(read, write, execute) =>
          F.ConstrainNeverWidens(f, "", F.FileOps(read, write, execute), r.path, need);
        case _ =>
      }
    case Memory(m) =>
      if r.MemoryAccess? {
        MemoryKept(m, MR.Range(c.base, c.size, MR.MemoryOps(c.read, c.write)), r.address, r.size,
                   MR.MemoryOps(r.read, r.write));
      }
    case PluginCall(_) =>
  }

  /** A plugin-call capability takes the constraint to a call exactly when it permits the call, which is then left. */
  lemma CallTakenIff(c: P.CallCap, plugin: PluginText, func: string, r: Request)
    ensures ConstrainOne(PluginCall(c), CallConstraint(plugin, func)).Some? <==>
            LeafPermits(PluginCall(c), CallAccess(plugin, func))
    ensures ConstrainOne(PluginCall(c), CallConstraint(plugin, func)).Some? ==>
              (LeafPermits(ConstrainOne(PluginCall(c), CallConstraint(plugin, func)).value, r) <==>
               r.CallAccess? && r.plugin.parsed == plugin.parsed && r.func == func)
  {
  }

  /** A path constraint, prefix pattern or not, leaves that one pattern, if the capability allows its text as a path. */
  lemma PathTakenIff(f: F.FileCap, path: string, r: Request)
    ensures ConstrainOne(File(f), FilePath(path)).Some? <==> LeafPermits(File(f), FileAccess(path, false, false, false))
    ensures ConstrainOne(File(f), FilePath(path)).Some? ==>
              (LeafPermits(ConstrainOne(File(f), FilePath(path)).value, r) <==>
               r.FileAccess? && F.PathMatches(path, r.path) && f.ops.Contains(F.FileOps(r.read, r.write, r.execute)))
  {
    if ConstrainOne(File(f), FilePath(path)).Some? {
      assert path in F.ConstrainPath(f, path).value.paths;
    }
  }

  /** Any capability takes a range exactly when it shares a right with a range that it overlaps. */
  lemma AnyRangeTakenIff(m: MR.RangeMap, r: MR.Range)
    ensures MM.ConstrainRange(m, r).Some? <==>
            exists k :: k in m && r.Overlaps(m[k]) && !r.ops.And(m[k].ops).IsEmpty()
  {
    var near := MP.OverlapKeys(m, r.base, r.End());
    var pieces := MM.Pieces(r, m, near);
    if |pieces| > 0 {
      MM.PieceOrigin(r, m, near, pieces[0]);
    }
    if k :| k in m && r.Overlaps(m[k]) && !r.ops.And(m[k].ops).IsEmpty() {
      MM.PieceOrigin(r, m, near, r.Intersect(m[k]).value);
    }
  }

  /** An operation constraint is taken exactly when it shares an operation with the capability. */
  lemma OperationTakenIff(f: F.FileCap, read: bool, write: bool, execute: bool)
    ensures ConstrainOne(File(f), FileOperation(read, write, execute)).Some? <==>
            (read && f.ops.read) || (write && f.ops.write) || (execute && f.ops.execute)
  {
  }

  lemma PermittedPath(f: F.FileCap) returns (path: string)
    requires f.paths != {}
    ensures F.PathAllowed(f, path)
  {
    var p :| p in f.paths;
    path := if F.IsPrefixPattern(p) then F.PatternPrefix(p) else p;
    assert F.PathMatches(p, path);
  }

  /** The request for the one operation, with a path that the capability allows. */
  function OneOperation(path: string, ops: F.FileOps): Request {
    if ops.read then FileAccess(path, true, false, false)
    else if ops.write then FileAccess(path, false, true, false)
    else FileAccess(path, false, false, ops.execute)
  }

  lemma FileTakenIff(f: F.FileCap, c: Constraint)
    requires Useful(File(f)) && PlainPaths([c])
    ensures ConstrainOne(File(f), c).Some? <==> exists r :: Witness(File(f), [c], r)
  {
    forall r
      ensures Witness(File(f), [c], r) <==> Asks(r) && LeafPermits(File(f), r) && Within(c, r)
    {
      WitnessOne(File(f), c, r);
    }
    if ConstrainOne(File(f), c).Some? {
      var path := PermittedPath(f);
      match c
      case FilePath(p) =>
        assert Witness(File(f), [c], OneOperation(p, f.ops));
      case FileOperation(read, write, execute) =>
        assert Witness(File(f), [c], OneOperation(path, f.ops.And(F.FileOps(read, write, execute))));
      case _ =>
    }
  }

  /** The witness of a memory constraint is a request that both the capability and the range alone permit. */
  lemma RangeWitness(m: MR.RangeMap, c: Constraint, range: MR.Range, r: Request)
    requires c.MemoryRange? && range == MR.Range(c.base, c.size, MR.MemoryOps(c.read, c.write)) && range.Live()
    ensures Witness(Memory(m), [c], r) <==>
            r.MemoryAccess? &&
            MM.PermittedByBoth(m, MC.Single(range), r.address, r.size, MR.MemoryOps(r.read, r.write))
  {
    WitnessOne(Memory(m), c, r);
    if r.MemoryAccess? && r.size > 0 {
      SingleGrants(range, r.address, r.size, MR.MemoryOps(r.read, r.write));
    }
  }

  lemma RangeTaken(m: MR.RangeMap, c: Constraint, range: MR.Range) returns (r: Request)
    requires c.MemoryRange? && range == MR.Range(c.base, c.size, MR.MemoryOps(c.read, c.write)) && range.Live()
    requires MR.WellFormed(m) && MM.ConstrainRange(m, range).Some?
    ensures Witness(Memory(m), [c], r)
  {
    MemoryTakenIff(m, range);
    var address, size, need :| MM.PermittedByBoth(m, MC.Single(range), address, size, need);
    r := MemoryAccess(address, size, need.read, need.write);
    assert need == MR.MemoryOps(r.read, r.write);
    RangeWitness(m, c, range, r);
  }

  lemma RangeNotRefused(m: MR.RangeMap, c: Constraint, range: MR.Range, r: Request)
    requires c.MemoryRange? && range == MR.Range(c.base, c.size, MR.MemoryOps(c.read, c.write)) && range.Live()
    requires MR.WellFormed(m) && Witness(Memory(m), [c], r)
    ensures MM.ConstrainRange(m, range).Some?
  {
    RangeWitness(m, c, range, r);
    MemoryTakenIff(m, range);
  }

  lemma RangeTakenIff(m: MR.RangeMap, c: Constraint)
    requires MR.WellFormed(m) && LiveRange(c) && c.MemoryRange?
    ensures ConstrainOne(Memory(m), c).Some? <==> exists r :: Witness(Memory(m), [c], r)
  {
    var range := MR.Range(c.base, c.size, MR.MemoryOps(c.read, c.write));
    if MM.ConstrainRange(m, range).Some? {
      var r := RangeTaken(m, c, range);
    } else if r :| Witness(Memory(m), [c], r) {
      RangeNotRefused(m, c, range, r);
    }
  }

  /** A leaf takes a constraint exactly when it permits some request within it. */
  lemma OneTakenIff(l: Leaf, c: Constraint)
    requires MemoryWellFormed(l) && Useful(l) && LiveRange(c) && PlainPaths([c])
    ensures ConstrainOne(l, c).Some? <==> exists r :: Witness(l, [c], r)
  {
    if l.File? {
      FileTakenIff(l.file, c);
    } else if l.Memory? && c.MemoryRange? {
      RangeTakenIff(l.ranges, c);
    } else {
      forall r
        ensures Witness(l, [c], r) <==> Asks(r) && LeafPermits(l, r) && Within(c, r)
      {
        WitnessOne(l, c, r);
      }
      if ConstrainOne(l, c).Some? {
        assert Witness(l, [c], CallAccess(c.plugin, c.func));
      }
    }
  }

  // ----- lists of constraints

  lemma WithinSplits(cs: seq<Constraint>, r: Request)
    requires |cs| > 0
    ensures AllWithin(cs, r) <==> Within(cs[0], r) && AllWithin(cs[1..], r)
  {
    assert cs == [cs[0]] + cs[1..];
  }

  /** Exactly the permitted requests within all constraints are left. */
  lemma {:induction false} LeafKept(l: Leaf, cs: seq<Constraint>, r: Request)
    requires TameLeaf(l) && PlainPaths(cs) && Asks(r) && ConstrainLeaf(l, cs).Some?
    ensures LeafPermits(ConstrainLeaf(l, cs).value, r) <==> LeafPermits(l, r) && AllWithin(cs, r)
    decreases |cs|
  {
    if |cs| > 0 {
      assert [cs[0]][0] == cs[0];
      OneKept(l, cs[0], r);
      ConstrainOneNarrows(l, cs[0], r);
      LeafKept(ConstrainOne(l, cs[0]).value, cs[1..], r);
      WithinSplits(cs, r);
    }
  }

  lemma StaysUseful(l: Leaf, c: Constraint)
    requires MemoryWellFormed(l) && Useful(l) && LiveRange(c) && ConstrainOne(l, c).Some?
    ensures MemoryWellFormed(ConstrainOne(l, c).value) && Useful(ConstrainOne(l, c).value)
  {
    if l.Memory? {
      MC.ConstrainTame(l.ranges, MR.Range(c.base, c.size, MR.MemoryOps(c.read, c.write)));
    }
  }

  lemma WitnessSplits(l: Leaf, cs: seq<Constraint>, r: Request)
    requires TameLeaf(l) && |cs| > 0 && PlainPaths(cs)
    ensures Witness(l, cs, r) ==> Witness(l, [cs[0]], r)
    ensures ConstrainOne(l, cs[0]).Some? ==> (Witness(l, cs, r) <==> Witness(ConstrainOne(l, cs[0]).value, cs[1..], r))
  {
    assert [cs[0]][0] == cs[0];
    WithinSplits(cs, r);
    if Asks(r) && ConstrainOne(l, cs[0]).Some? {
      OneKept(l, cs[0], r);
    }
  }

  ghost predicate SomeWitness(l: Leaf, cs: seq<Constraint>) {
    exists r :: Witness(l, cs, r)
  }

  /** A leaf takes a list of constraints exactly when it permits some request that is within all of them. */
  lemma {:induction false} LeafTakenIff(l: Leaf, cs: seq<Constraint>)
    requires MemoryWellFormed(l) && Useful(l) && PlainPaths(cs) && |cs| > 0
    requires forall i :: 0 <= i < |cs| ==> LiveRange(cs[i])
    ensures ConstrainLeaf(l, cs).Some? <==> SomeWitness(l, cs)
    decreases |cs|
  {
    assert [cs[0]][0] == cs[0];
    OneTakenIff(l, cs[0]);
    forall r
      ensures Witness(l, cs, r) ==> Witness(l, [cs[0]], r)
      ensures ConstrainOne(l, cs[0]).Some? ==>
                (Witness(l, cs, r) <==> Witness(ConstrainOne(l, cs[0]).value, cs[1..], r))
    {
      WitnessSplits(l, cs, r);
    }
    if ConstrainOne(l, cs[0]).Some? {
      var l' := ConstrainOne(l, cs[0]).value;
      StaysUseful(l, cs[0]);
      assert SomeWitness(l, cs) <==> SomeWitness(l', cs[1..]);
      if |cs| > 1 {
        LeafTakenIff(l', cs[1..]);
      } else {
        var r :| Witness(l, [cs[0]], r);
        assert cs == [cs[0]];
      }
    }
  }
}

/** The capabilities that guard one kind of resource, behind one set of operations. */
module LeafCapability {
  import opened Wrappers
  import opened Requests
  import MR = MemoryRanges
  import MP = MemoryPermits
  import MM = MemoryMeet
  import MC = MemoryConstrain
  import F = FileCapability
  import P = PluginCallCapability

  datatype Leaf =
    | File(file: F.FileCap)
    | Memory(ranges: MR.RangeMap)
    | PluginCall(calls: P.CallCap)

  function LeafType(l: Leaf): string {
    match l
    case File(_) => "file"
    case Memory(_) => "memory"
    case PluginCall(_) => "plugin_call"
  }

  predicate LeafPermits(l: Leaf, r: Request) {
    match (l, r)
    case (File(f), FileAccess(path, read, write, execute)) => F.Permits(f, path, F.FileOps(read, write, execute))
    case (Memory(m), MemoryAccess(address, size, read, write)) =>
      MP.Permits(m, address, size, MR.MemoryOps(read, write))
    case (PluginCall(c), CallAccess(plugin, func)) => P.Permits(c, plugin, func)
    case _ => false
  }

  function WrapFile(f: Option<F.FileCap>): Option<Leaf> {
    if f.Some? then Some(File(f.value)) else None
  }

  /** One constraint on one leaf; a constraint of another kind is an error. */
  function ConstrainOne(l: Leaf, c: Constraint): Option<Leaf> {
    match (l, c)
    case (File(f), FilePath(path)) => WrapFile(F.ConstrainPath(f, path))
    case (File(f), FileOperation(read, write, execute)) => WrapFile(F.ConstrainOps(f, F.FileOps(read, write, execute)))
    case (Memory(m), MemoryRange(base, size, read, write)) =>
      var m' := MM.ConstrainRange(m, MR.Range(base, size, MR.MemoryOps(read, write)));
      if m'.Some? then Some(Memory(m'.value)) else None
    case (PluginCall(p), CallConstraint(plugin, func)) =>
      var p' := P.ConstrainCall(p, plugin, func);
      if p'.Some? then Some(PluginCall(p'.value)) else None
    case _ => None
  }

  /** The constraints in turn, stopping at the first error. */
  function ConstrainLeaf(l: Leaf, cs: seq<Constraint>): Option<Leaf>
    decreases |cs|
  {
    if |cs| == 0 then Some(l) else
      match ConstrainOne(l, cs[0])
      case None => None
      case Some(l') => ConstrainLeaf(l', cs[1..])
  }

  /** The loop of `constrain`. */
  method ComputeConstrainLeaf(l: Leaf, cs: seq<Constraint>) returns (r: Option<Leaf>)
    ensures r == ConstrainLeaf(l, cs)
  {
    var result := l;
    for i := 0 to |cs|
      invariant ConstrainLeaf(result, cs[i..]) == ConstrainLeaf(l, cs)
    {
      assert cs[i..][0] == cs[i] && cs[i..][1..] == cs[i + 1..];
      var next := ConstrainOne(result, cs[i]);
      if next.None? {
        return None;
      }
      result := next.value;
    }
    return Some(result);
  }

  /** The leaves for which constraining is proved not to widen. */
  ghost predicate TameLeaf(l: Leaf) {
    l.Memory? ==> MR.Tame(l.ranges)
  }

  predicate PlainPaths(cs: seq<Constraint>) {
    forall i :: 0 <= i < |cs| && cs[i].FilePath? ==> !F.IsPrefixPattern(cs[i].path)
  }

  lemma ConstrainOneNarrows(l: Leaf, c: Constraint, r: Request)
    requires TameLeaf(l) && PlainPaths([c]) && ConstrainOne(l, c).Some?
    ensures var l' := ConstrainOne(l, c).value;
            TameLeaf(l') && LeafType(l') == LeafType(l) && (LeafPermits(l', r) ==> LeafPermits(l, r))
  {
    var l' := ConstrainOne(l, c).value;
    match l
    case File(f) =>
      assert [c][0] == c;
      if r.FileAccess? {
        var need := F.FileOps(r.read, r.write, r.execute);
        match c
        case FilePath(path) => F.ConstrainNeverWidens(f, path, need, r.path, need);
        case FileOperation(read, write, execute) =>
          F.ConstrainNeverWidens(f, "", F.FileOps(read, write, execute), r.path, need);
        case _ =>
      }
    case Memory(m) =>
      var range := MR.Range(c.base, c.size, MR.MemoryOps(c.read, c.write));
      MC.ConstrainTame(m, range);
      if r.MemoryAccess? && LeafPermits(l', r) {
        MC.ConstrainNeverWidens(m, range, r.address, r.size, MR.MemoryOps(r.read, r.write));
      }
    case PluginCall(_) =>
  }

  lemma {:induction false} ConstrainLeafNarrows(l: Leaf, cs: seq<Constraint>, r: Request)
    requires TameLeaf(l) && PlainPaths(cs) && ConstrainLeaf(l, cs).Some?
    ensures var l' := ConstrainLeaf(l, cs).value;
            TameLeaf(l') && LeafType(l') == LeafType(l) && (LeafPermits(l', r) ==> LeafPermits(l, r))
    decreases |cs|
  {
    if |cs| > 0 {
      assert [cs[0]][0] == cs[0];
      ConstrainOneNarrows(l, cs[0], r);
      ConstrainLeafNarrows(ConstrainOne(l, cs[0]).value, cs[1..], r);
    }
  }

  /** A constrained leaf is of the same kind, whatever the constraints. */
  lemma {:induction false} ConstrainLeafType(l: Leaf, cs: seq<Constraint>)
    requires ConstrainLeaf(l, cs).Some?
    ensures LeafType(ConstrainLeaf(l, cs).value) == LeafType(l)
    decreases |cs|
  {
    if |cs| > 0 {
      ConstrainLeafType(ConstrainOne(l, cs[0]).value, cs[1..]);
    }
  }

  /** Constraining in two instalments is constraining once. */
  lemma {:induction false} ConstrainLeafConcat(l: Leaf, a: seq<Constraint>, b: seq<Constraint>)
    ensures ConstrainLeaf(l, a + b) ==
            match ConstrainLeaf(l, a) case None => None case Some(l') => ConstrainLeaf(l', b)
    decreases |a|
  {
    if |a| == 0 {
      assert a + b == b;
    } else {
      assert (a + b)[0] == a[0] && (a + b)[1..] == a[1..] + b;
      match ConstrainOne(l, a[0])
      case None =>
      case Some(l') => ConstrainLeafConcat(l', a[1..], b);
    }
  }

  // ----- split

  /** The parts of `split`: per path, per range, per plugin or function. Their order is not fixed. */
  ghost predicate IsLeafPart(part: Leaf, l: Leaf) {
    match l
    case File(f) => exists p :: p in f.paths && part == File(F.FileCap({p}, f.ops))
    case Memory(m) => exists k :: k in m && part == Memory(MC.Single(m[k]))
    case PluginCall(c) =>
      exists p :: p in c.functions &&
        if P.AllowsAll(c, p) then part == PluginCall(P.AllFunctions(p))
        else exists f :: f in c.functions[p] && part == PluginCall(P.AddFunction(P.NOTHING, p, f))
  }

  lemma LeafPartNarrows(part: Leaf, l: Leaf, r: Request)
    requires TameLeaf(l) && IsLeafPart(part, l)
    ensures TameLeaf(part) && LeafType(part) == LeafType(l)
    ensures LeafPermits(part, r) ==> LeafPermits(l, r)
  {
    match l
    case File(f) =>
    case Memory(m) =>
      var k :| k in m && part == Memory(MC.Single(m[k]));
      if r.MemoryAccess? {
        MC.SplitNarrows(m, k, r.address, r.size, MR.MemoryOps(r.read, r.write));
      } else {
        MC.SplitNarrows(m, k, 0, 0, MR.MemoryOps(false, false));
      }
    case PluginCall(_) =>
  }
}

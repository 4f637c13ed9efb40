/** The parts of a split tree together permit what the tree permits, request by request. */
module SplitCover {
  import opened MachineInt
  import opened Requests
  import opened LeafCapability
  import opened CapabilityTree
  import opened Attenuation
  import opened Revocation
  import MR = MemoryRanges
  import MP = MemoryPermits
  import MC = MemoryConstrain
  import F = FileCapability
  import P = PluginCallCapability

  /** One byte at most: a longer memory request can need several ranges, which a split takes apart. */
  predicate OneByte(r: Request) {
    r.MemoryAccess? ==> r.size == 1 && MP.InBounds(r.address, 1)
  }

  /** Each leaf that the split takes apart and that the request reaches is asked for one byte at most. */
  ghost predicate Elementary(c: Cap, r: Request)
    decreases c
  {
    match c
    case Leaf(_) => OneByte(r)
    case Filter(inner, _) => Elementary(inner, r)
    case Proxy(inner, transform) => Elementary(inner, transform(r))
    case Combine(_, _) => true
    case Composite(entries) => LookupKey(r) in entries ==> Elementary(entries[LookupKey(r)], r)
  }

  // ----- leaves

  /** One path pattern, one range, one plugin with all its functions, or one function. */
  datatype Unit = UnitPath(path: string) | UnitRange(range: MR.Range) | UnitPlugin(id: PluginId) |
    UnitCall(plugin: PluginId, func: string)

  /** What a leaf is made of. */
  ghost predicate Consists(l: LeafCapability.Leaf, u: Unit) {
    match (l, u)
    case (File(f), UnitPath(p)) => p in f.paths
    case (Memory(m), UnitRange(r)) => r.base in m && m[r.base] == r
    case (PluginCall(c), UnitPlugin(p)) => p in c.functions && P.AllowsAll(c, p)
    case (PluginCall(c), UnitCall(p, f)) => p in c.functions && !P.AllowsAll(c, p) && f in c.functions[p]
    case _ => false
  }

  ghost predicate OnlyUnit(l: LeafCapability.Leaf, u: Unit) {
    forall v :: Consists(l, v) <==> v == u
  }

  /** A split takes a leaf apart into single units, and no unit is left out. */
  lemma PartsAreUnits(l: LeafCapability.Leaf)
    ensures forall part :: IsLeafPart(part, l) ==> exists u :: Consists(l, u) && OnlyUnit(part, u)
    ensures forall u :: Consists(l, u) ==> exists part :: IsLeafPart(part, l) && OnlyUnit(part, u)
  {
    forall part | IsLeafPart(part, l)
      ensures exists u :: Consists(l, u) && OnlyUnit(part, u)
    {
      var u := UnitOf(part, l);
    }
    forall u | Consists(l, u)
      ensures exists part :: IsLeafPart(part, l) && OnlyUnit(part, u)
    {
      var part := PartOf(l, u);
    }
  }

  lemma UnitOf(part: LeafCapability.Leaf, l: LeafCapability.Leaf) returns (u: Unit)
    requires IsLeafPart(part, l)
    ensures Consists(l, u) && OnlyUnit(part, u)
  {
    match l
    case File(f) =>
      var p :| p in f.paths && part == File(F.FileCap({p}, f.ops));
      u := UnitPath(p);
    case Memory(m) =>
      var k :| k in m && part == Memory(MC.Single(m[k]));
      u := UnitRange(m[k]);
    case PluginCall(c) =>
      var p :| p in c.functions &&
        if P.AllowsAll(c, p) then part == PluginCall(P.AllFunctions(p))
        else exists f :: f in c.functions[p] && part == PluginCall(P.AddFunction(P.NOTHING, p, f));
      if P.AllowsAll(c, p) {
        u := UnitPlugin(p);
      } else {
        var f :| f in c.functions[p] && part == PluginCall(P.AddFunction(P.NOTHING, p, f));
        u := UnitCall(p, f);
      }
  }

  lemma PartOf(l: LeafCapability.Leaf, u: Unit) returns (part: LeafCapability.Leaf)
    requires Consists(l, u)
    ensures IsLeafPart(part, l) && OnlyUnit(part, u)
  {
    match (l, u)
    case (File(f), UnitPath(p)) => part := File(F.FileCap({p}, f.ops));
    case (Memory(m), UnitRange(r)) => part := Memory(MC.Single(r));
    case (PluginCall(c), UnitPlugin(p)) => part := PluginCall(P.AllFunctions(p));
    case (PluginCall(c), UnitCall(p, f)) => part := PluginCall(P.AddFunction(P.NOTHING, p, f));
  }

  lemma MemoryPart(m: MR.RangeMap, r: Request) returns (k: usize)
    requires MR.Tame(m) && r.MemoryAccess? && OneByte(r) && LeafPermits(Memory(m), r)
    ensures k in m && LeafPermits(Memory(MC.Single(m[k])), r)
  {
    var need := MR.MemoryOps(r.read, r.write);
    MP.PermitsIffBytes(m, r.address, 1, need);
    assert MR.HasRight(m, r.address, need);
    k :| k in m && m[k].HasByte(r.address) && m[k].ops.Contains(need);
    var one := MC.Single(m[k]);
    assert MR.WellFormed(one);
    assert one[k].HasByte(r.address);
    MP.PermitsIffBytes(one, r.address, 1, need);
  }

  lemma CallPart(c: P.CallCap, r: Request) returns (part: LeafCapability.Leaf)
    requires r.CallAccess? && LeafPermits(PluginCall(c), r)
    ensures IsLeafPart(part, PluginCall(c)) && LeafPermits(part, r)
  {
    var p := r.plugin.parsed.value;
    part := if P.AllowsAll(c, p) then PluginCall(P.AllFunctions(p))
            else PluginCall(P.AddFunction(P.NOTHING, p, r.func));
  }

  lemma LeafPartCovers(l: LeafCapability.Leaf, r: Request) returns (part: LeafCapability.Leaf)
    requires TameLeaf(l) && OneByte(r) && LeafPermits(l, r)
    ensures IsLeafPart(part, l) && LeafPermits(part, r)
  {
    match l
    case File(f) =>
      var p :| p in f.paths && F.PathMatches(p, r.path);
      part := File(F.FileCap({p}, f.ops));
    case Memory(m) =>
      var k := MemoryPart(m, r);
      part := Memory(MC.Single(m[k]));
    case PluginCall(c) => part := CallPart(c, r);
  }

  // ----- trees

  /** An `Any` combination comes apart into its children, an `All` combination does not come apart. */
  lemma CombineParts(parts: seq<Cap>, part: Cap)
    ensures IsPart(part, Combine(parts, Any)) <==> exists i :: 0 <= i < |parts| && parts[i] == part
    ensures IsPart(part, Combine(parts, All)) <==> part == Combine(parts, All)
  {
  }

  /** A part that is a combination or a composite is filed under that name, where only custom requests look for it. */
  lemma NestedParts(key: string, c: Cap, part: Cap, r: Request)
    requires IsPart(part, Composite(map[key := c]))
    ensures c.Combine? && c.strategy.All? ==>
              (Permits(part, r) <==> r.CustomAccess? && r.kind == "combine" && Permits(c, r))
    ensures c.Composite? ==> (Permits(part, r) ==> r.CustomAccess? && r.kind == "composite")
  {
    var sub :| IsPart(sub, c) && part == Composite(map[CapType(sub) := sub]);
    assert "combine"[2] == 'm' && "composite"[2] == 'm';
    assert RequestType(r) in {"file", "network", "memory", "plugin_call", "message", "custom"};
    assert r.CustomAccess? || LookupKey(r)[0] != 'c';
  }

  lemma {:induction false} SomeChild(parts: seq<Cap>, r: Request) returns (part: Cap)
    requires AnyPermits(parts, r)
    ensures part in parts && Permits(part, r)
  {
    if Permits(parts[0], r) {
      part := parts[0];
    } else {
      part := SomeChild(parts[1..], r);
    }
  }

  lemma {:induction false} PartCovers(c: Cap, r: Request) returns (part: Cap)
    requires Tame(c) && SplitSafe(c) && Elementary(c, r) && Permits(c, r)
    ensures IsPart(part, c) && Permits(part, r)
    decreases c
  {
    match c
    case Leaf(l) =>
      var p := LeafPartCovers(l, r);
      part := Leaf(p);
    case Filter(inner, allow) =>
      var p := PartCovers(inner, r);
      part := Filter(p, allow);
    case Proxy(inner, transform) =>
      var p := PartCovers(inner, transform(r));
      part := Proxy(p, transform);
    case Combine(_, All) => part := c;
    case Combine(parts, Any) => part := SomeChild(parts, r);
    case Composite(entries) =>
      var k := LookupKey(r);
      var sub := PartCovers(entries[k], r);
      PartType(sub, entries[k], k);
      part := Composite(map[CapType(sub) := sub]);
      assert IsPart(part, c);
  }

  /** Some part of the split permits the request. */
  ghost predicate SomePartPermits(c: Cap, r: Request) {
    exists part: Cap :: PermittingPart(part, c, r)
  }

  ghost predicate PermittingPart(part: Cap, c: Cap, r: Request) {
    IsPart(part, c) && Permits(part, r)
  }

  /** Splitting loses nothing and adds nothing: a request is permitted exactly when some part permits it. */
  lemma PartsPermitIff(c: Cap, r: Request)
    requires Tame(c) && SplitSafe(c) && Elementary(c, r)
    ensures Permits(c, r) <==> SomePartPermits(c, r)
  {
    if Permits(c, r) {
      var part := PartCovers(c, r);
      assert PermittingPart(part, c, r);
    }
    if SomePartPermits(c, r) {
      var part :| PermittingPart(part, c, r);
      PartNarrows(part, c, r);
    }
  }
}

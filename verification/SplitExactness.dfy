/** When the parts of a split tree stay within the tree. */
module SplitExactness {
  import opened Wrappers
  import opened Requests
  import opened LeafCapability
  import opened LeafLattice
  import opened CapabilityTree
  import opened Attenuation
  import opened Revocation
  import opened TreeInclusion
  import F = FileCapability
  import P = PluginCallCapability

  /** The leaf permits no request: a memory leaf permits at least the empty ones. */
  predicate RefusesAll(l: LeafCapability.Leaf) {
    match l
    case File(f) => f.paths == {}
    case Memory(_) => false
    case PluginCall(c) => forall p :: p in c.functions ==> !P.AllowsAll(c, p) && c.functions[p] == {}
  }

  lemma PermittedByLeaf(l: LeafCapability.Leaf) returns (r: Request)
    requires !RefusesAll(l)
    ensures LeafPermits(l, r)
  {
    match l
    case File(f) =>
      var p :| p in f.paths;
      var path := if F.IsPrefixPattern(p) then F.PatternPrefix(p) else p;
      assert F.PathMatches(p, path);
      r := FileAccess(path, false, false, false);
    case Memory(_) =>
      r := MemoryAccess(0, 0, false, false);
    case PluginCall(c) =>
      var p :| p in c.functions && (P.AllowsAll(c, p) || c.functions[p] != {});
      var f :| P.AllowsAll(c, p) || f in c.functions[p];
      r := CallAccess(PluginText("", Some(p)), f);
  }

  lemma RefusesAllIff(l: LeafCapability.Leaf)
    ensures RefusesAll(l) <==> forall r :: !LeafPermits(l, r)
  {
    if !RefusesAll(l) {
      var r := PermittedByLeaf(l);
    }
  }

  /** A leaf among the parts of the entry at `k` that has another type, so that `split` files it elsewhere. */
  ghost predicate Foreign(entries: map<string, Cap>, k: string, l: LeafCapability.Leaf) {
    k in entries && IsPart(Leaf(l), entries[k]) && LeafType(l) != k
  }

  ghost predicate PartsNarrow(c: Cap) {
    forall part, r :: IsPart(part, c) && Permits(part, r) ==> Permits(c, r)
  }

  function Filed(part: Cap): Cap {
    Composite(map[CapType(part) := part])
  }

  lemma {:induction false} StaticPart(part: Cap, c: Cap)
    requires Static(c) && IsPart(part, c)
    ensures Static(part)
    decreases c
  {
    if c.Composite? {
      var k, sub :| k in c.entries && IsPart(sub, c.entries[k]) && part == Composite(map[CapType(sub) := sub]);
      StaticPart(sub, c.entries[k]);
    }
  }

  /** Of the parts under their own types only leaves permit anything: no request looks for the other types. */
  lemma FiledLeaf(part: Cap, c: Cap, r: Request)
    requires Static(c) && IsPart(part, c) && Permits(Filed(part), r)
    ensures part.Leaf? && LookupKey(r) == LeafType(part.leaf) && LeafPermits(part.leaf, r)
  {
    StaticPart(part, c);
    if ForLeaf(r) {
    } else {
      OtherRequests(part, r);
    }
  }

  /** A leaf among the parts of a tree is a part of the leaf that the tree is, or a child of an `Any` combination. */
  lemma LeafPart(l: LeafCapability.Leaf, c: Cap, r: Request)
    requires Static(c) && Tame(c) && IsPart(Leaf(l), c)
    ensures TameLeaf(l)
    ensures LeafPermits(l, r) ==> Permits(c, r)
  {
    match c
    case Leaf(g) =>
      LeafPartNarrows(l, g, r);
    case Combine(parts, _) =>
      var i :| 0 <= i < |parts| && parts[i] == Leaf(l);
      assert Tame(parts[i]);
      if LeafPermits(l, r) {
        AnyOfParts(parts, i, r);
      }
    case Composite(_) =>
  }

  /** Each leaf filed under a foreign type is covered by what the composite has for that type. */
  ghost predicate ForeignCovered(entries: map<string, Cap>) {
    forall k, l :: Foreign(entries, k, l) ==> TreeCovers(Composite(entries), l)
  }

  lemma CoveredParts(c: Cap, part: Cap, r: Request, ch: char)
    requires Static(c) && Tame(c) && UnusedInTree(ch, c) && c.Composite? && ForeignCovered(c.entries)
    requires IsPart(part, c) && Permits(part, r)
    ensures Permits(c, r)
  {
    var k, sub :| k in c.entries && IsPart(sub, c.entries[k]) && part == Composite(map[CapType(sub) := sub]);
    FiledLeaf(sub, c.entries[k], r);
    LeafPart(sub.leaf, c.entries[k], r);
    if LeafType(sub.leaf) != k {
      assert Foreign(c.entries, k, sub.leaf);
      TreeCoversIff(c, sub.leaf, ch);
    }
  }

  lemma UncoveredPart(c: Cap, k: string, l: LeafCapability.Leaf, ch: char) returns (r: Request)
    requires Static(c) && Tame(c) && UnusedInTree(ch, c) && c.Composite?
    requires Foreign(c.entries, k, l) && !TreeCovers(c, l)
    ensures IsPart(Filed(Leaf(l)), c) && Permits(Filed(Leaf(l)), r) && !Permits(c, r)
  {
    r := MemoryAccess(0, 0, false, false);
    LeafPart(l, c.entries[k], r);
    TreeCoversIff(c, l, ch);
    r :| LeafPermits(l, r) && !Permits(c, r);
    LeafLookup(l, r);
  }

  /**
   * Every part of a tree without filters and proxies narrows it exactly when the tree is no composite
   * or covers each leaf that the split files under a foreign type.
   */
  lemma SplitNarrowsIff(c: Cap, ch: char)
    requires Static(c) && Tame(c) && UnusedInTree(ch, c)
    ensures PartsNarrow(c) <==> (c.Composite? ==> ForeignCovered(c.entries))
  {
    if !c.Composite? {
      forall part, r | IsPart(part, c) && Permits(part, r)
        ensures Permits(c, r)
      {
        PlainPart(part, c, r);
      }
    } else if ForeignCovered(c.entries) {
      forall part, r | IsPart(part, c) && Permits(part, r)
        ensures Permits(c, r)
      {
        CoveredParts(c, part, r, ch);
      }
    } else {
      var k, l :| Foreign(c.entries, k, l) && !TreeCovers(c, l);
      var r := UncoveredPart(c, k, l, ch);
    }
  }

  lemma PlainPart(part: Cap, c: Cap, r: Request)
    requires Static(c) && Tame(c) && !c.Composite? && IsPart(part, c) && Permits(part, r)
    ensures Permits(c, r)
  {
    match c
    case Leaf(_) => LeafPart(part.leaf, c, r);
    case Combine(_, All) =>
    case Combine(parts, Any) =>
      var i :| 0 <= i < |parts| && parts[i] == part;
      AnyOfParts(parts, i, r);
  }

  /** Without entries under foreign types only leaves that permit nothing may be foreign. */
  lemma SplitNarrowsUnlessForeign(entries: map<string, Cap>, ch: char)
    requires Static(Composite(entries)) && Tame(Composite(entries)) && UnusedInTree(ch, Composite(entries))
    requires forall k, l :: Foreign(entries, k, l) ==> LeafType(l) !in entries
    ensures PartsNarrow(Composite(entries)) <==> forall k, l :: Foreign(entries, k, l) ==> RefusesAll(l)
  {
    SplitNarrowsIff(Composite(entries), ch);
    forall k, l | Foreign(entries, k, l)
      ensures TreeCovers(Composite(entries), l) <==> RefusesAll(l)
    {
      NoEntryCovers(entries, k, l, ch);
    }
  }

  lemma NoEntryCovers(entries: map<string, Cap>, k: string, l: LeafCapability.Leaf, ch: char)
    requires Static(Composite(entries)) && Tame(Composite(entries)) && UnusedInTree(ch, Composite(entries))
    requires Foreign(entries, k, l) && LeafType(l) !in entries
    ensures TreeCovers(Composite(entries), l) <==> RefusesAll(l)
  {
    LeafPart(l, entries[k], MemoryAccess(0, 0, false, false));
    TreeCoversIff(Composite(entries), l, ch);
    RefusesAllIff(l);
    forall r | LeafPermits(l, r)
      ensures !Permits(Composite(entries), r)
    {
      LeafLookup(l, r);
    }
  }
}

/** When every request that a leaf permits is permitted by a tree of combinations and composites. */
module TreeInclusion {
  import opened Requests
  import opened LeafCapability
  import opened LeafLattice
  import opened CapabilityTree
  import opened Attenuation
  import opened LeafInclusion

  type Clause = seq<LeafCapability.Leaf>

  /** No filter and no proxy, whose closures can decide anything. */
  predicate Static(c: Cap) {
    match c
    case Leaf(_) => true
    case Filter(_, _) => false
    case Proxy(_, _) => false
    case Combine(parts, _) => forall i :: 0 <= i < |parts| ==> Static(parts[i])
    case Composite(entries) => forall k :: k in entries ==> Static(entries[k])
  }

  predicate UnusedInTree(ch: char, c: Cap) {
    match c
    case Leaf(l) => UnusedIn(ch, l)
    case Filter(inner, _) => UnusedInTree(ch, inner)
    case Proxy(inner, _) => UnusedInTree(ch, inner)
    case Combine(parts, _) => forall i :: 0 <= i < |parts| ==> UnusedInTree(ch, parts[i])
    case Composite(entries) => forall k :: k in entries ==> UnusedInTree(ch, entries[k])
  }

  /** The requests for which some leaf can be asked. */
  predicate ForLeaf(r: Request) {
    r.FileAccess? || r.MemoryAccess? || r.CallAccess?
  }

  // ----- a tree as clauses: lists of leaves, each of which must have one leaf that permits

  function Cross(a: set<Clause>, b: set<Clause>): set<Clause> {
    set x, y | x in a && y in b :: x + y
  }

  function Clauses(c: Cap, kind: string): set<Clause>
    decreases c, 1
  {
    match c
    case Leaf(l) => {[l]}
    case Filter(inner, _) => Clauses(inner, kind)
    case Proxy(inner, _) => Clauses(inner, kind)
    case Combine(parts, Any) => AnyClauses(parts, kind)
    case Combine(parts, All) => if HasType(parts, kind) then AllClauses(parts, kind) else {[]}
    case Composite(entries) => if kind in entries then Clauses(entries[kind], kind) else {[]}
  }

  function AnyClauses(parts: seq<Cap>, kind: string): set<Clause>
    decreases parts, 0
  {
    if |parts| == 0 then {[]} else Cross(Clauses(parts[0], kind), AnyClauses(parts[1..], kind))
  }

  function AllClauses(parts: seq<Cap>, kind: string): set<Clause>
    decreases parts, 0
  {
    if |parts| == 0 then {} else
      (if CapType(parts[0]) == kind then Clauses(parts[0], kind) else {}) + AllClauses(parts[1..], kind)
  }

  predicate Meets(clauses: set<Clause>, r: Request) {
    forall x :: x in clauses ==> SomePermits(x, r)
  }

  lemma SomeOfBoth(x: Clause, y: Clause, r: Request)
    ensures SomePermits(x + y, r) <==> SomePermits(x, r) || SomePermits(y, r)
  {
    if i :| 0 <= i < |x| && LeafPermits(x[i], r) {
      assert (x + y)[i] == x[i];
    }
    if i :| 0 <= i < |y| && LeafPermits(y[i], r) {
      assert (x + y)[|x| + i] == y[i];
    }
  }

  lemma CrossMeets(a: set<Clause>, b: set<Clause>, r: Request)
    ensures Meets(Cross(a, b), r) <==> Meets(a, r) || Meets(b, r)
  {
    forall x, y | x in a && y in b
      ensures x + y in Cross(a, b) && (SomePermits(x + y, r) <==> SomePermits(x, r) || SomePermits(y, r))
    {
      SomeOfBoth(x, y, r);
    }
    if !Meets(a, r) && !Meets(b, r) {
      var x :| x in a && !SomePermits(x, r);
      var y :| y in b && !SomePermits(y, r);
      assert x + y in Cross(a, b);
    }
  }

  /** A tree without filters and proxies permits exactly what meets its clauses. */
  lemma {:induction false} ClausesPermit(c: Cap, r: Request)
    requires Static(c) && ForLeaf(r)
    ensures Permits(c, r) <==> Meets(Clauses(c, LookupKey(r)), r)
    decreases c, 1
  {
    var kind := LookupKey(r);
    match c
    case Leaf(l) =>
      assert SomePermits([l], r) <==> LeafPermits([l][0], r);
    case Combine(parts, Any) =>
      AnyClausesPermit(parts, r);
    case Combine(parts, All) =>
      AllClausesPermit(parts, r);
      if !HasType(parts, kind) {
        assert [] in Clauses(c, kind) && !SomePermits([], r);
      }
    case Composite(entries) =>
      if kind in entries {
        ClausesPermit(entries[kind], r);
      } else {
        assert [] in Clauses(c, kind) && !SomePermits([], r);
      }
  }

  lemma {:induction false} AnyClausesPermit(parts: seq<Cap>, r: Request)
    requires (forall i :: 0 <= i < |parts| ==> Static(parts[i])) && ForLeaf(r)
    ensures AnyPermits(parts, r) <==> Meets(AnyClauses(parts, LookupKey(r)), r)
    decreases parts, 0
  {
    if |parts| == 0 {
      assert [] in AnyClauses(parts, LookupKey(r)) && !SomePermits([], r);
    } else {
      ClausesPermit(parts[0], r);
      AnyClausesPermit(parts[1..], r);
      CrossMeets(Clauses(parts[0], LookupKey(r)), AnyClauses(parts[1..], LookupKey(r)), r);
    }
  }

  lemma {:induction false} AllClausesPermit(parts: seq<Cap>, r: Request)
    requires (forall i :: 0 <= i < |parts| ==> Static(parts[i])) && ForLeaf(r)
    ensures AllOfTypePermit(parts, LookupKey(r), r) <==> Meets(AllClauses(parts, LookupKey(r)), r)
    decreases parts, 0
  {
    if |parts| > 0 {
      ClausesPermit(parts[0], r);
      AllClausesPermit(parts[1..], r);
    }
  }

  lemma {:induction false} OtherRequests(c: Cap, r: Request)
    requires Static(c) && !ForLeaf(r)
    ensures !Permits(c, r)
    decreases c, 1
  {
    match c
    case Leaf(_) =>
    case Combine(parts, strategy) => OtherRequestsOfParts(parts, r);
    case Composite(entries) =>
      if LookupKey(r) in entries {
        OtherRequests(entries[LookupKey(r)], r);
      }
  }

  lemma {:induction false} OtherRequestsOfParts(parts: seq<Cap>, r: Request)
    requires (forall i :: 0 <= i < |parts| ==> Static(parts[i])) && !ForLeaf(r)
    ensures !AnyPermits(parts, r)
    ensures forall kind :: HasType(parts, kind) ==> !AllOfTypePermit(parts, kind, r)
    decreases parts, 0
  {
    if |parts| > 0 {
      OtherRequests(parts[0], r);
      OtherRequestsOfParts(parts[1..], r);
    }
  }

  // ----- inclusion

  /** Each clause of the tree for the leaf's type covers the leaf. */
  ghost predicate TreeCovers(c: Cap, l: LeafCapability.Leaf) {
    forall x :: x in Clauses(c, LeafType(l)) ==> Covered(x, l)
  }

  ghost predicate GoodClause(x: Clause, ch: char) {
    AllTame(x) && forall i :: 0 <= i < |x| ==> UnusedIn(ch, x[i])
  }

  lemma {:induction false} ClausesGood(c: Cap, kind: string, ch: char)
    requires Tame(c) && UnusedInTree(ch, c)
    ensures forall x :: x in Clauses(c, kind) ==> GoodClause(x, ch)
    decreases c, 1
  {
    match c
    case Leaf(_) =>
    case Filter(inner, _) => ClausesGood(inner, kind, ch);
    case Proxy(inner, _) => ClausesGood(inner, kind, ch);
    case Combine(parts, _) => PartClausesGood(parts, kind, ch);
    case Composite(entries) =>
      if kind in entries {
        ClausesGood(entries[kind], kind, ch);
      }
  }

  lemma {:induction false} PartClausesGood(parts: seq<Cap>, kind: string, ch: char)
    requires forall i :: 0 <= i < |parts| ==> Tame(parts[i]) && UnusedInTree(ch, parts[i])
    ensures forall x :: x in AnyClauses(parts, kind) ==> GoodClause(x, ch)
    ensures forall x :: x in AllClauses(parts, kind) ==> GoodClause(x, ch)
    decreases parts, 0
  {
    if |parts| > 0 {
      ClausesGood(parts[0], kind, ch);
      PartClausesGood(parts[1..], kind, ch);
    }
  }

  lemma IncludedInTree(c: Cap, l: LeafCapability.Leaf, r: Request)
    requires Static(c) && LeafPermits(l, r)
    requires forall x :: x in Clauses(c, LeafType(l)) ==> Includes(x, l)
    ensures Permits(c, r)
  {
    LeafLookup(l, r);
    ClausesPermit(c, r);
  }

  /** A tree permits everything that a leaf permits exactly when each of its clauses covers the leaf. */
  lemma TreeCoversIff(c: Cap, l: LeafCapability.Leaf, ch: char)
    requires Static(c) && Tame(c) && UnusedInTree(ch, c) && TameLeaf(l)
    ensures TreeCovers(c, l) <==> forall r :: LeafPermits(l, r) ==> Permits(c, r)
  {
    ClausesGood(c, LeafType(l), ch);
    forall x | x in Clauses(c, LeafType(l))
      ensures Covered(x, l) <==> Includes(x, l)
    {
      assert GoodClause(x, ch);
      CoveredIff(x, l, ch);
    }
    if TreeCovers(c, l) {
      forall r | LeafPermits(l, r)
        ensures Permits(c, r)
      {
        IncludedInTree(c, l, r);
      }
    } else {
      var x :| x in Clauses(c, LeafType(l)) && !Includes(x, l);
      var r :| LeafPermits(l, r) && !SomePermits(x, r);
      LeafLookup(l, r);
      ClausesPermit(c, r);
    }
  }
}

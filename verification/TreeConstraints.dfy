/** Which trees take which constraints, and exactly what they permit afterwards. */
module TreeConstraints {
  import opened Wrappers
  import opened Requests
  import opened LeafCapability
  import opened LeafLattice
  import opened CapabilityTree
  import opened Attenuation
  import opened LeafExactness
  import CL = CompositeLattice

  // ----- trees

  /** The leaves that have to take the constraints do. */
  ghost predicate Takes(c: Cap, cs: seq<Constraint>)
    decreases c
  {
    match c
    case Leaf(l) => ConstrainLeaf(l, cs).Some?
    case Filter(inner, _) => Takes(inner, cs)
    case Proxy(inner, _) => Takes(inner, cs)
    case Combine(parts, Any) => exists i :: 0 <= i < |parts| && Takes(parts[i], cs)
    case Combine(parts, All) => |parts| > 0 && forall i :: 0 <= i < |parts| ==> Takes(parts[i], cs)
    case Composite(entries) =>
      forall k :: Group(cs, k) != [] ==> k in entries && Takes(entries[k], Group(cs, k))
  }

  lemma {:induction false} TakesIff(c: Cap, cs: seq<Constraint>)
    ensures Constrain(c, cs).Some? <==> Takes(c, cs)
    decreases c, 1
  {
    match c
    case Leaf(_) =>
    case Filter(inner, _) => TakesIff(inner, cs);
    case Proxy(inner, _) => TakesIff(inner, cs);
    case Combine(parts, strategy) => PartsTakeIff(parts, strategy, cs);
    case Composite(entries) =>
      forall k | k in entries
        ensures Constrain(entries[k], Group(cs, k)).Some? <==> Takes(entries[k], Group(cs, k))
      {
        TakesIff(entries[k], Group(cs, k));
      }
      CompositeTakesIff(entries, cs);
  }

  lemma CompositeTakesIff(entries: map<string, Cap>, cs: seq<Constraint>)
    requires forall k :: k in entries ==>
               (Constrain(entries[k], Group(cs, k)).Some? <==> Takes(entries[k], Group(cs, k)))
    ensures Constrain(Composite(entries), cs).Some? <==> Takes(Composite(entries), cs)
  {
    CompositeShape(entries, cs);
    forall k
      ensures EntryFails(entries, cs, k) <==>
              !(Group(cs, k) != [] ==> k in entries && Takes(entries[k], Group(cs, k)))
    {
    }
  }

  lemma {:induction false} PartsTakeIff(parts: seq<Cap>, strategy: Strategy, cs: seq<Constraint>)
    ensures ConstrainParts(parts, strategy, cs).Some? <==>
            (strategy.All? ==> forall i :: 0 <= i < |parts| ==> Takes(parts[i], cs))
    ensures ConstrainParts(parts, strategy, cs).Some? ==>
              (ConstrainParts(parts, strategy, cs).value != [] <==>
               exists i :: 0 <= i < |parts| && Takes(parts[i], cs))
    decreases parts, 0
  {
    if |parts| > 0 {
      TakesIff(parts[0], cs);
      PartsTakeIff(parts[1..], strategy, cs);
      assert parts == [parts[0]] + parts[1..];
      assert forall i :: 0 <= i < |parts[1..]| ==> parts[1..][i] == parts[i + 1];
    }
  }

  /** Each memory leaf that the request reaches is asked for some right on some byte. */
  ghost predicate Proper(c: Cap, r: Request)
    decreases c
  {
    match c
    case Leaf(_) => Asks(r)
    case Filter(inner, _) => Proper(inner, r)
    case Proxy(inner, transform) => Proper(inner, transform(r))
    case Combine(parts, _) => forall i :: 0 <= i < |parts| ==> Proper(parts[i], r)
    case Composite(entries) => LookupKey(r) in entries ==> Proper(entries[LookupKey(r)], r)
  }

  /** The tree permits the request through parts that take the constraints, and the leaves are asked within them. */
  ghost predicate Kept(c: Cap, cs: seq<Constraint>, r: Request)
    decreases c
  {
    match c
    case Leaf(l) => LeafPermits(l, r) && AllWithin(cs, r)
    case Filter(inner, allow) => allow(r) && Kept(inner, cs, r)
    case Proxy(inner, transform) => Kept(inner, cs, transform(r))
    case Combine(parts, Any) => exists i :: 0 <= i < |parts| && Takes(parts[i], cs) && Kept(parts[i], cs, r)
    case Combine(parts, All) =>
      && (exists i :: 0 <= i < |parts| && CapType(parts[i]) == RequestType(r))
      && (forall i :: 0 <= i < |parts| && CapType(parts[i]) == RequestType(r) ==> Kept(parts[i], cs, r))
    case Composite(entries) =>
      var k := LookupKey(r);
      k in entries && if Group(cs, k) == [] then Permits(entries[k], r) else Kept(entries[k], Group(cs, k), r)
  }

  /** A constrained tree permits exactly the requests that are kept. */
  lemma {:induction false} ConstrainedPermits(c: Cap, cs: seq<Constraint>, r: Request)
    requires Tame(c) && PlainPaths(cs) && Proper(c, r) && Constrain(c, cs).Some?
    ensures Permits(Constrain(c, cs).value, r) <==> Kept(c, cs, r)
    decreases c, 1
  {
    match c
    case Leaf(l) => LeafKept(l, cs, r);
    case Filter(inner, _) => ConstrainedPermits(inner, cs, r);
    case Proxy(inner, transform) => ConstrainedPermits(inner, cs, transform(r));
    case Combine(parts, Any) => AnyConstrainedPermits(parts, cs, r);
    case Combine(parts, All) => AllConstrainedPermits(parts, cs, r);
    case Composite(entries) =>
      var k := LookupKey(r);
      EntryConstrained(entries, cs, k);
      if k in entries && Group(cs, k) != [] {
        GroupPlain(cs, k);
        ConstrainedPermits(entries[k], Group(cs, k), r);
      }
  }

  lemma EntryConstrained(entries: map<string, Cap>, cs: seq<Constraint>, k: string)
    requires Constrain(Composite(entries), cs).Some?
    ensures var d := Constrain(Composite(entries), cs).value;
            && d.Composite? && (k in d.entries <==> k in entries)
            && (k in entries ==> Some(d.entries[k]) == ConstrainEntry(entries[k], Group(cs, k)))
  {
    CompositeShape(entries, cs);
  }

  ghost predicate SomeKept(parts: seq<Cap>, cs: seq<Constraint>, r: Request) {
    exists i :: 0 <= i < |parts| && Takes(parts[i], cs) && Kept(parts[i], cs, r)
  }

  lemma SomeKeptSplits(parts: seq<Cap>, cs: seq<Constraint>, r: Request)
    requires |parts| > 0
    ensures SomeKept(parts, cs, r) <==>
            (Takes(parts[0], cs) && Kept(parts[0], cs, r)) || SomeKept(parts[1..], cs, r)
  {
    assert parts == [parts[0]] + parts[1..];
    assert forall i :: 0 <= i < |parts[1..]| ==> parts[1..][i] == parts[i + 1];
  }

  lemma {:induction false} AnyConstrainedPermits(parts: seq<Cap>, cs: seq<Constraint>, r: Request)
    requires forall i :: 0 <= i < |parts| ==> Tame(parts[i]) && Proper(parts[i], r)
    requires PlainPaths(cs) && ConstrainParts(parts, Any, cs).Some?
    ensures AnyPermits(ConstrainParts(parts, Any, cs).value, r) <==> SomeKept(parts, cs, r)
    decreases parts, 0
  {
    if |parts| > 0 {
      TakesIff(parts[0], cs);
      if Constrain(parts[0], cs).Some? {
        ConstrainedPermits(parts[0], cs, r);
      }
      AnyConstrainedPermits(parts[1..], cs, r);
      SomeKeptSplits(parts, cs, r);
    }
  }

  ghost predicate SomeOfType(parts: seq<Cap>, kind: string) {
    exists i :: 0 <= i < |parts| && CapType(parts[i]) == kind
  }

  lemma {:induction false} AllConstrainedPermits(parts: seq<Cap>, cs: seq<Constraint>, r: Request)
    requires forall i :: 0 <= i < |parts| ==> Tame(parts[i]) && Proper(parts[i], r)
    requires PlainPaths(cs) && ConstrainParts(parts, All, cs).Some?
    ensures var ps := ConstrainParts(parts, All, cs).value;
            && (HasType(ps, RequestType(r)) <==> SomeOfType(parts, RequestType(r)))
            && (AllOfTypePermit(ps, RequestType(r), r) <==> AllKept(parts, RequestType(r), cs, r))
    decreases parts, 0
  {
    if |parts| > 0 {
      ConstrainKeepsType(parts[0], cs);
      ConstrainedPermits(parts[0], cs, r);
      AllConstrainedPermits(parts[1..], cs, r);
      OfTypeSplits(parts, RequestType(r), cs, r);
    }
  }

  ghost predicate AllKept(parts: seq<Cap>, kind: string, cs: seq<Constraint>, r: Request) {
    forall i :: 0 <= i < |parts| && CapType(parts[i]) == kind ==> Kept(parts[i], cs, r)
  }

  lemma OfTypeSplits(parts: seq<Cap>, kind: string, cs: seq<Constraint>, r: Request)
    requires |parts| > 0
    ensures SomeOfType(parts, kind) <==> CapType(parts[0]) == kind || SomeOfType(parts[1..], kind)
    ensures AllKept(parts, kind, cs, r) <==>
            (CapType(parts[0]) == kind ==> Kept(parts[0], cs, r)) && AllKept(parts[1..], kind, cs, r)
  {
    assert parts == [parts[0]] + parts[1..];
    assert forall i :: 0 <= i < |parts[1..]| ==> parts[1..][i] == parts[i + 1];
  }

  // ----- composites of leaves

  /** The composite that is left when the entry that takes the constraint has taken it. */
  function TakeOne(e: CL.Entries, c: Constraint): Option<CL.Entries> {
    if exists k :: k in e && ConstrainOne(e[k], c).Some? then
      Some(map k | k in e :: if ConstrainOne(e[k], c).Some? then ConstrainOne(e[k], c).value else e[k])
    else None
  }

  function TakeAll(e: CL.Entries, cs: seq<Constraint>): Option<CL.Entries> {
    if |cs| == 0 then Some(e) else
      match TakeOne(e, cs[0])
      case None => None
      case Some(e') => TakeAll(e', cs[1..])
  }

  /** A leaf takes only constraints that are grouped under its type. */
  lemma TakesOwnType(l: LeafCapability.Leaf, c: Constraint)
    requires ConstrainOne(l, c).Some?
    ensures ConstraintType(c) == LeafType(l) == LeafType(ConstrainOne(l, c).value)
  {
  }

  lemma GroupOfOne(c: Constraint, k: string)
    ensures Group([c], k) == if ConstraintType(c) == k then [c] else []
  {
    assert [c][1..] == [];
  }

  lemma LeafWithOne(l: LeafCapability.Leaf, c: Constraint)
    ensures ConstrainLeaf(l, [c]) == ConstrainOne(l, c)
  {
    assert [c][0] == c && [c][1..] == [];
  }

  /** One constraint on a composite of leaves: whichever entry takes it is constrained, and one has to. */
  lemma FlatTakesOne(e: CL.Entries, c: Constraint)
    requires CL.Keyed(e)
    ensures Constrain(CL.Flat(e), [c]).Some? <==> TakeOne(e, c).Some?
    ensures TakeOne(e, c).Some? ==>
              CL.Keyed(TakeOne(e, c).value) && Constrain(CL.Flat(e), [c]) == Some(CL.Flat(TakeOne(e, c).value))
  {
    var entries := CL.Flat(e).entries;
    var kind := ConstraintType(c);
    forall k
      ensures Group([c], k) == if kind == k then [c] else []
    {
      GroupOfOne(c, k);
    }
    forall k | k in e
      ensures ConstrainLeaf(e[k], [c]) == ConstrainOne(e[k], c)
      ensures ConstrainOne(e[k], c).Some? ==> k == kind && LeafType(ConstrainOne(e[k], c).value) == k
    {
      LeafWithOne(e[k], c);
      if ConstrainOne(e[k], c).Some? {
        TakesOwnType(e[k], c);
      }
    }
    if kind in e && ConstrainOne(e[kind], c).Some? {
      FlatTaken(e, c);
    } else {
      CompositeFails(entries, [c], kind);
    }
  }

  lemma FlatTaken(e: CL.Entries, c: Constraint)
    requires CL.Keyed(e) && ConstraintType(c) in e && ConstrainOne(e[ConstraintType(c)], c).Some?
    requires forall k :: Group([c], k) == if ConstraintType(c) == k then [c] else []
    requires forall k :: k in e && ConstrainOne(e[k], c).Some? ==> k == ConstraintType(c)
    ensures TakeOne(e, c).Some? && Constrain(CL.Flat(e), [c]) == Some(CL.Flat(TakeOne(e, c).value))
  {
    var kind := ConstraintType(c);
    LeafWithOne(e[kind], c);
    CompositeSucceeds(CL.Flat(e).entries, [c], CL.Flat(TakeOne(e, c).value).entries);
  }

  /** Any list of constraints: one after the other, each taken by the entry that can take it. */
  lemma {:induction false} FlatTakesAll(e: CL.Entries, cs: seq<Constraint>)
    requires CL.Keyed(e)
    ensures Constrain(CL.Flat(e), cs) ==
            match TakeAll(e, cs) case None => None case Some(e') => Some(CL.Flat(e'))
    decreases |cs|
  {
    if |cs| == 0 {
      CompositeSucceeds(CL.Flat(e).entries, [], CL.Flat(e).entries);
    } else {
      assert [cs[0]] + cs[1..] == cs;
      ConstrainConcat(CL.Flat(e), [cs[0]], cs[1..]);
      FlatTakesOne(e, cs[0]);
      if TakeOne(e, cs[0]).Some? {
        FlatTakesAll(TakeOne(e, cs[0]).value, cs[1..]);
      }
    }
  }

  /** Constraint and request are about the same kind of resource. */
  predicate Concerns(c: Constraint, r: Request) {
    match r
    case FileAccess(_, _, _, _) => c.FilePath? || c.FileOperation?
    case MemoryAccess(_, _, _, _) => c.MemoryRange?
    case CallAccess(_, _) => c.CallConstraint?
    case _ => false
  }

  lemma EntryKeeps(l: LeafCapability.Leaf, c: Constraint, r: Request)
    requires TameLeaf(l) && Asks(r) && PlainPaths([c]) && ConstrainOne(l, c).Some?
    ensures TameLeaf(ConstrainOne(l, c).value)
    ensures LeafPermits(ConstrainOne(l, c).value, r) <==> LeafPermits(l, r) && Within(c, r)
  {
    OneKept(l, c, r);
    ConstrainOneNarrows(l, c, r);
  }

  lemma TakeOneTame(e: CL.Entries, c: Constraint)
    requires TakeOne(e, c).Some? && PlainPaths([c]) && forall k :: k in e ==> TameLeaf(e[k])
    ensures forall k :: k in TakeOne(e, c).value ==> TameLeaf(TakeOne(e, c).value[k])
  {
    forall k | k in e && ConstrainOne(e[k], c).Some?
      ensures TameLeaf(ConstrainOne(e[k], c).value)
    {
      ConstrainOneNarrows(e[k], c, CustomAccess("", ""));
    }
  }

  /** One constraint leaves a composite of leaves every request of another kind, and of its kind those within it. */
  lemma FlatKeepsOne(e: CL.Entries, c: Constraint, r: Request)
    requires CL.Keyed(e) && TakeOne(e, c).Some? && Asks(r) && PlainPaths([c])
    requires forall k :: k in e ==> TameLeaf(e[k])
    ensures Permits(CL.Flat(TakeOne(e, c).value), r) <==>
            Permits(CL.Flat(e), r) && (Concerns(c, r) ==> Within(c, r))
  {
    var k := LookupKey(r);
    CL.FlatPermits(e, r);
    CL.FlatPermits(TakeOne(e, c).value, r);
    if Concerns(c, r) {
      ConcernedEntry(e, c, r);
      EntryKeeps(e[k], c, r);
    } else if k in e {
      UnconcernedEntry(e[k], c, r);
    }
  }

  lemma UnconcernedEntry(l: LeafCapability.Leaf, c: Constraint, r: Request)
    requires !Concerns(c, r)
    ensures var l' := if ConstrainOne(l, c).Some? then ConstrainOne(l, c).value else l;
            LeafPermits(l', r) <==> LeafPermits(l, r)
  {
  }

  /** If some entry takes the constraint and the request is of its kind, it is the entry that is asked. */
  lemma ConcernedEntry(e: CL.Entries, c: Constraint, r: Request)
    requires CL.Keyed(e) && TakeOne(e, c).Some? && Concerns(c, r)
    ensures LookupKey(r) in e && ConstrainOne(e[LookupKey(r)], c).Some?
  {
    var k :| k in e && ConstrainOne(e[k], c).Some?;
    TakesOwnType(e[k], c);
  }

  /** The request is within each constraint on its kind of resource. */
  predicate WithinConcerned(cs: seq<Constraint>, r: Request) {
    forall i :: 0 <= i < |cs| && Concerns(cs[i], r) ==> Within(cs[i], r)
  }

  lemma ConcernedSplits(cs: seq<Constraint>, r: Request)
    requires |cs| > 0
    ensures WithinConcerned(cs, r) <==> (Concerns(cs[0], r) ==> Within(cs[0], r)) && WithinConcerned(cs[1..], r)
  {
    assert cs == [cs[0]] + cs[1..];
  }

  /**
   * What constraining leaves of a composite of leaves: the requests that it permitted and that are within
   * each constraint on their kind of resource.
   */
  lemma {:induction false} FlatKeeps(e: CL.Entries, cs: seq<Constraint>, r: Request)
    requires CL.Keyed(e) && PlainPaths(cs) && Asks(r) && Constrain(CL.Flat(e), cs).Some?
    requires forall k :: k in e ==> TameLeaf(e[k])
    ensures Permits(Constrain(CL.Flat(e), cs).value, r) <==>
            Permits(CL.Flat(e), r) && WithinConcerned(cs, r)
    decreases |cs|
  {
    FlatTakesAll(e, cs);
    if |cs| > 0 {
      assert [cs[0]][0] == cs[0];
      FlatTakesOne(e, cs[0]);
      FlatKeepsOne(e, cs[0], r);
      TakeOneTame(e, cs[0]);
      var e' := TakeOne(e, cs[0]).value;
      FlatTakesAll(e', cs[1..]);
      FlatKeeps(e', cs[1..], r);
      ConcernedSplits(cs, r);
    }
  }

  // ----- constraints that no leaf knows

  /** Constraints on networks and messages, and custom ones: no file, memory or plugin-call leaf takes them. */
  predicate Unknown(c: Constraint) {
    !c.FilePath? && !c.FileOperation? && !c.MemoryRange? && !c.CallConstraint?
  }

  lemma {:induction false} LeafRejects(l: LeafCapability.Leaf, cs: seq<Constraint>, i: nat)
    requires i < |cs| && Unknown(cs[i])
    ensures ConstrainLeaf(l, cs).None?
    decreases |cs|
  {
    if i > 0 && ConstrainOne(l, cs[0]).Some? {
      LeafRejects(ConstrainOne(l, cs[0]).value, cs[1..], i - 1);
    }
  }

  lemma {:induction false} Grouped(cs: seq<Constraint>, i: nat) returns (j: nat)
    requires i < |cs|
    ensures var group := Group(cs, ConstraintType(cs[i])); j < |group| && group[j] == cs[i]
  {
    if i == 0 {
      j := 0;
    } else {
      j := Grouped(cs[1..], i - 1);
      if ConstraintType(cs[0]) == ConstraintType(cs[i]) {
        j := j + 1;
      }
    }
  }

  /** A list with such a constraint fails on every tree, whatever its shape. */
  lemma {:induction false} UnknownFails(c: Cap, cs: seq<Constraint>, i: nat)
    requires i < |cs| && Unknown(cs[i])
    ensures Constrain(c, cs).None?
    decreases c, 1
  {
    match c
    case Leaf(l) => LeafRejects(l, cs, i);
    case Filter(inner, _) => UnknownFails(inner, cs, i);
    case Proxy(inner, _) => UnknownFails(inner, cs, i);
    case Combine(parts, strategy) => UnknownPartsFail(parts, strategy, cs, i);
    case Composite(entries) =>
      var k := ConstraintType(cs[i]);
      var j := Grouped(cs, i);
      if k in entries {
        UnknownFails(entries[k], Group(cs, k), j);
      }
      CompositeFails(entries, cs, k);
  }

  lemma {:induction false} UnknownPartsFail(parts: seq<Cap>, strategy: Strategy, cs: seq<Constraint>, i: nat)
    requires i < |cs| && Unknown(cs[i])
    ensures var ps := ConstrainParts(parts, strategy, cs); ps.None? || ps.value == []
    decreases parts, 0
  {
    if |parts| > 0 {
      UnknownFails(parts[0], cs, i);
      UnknownPartsFail(parts[1..], strategy, cs, i);
    }
  }
}

/** Constraining and splitting trees of capabilities never adds a permission. */
module Attenuation {
  import opened Wrappers
  import opened Requests
  import opened LeafCapability
  import opened CapabilityTree

  /** Every memory leaf is tame. */
  ghost predicate Tame(c: Cap)
    decreases c
  {
    match c
    case Leaf(l) => TameLeaf(l)
    case Filter(inner, _) => Tame(inner)
    case Proxy(inner, _) => Tame(inner)
    case Combine(parts, _) => forall i :: 0 <= i < |parts| ==> Tame(parts[i])
    case Composite(entries) => forall k :: k in entries ==> Tame(entries[k])
  }

  lemma GroupPlain(cs: seq<Constraint>, kind: string)
    requires PlainPaths(cs)
    ensures PlainPaths(Group(cs, kind))
  {
  }

  /** Constraining keeps the type of a capability, whatever the capability and the constraints. */
  lemma {:induction false} ConstrainKeepsType(c: Cap, cs: seq<Constraint>)
    requires Constrain(c, cs).Some?
    ensures CapType(Constrain(c, cs).value) == CapType(c)
    decreases c
  {
    match c
    case Leaf(l) => ConstrainLeafType(l, cs);
    case Filter(inner, _) => ConstrainKeepsType(inner, cs);
    case Proxy(inner, _) => ConstrainKeepsType(inner, cs);
    case Combine(_, _) =>
    case Composite(_) =>
  }

  /** Plain constraints keep it tame. */
  lemma {:induction false} ConstrainKeepsTame(c: Cap, cs: seq<Constraint>)
    requires Tame(c) && PlainPaths(cs) && Constrain(c, cs).Some?
    ensures Tame(Constrain(c, cs).value)
    decreases c, 1
  {
    match c
    case Leaf(l) => ConstrainLeafNarrows(l, cs, CustomAccess("", ""));
    case Filter(inner, _) => ConstrainKeepsTame(inner, cs);
    case Proxy(inner, _) => ConstrainKeepsTame(inner, cs);
    case Combine(parts, strategy) => ConstrainPartsTame(parts, strategy, cs);
    case Composite(entries) =>
      forall k | k in entries
        ensures Tame(Constrain(c, cs).value.entries[k])
      {
        if Group(cs, k) != [] {
          GroupPlain(cs, k);
          ConstrainKeepsTame(entries[k], Group(cs, k));
        }
      }
  }

  lemma {:induction false} ConstrainPartsTame(parts: seq<Cap>, strategy: Strategy, cs: seq<Constraint>)
    requires forall i :: 0 <= i < |parts| ==> Tame(parts[i])
    requires PlainPaths(cs) && ConstrainParts(parts, strategy, cs).Some?
    ensures var ps := ConstrainParts(parts, strategy, cs).value; forall i :: 0 <= i < |ps| ==> Tame(ps[i])
    decreases parts, 0
  {
    if |parts| > 0 {
      if Constrain(parts[0], cs).Some? {
        ConstrainKeepsTame(parts[0], cs);
      }
      ConstrainPartsTame(parts[1..], strategy, cs);
    }
  }

  /** Whatever a constrained tree permits, the original permits. */
  lemma {:induction false} ConstrainNarrows(c: Cap, cs: seq<Constraint>, r: Request)
    requires Tame(c) && PlainPaths(cs) && Constrain(c, cs).Some?
    ensures Permits(Constrain(c, cs).value, r) ==> Permits(c, r)
    decreases c, 1
  {
    match c
    case Leaf(l) => ConstrainLeafNarrows(l, cs, r);
    case Filter(inner, _) => ConstrainNarrows(inner, cs, r);
    case Proxy(inner, transform) => ConstrainNarrows(inner, cs, transform(r));
    case Combine(parts, strategy) => ConstrainPartsNarrows(parts, strategy, cs, r);
    case Composite(entries) =>
      var k := LookupKey(r);
      if k in entries && Group(cs, k) != [] {
        GroupPlain(cs, k);
        ConstrainNarrows(entries[k], Group(cs, k), r);
      }
  }

  lemma {:induction false} ConstrainPartsNarrows(parts: seq<Cap>, strategy: Strategy, cs: seq<Constraint>, r: Request)
    requires forall i :: 0 <= i < |parts| ==> Tame(parts[i])
    requires PlainPaths(cs) && ConstrainParts(parts, strategy, cs).Some?
    ensures var ps := ConstrainParts(parts, strategy, cs).value;
            && (AnyPermits(ps, r) ==> AnyPermits(parts, r))
            && (strategy.All? ==> forall kind :: (HasType(ps, kind) <==> HasType(parts, kind)))
            && (strategy.All? ==> forall kind :: AllOfTypePermit(ps, kind, r) ==> AllOfTypePermit(parts, kind, r))
    decreases parts, 0
  {
    if |parts| > 0 {
      ConstrainPartsNarrows(parts[1..], strategy, cs, r);
      if Constrain(parts[0], cs).Some? {
        ConstrainNarrows(parts[0], cs, r);
        ConstrainKeepsType(parts[0], cs);
        var ps := ConstrainParts(parts, strategy, cs).value;
        assert ps[1..] == ConstrainParts(parts[1..], strategy, cs).value;
      }
    }
  }

  // ----- instalments

  ghost function Then(c: Option<Cap>, cs: seq<Constraint>): Option<Cap> {
    match c case None => None case Some(x) => Constrain(x, cs)
  }

  ghost function ThenParts(ps: Option<seq<Cap>>, strategy: Strategy, cs: seq<Constraint>): Option<seq<Cap>> {
    match ps case None => None case Some(xs) => ConstrainParts(xs, strategy, cs)
  }

  /**
   * Constraining with a concatenation is constraining with the first part and then the second:
   * the same tree, or both fail, whatever the shape of the tree.
   */
  lemma {:induction false} ConstrainConcat(c: Cap, a: seq<Constraint>, b: seq<Constraint>)
    ensures Constrain(c, a + b) == Then(Constrain(c, a), b)
    decreases c, 1
  {
    match c
    case Leaf(l) => ConstrainLeafConcat(l, a, b);
    case Filter(inner, _) => ConstrainConcat(inner, a, b);
    case Proxy(inner, _) => ConstrainConcat(inner, a, b);
    case Combine(parts, strategy) => ConstrainPartsConcat(parts, strategy, a, b);
    case Composite(entries) => ConstrainCompositeConcat(c, entries, a, b);
  }

  lemma {:induction false} ConstrainPartsConcat(parts: seq<Cap>, strategy: Strategy,
                                                a: seq<Constraint>, b: seq<Constraint>)
    ensures ConstrainParts(parts, strategy, a + b) == ThenParts(ConstrainParts(parts, strategy, a), strategy, b)
    decreases parts, 0
  {
    if |parts| > 0 {
      ConstrainConcat(parts[0], a, b);
      ConstrainPartsConcat(parts[1..], strategy, a, b);
      var ps := ConstrainParts(parts, strategy, a);
      if Constrain(parts[0], a).Some? && ps.Some? {
        assert ps.value[1..] == ConstrainParts(parts[1..], strategy, a).value;
      }
    }
  }

  /** What constraining a composite does to one of its entries. */
  ghost function ConstrainEntry(entry: Cap, group: seq<Constraint>): Option<Cap> {
    if group == [] then Some(entry) else Constrain(entry, group)
  }

  ghost predicate EntryFails(entries: map<string, Cap>, cs: seq<Constraint>, k: string) {
    Group(cs, k) != [] && (k in entries ==> ConstrainEntry(entries[k], Group(cs, k)).None?)
  }

  /** A composite is constrained entry by entry. */
  lemma CompositeShape(entries: map<string, Cap>, cs: seq<Constraint>)
    ensures Constrain(Composite(entries), cs).None? ==> exists k :: EntryFails(entries, cs, k)
    ensures Constrain(Composite(entries), cs).Some? ==>
              var r := Constrain(Composite(entries), cs).value;
              && r.Composite? && r.entries.Keys == entries.Keys
              && (forall k :: !EntryFails(entries, cs, k))
              && (forall k :: k in entries ==> Some(r.entries[k]) == ConstrainEntry(entries[k], Group(cs, k)))
  {
    if Constrain(Composite(entries), cs).None? {
      if i :| 0 <= i < |cs| && ConstraintType(cs[i]) !in entries {
        GroupNonEmpty(cs, ConstraintType(cs[i]));
        assert EntryFails(entries, cs, ConstraintType(cs[i]));
      } else {
        var k :| k in entries && Group(cs, k) != [] && Constrain(entries[k], Group(cs, k)).None?;
        assert EntryFails(entries, cs, k);
      }
    } else {
      forall k
        ensures !EntryFails(entries, cs, k)
      {
        if EntryFails(entries, cs, k) {
          CompositeFails(entries, cs, k);
        }
      }
    }
  }

  lemma {:induction false} EntryConcat(entry: Cap, a: seq<Constraint>, b: seq<Constraint>)
    ensures ConstrainEntry(entry, a + b) ==
            match ConstrainEntry(entry, a) case None => None case Some(e) => ConstrainEntry(e, b)
    decreases entry, 2
  {
    ConstrainConcat(entry, a, b);
    if a == [] {
      assert a + b == b;
    } else if b == [] {
      assert a + b == a;
    }
  }

  /** Regrouping by type does not disturb instalments: each entry sees its own constraints in order. */
  lemma {:induction false} ConstrainCompositeConcat(c: Cap, entries: map<string, Cap>,
                                                    a: seq<Constraint>, b: seq<Constraint>)
    requires c == Composite(entries)
    ensures Constrain(c, a + b) == Then(Constrain(c, a), b)
    decreases c, 0
  {
    forall k
      ensures EntryInstalments(entries, a, b, k)
    {
      GroupConcat(a, b, k);
      if k in entries {
        EntryConcat(entries[k], Group(a, k), Group(b, k));
      }
    }
    CompositeConcatFromEntries(entries, a, b);
  }

  ghost predicate EntryInstalments(entries: map<string, Cap>, a: seq<Constraint>, b: seq<Constraint>, k: string) {
    && Group(a + b, k) == Group(a, k) + Group(b, k)
    && (k in entries ==>
          ConstrainEntry(entries[k], Group(a + b, k)) ==
          match ConstrainEntry(entries[k], Group(a, k))
          case None => None
          case Some(e) => ConstrainEntry(e, Group(b, k)))
  }

  lemma CompositeConcatFromEntries(entries: map<string, Cap>, a: seq<Constraint>, b: seq<Constraint>)
    requires forall k :: EntryInstalments(entries, a, b, k)
    ensures Constrain(Composite(entries), a + b) == Then(Constrain(Composite(entries), a), b)
  {
    var c := Composite(entries);
    CompositeShape(entries, a);
    if Constrain(c, a).None? {
      var k :| EntryFails(entries, a, k);
      assert EntryInstalments(entries, a, b, k);
      CompositeFails(entries, a + b, k);
    } else {
      var middle := Constrain(c, a).value.entries;
      CompositeShape(middle, b);
      if Constrain(Composite(middle), b).None? {
        var k :| EntryFails(middle, b, k);
        assert EntryInstalments(entries, a, b, k) && !EntryFails(entries, a, k);
        CompositeFails(entries, a + b, k);
      } else {
        var last := Constrain(Composite(middle), b).value.entries;
        forall k | Group(a + b, k) != []
          ensures k in entries && ConstrainEntry(entries[k], Group(a + b, k)).Some?
        {
          assert EntryInstalments(entries, a, b, k) && !EntryFails(entries, a, k) && !EntryFails(middle, b, k);
        }
        forall k | k in entries
          ensures ConstrainEntry(entries[k], Group(a + b, k)) == Some(last[k])
        {
          assert EntryInstalments(entries, a, b, k) && !EntryFails(entries, a, k) && !EntryFails(middle, b, k);
        }
        CompositeSucceeds(entries, a + b, last);
      }
    }
  }
}

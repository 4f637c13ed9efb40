/** Capability trees: filters, proxies, combinations and composites over leaves. */
module CapabilityTree {
  import opened Wrappers
  import opened Requests
  import opened LeafCapability

  datatype Strategy = All | Any

  datatype Cap =
    | Leaf(leaf: LeafCapability.Leaf)
    | Filter(inner: Cap, allow: Request -> bool)
    | Proxy(inner: Cap, transform: Request -> Request)
    | Combine(parts: seq<Cap>, strategy: Strategy)
    | Composite(entries: map<string, Cap>)

  function CapType(c: Cap): string {
    match c
    case Leaf(l) => LeafType(l)
    case Filter(inner, _) => CapType(inner)
    case Proxy(inner, _) => CapType(inner)
    case Combine(_, _) => "combine"
    case Composite(_) => "composite"
  }

  // ----- permits

  predicate Permits(c: Cap, r: Request)
    decreases c, 1
  {
    match c
    case Leaf(l) => LeafPermits(l, r)
    case Filter(inner, allow) => allow(r) && Permits(inner, r)
    case Proxy(inner, transform) => Permits(inner, transform(r))
    case Combine(parts, All) => HasType(parts, RequestType(r)) && AllOfTypePermit(parts, RequestType(r), r)
    case Combine(parts, Any) => AnyPermits(parts, r)
    case Composite(entries) => LookupKey(r) in entries && Permits(entries[LookupKey(r)], r)
  }

  predicate HasType(parts: seq<Cap>, kind: string) {
    |parts| != 0 && (CapType(parts[0]) == kind || HasType(parts[1..], kind))
  }

  predicate AllOfTypePermit(parts: seq<Cap>, kind: string, r: Request)
    decreases parts, 0
  {
    |parts| != 0 ==> (CapType(parts[0]) == kind ==> Permits(parts[0], r)) && AllOfTypePermit(parts[1..], kind, r)
  }

  predicate AnyPermits(parts: seq<Cap>, r: Request)
    decreases parts, 0
  {
    |parts| != 0 && (Permits(parts[0], r) || AnyPermits(parts[1..], r))
  }

  // ----- constrain

  /** The constraints of one type, in their original order. */
  function Group(cs: seq<Constraint>, kind: string): seq<Constraint> {
    if |cs| == 0 then [] else
      (if ConstraintType(cs[0]) == kind then [cs[0]] else []) + Group(cs[1..], kind)
  }

  function Constrain(c: Cap, cs: seq<Constraint>): Option<Cap>
    decreases c, 1
  {
    match c
    case Leaf(l) => (match ConstrainLeaf(l, cs) case None => None case Some(l') => Some(Leaf(l')))
    case Filter(inner, allow) =>
      (match Constrain(inner, cs) case None => None case Some(i) => Some(Filter(i, allow)))
    case Proxy(inner, transform) =>
      (match Constrain(inner, cs) case None => None case Some(i) => Some(Proxy(i, transform)))
    case Combine(parts, strategy) =>
      (match ConstrainParts(parts, strategy, cs)
       case None => None
       case Some(ps) => if |ps| == 0 then None else Some(Combine(ps, strategy)))
    case Composite(entries) =>
      if exists i :: 0 <= i < |cs| && ConstraintType(cs[i]) !in entries then
        None
      else if exists k :: k in entries && Group(cs, k) != [] && Constrain(entries[k], Group(cs, k)).None? then
        None
      else
        Some(Composite(map k | k in entries ::
          if Group(cs, k) == [] then entries[k] else Constrain(entries[k], Group(cs, k)).value))
  }

  /** Children that cannot be constrained are dropped under `Any` and fatal under `All`. */
  function ConstrainParts(parts: seq<Cap>, strategy: Strategy, cs: seq<Constraint>): Option<seq<Cap>>
    decreases parts, 0
  {
    if |parts| == 0 then Some([]) else
      match Constrain(parts[0], cs)
      case None => if strategy.Any? then ConstrainParts(parts[1..], strategy, cs) else None
      case Some(p) =>
        match ConstrainParts(parts[1..], strategy, cs)
        case None => None
        case Some(ps) => Some([p] + ps)
  }

  // ----- split

  /** `part` is one of the capabilities `split` returns; composites and leaves return theirs in no fixed order. */
  ghost predicate IsPart(part: Cap, c: Cap)
    decreases c
  {
    match c
    case Leaf(l) => part.Leaf? && IsLeafPart(part.leaf, l)
    case Filter(inner, allow) => part.Filter? && part.allow == allow && IsPart(part.inner, inner)
    case Proxy(inner, transform) => part.Proxy? && part.transform == transform && IsPart(part.inner, inner)
    case Combine(parts, All) => part == c
    case Combine(parts, Any) => part in parts
    case Composite(entries) =>
      exists k, sub :: k in entries && IsPart(sub, entries[k]) && part == Composite(map[CapType(sub) := sub])
  }

  // ----- the loops of the wrappers

  /** `CombineCapability::permits`. */
  method ComputeCombinePermits(parts: seq<Cap>, strategy: Strategy, r: Request) returns (ok: bool)
    ensures ok == Permits(Combine(parts, strategy), r)
  {
    match strategy
    case All =>
      var kind := RequestType(r);
      var relevant := false;
      for i := 0 to |parts|
        invariant HasType(parts, kind) == (relevant || HasType(parts[i..], kind))
        invariant AllOfTypePermit(parts, kind, r) == AllOfTypePermit(parts[i..], kind, r)
      {
        assert parts[i..][0] == parts[i] && parts[i..][1..] == parts[i + 1..];
        if CapType(parts[i]) == kind {
          relevant := true;
          if !Permits(parts[i], r) {
            return false;
          }
        }
      }
      return relevant;
    case Any =>
      for i := 0 to |parts|
        invariant AnyPermits(parts, r) == AnyPermits(parts[i..], r)
      {
        assert parts[i..][0] == parts[i] && parts[i..][1..] == parts[i + 1..];
        if Permits(parts[i], r) {
          return true;
        }
      }
      return false;
  }

  /** What is left to do of `CombineCapability::constrain` after `constrained` came out of the first parts. */
  ghost predicate RestOfParts(parts: seq<Cap>, i: nat, strategy: Strategy, cs: seq<Constraint>, constrained: seq<Cap>)
    requires i <= |parts|
  {
    ConstrainParts(parts, strategy, cs) ==
    match ConstrainParts(parts[i..], strategy, cs) case None => None case Some(ps) => Some(constrained + ps)
  }

  lemma PartConstrained(parts: seq<Cap>, i: nat, strategy: Strategy, cs: seq<Constraint>, constrained: seq<Cap>)
    requires i < |parts| && RestOfParts(parts, i, strategy, cs, constrained)
    ensures match Constrain(parts[i], cs)
            case Some(p) => RestOfParts(parts, i + 1, strategy, cs, constrained + [p])
            case None => if strategy.Any? then RestOfParts(parts, i + 1, strategy, cs, constrained)
                         else ConstrainParts(parts, strategy, cs).None?
  {
    assert parts[i..][0] == parts[i] && parts[i..][1..] == parts[i + 1..];
    var rest := ConstrainParts(parts[i + 1..], strategy, cs);
    match Constrain(parts[i], cs)
    case Some(p) =>
      assert rest.Some? ==> constrained + ([p] + rest.value) == constrained + [p] + rest.value;
    case None =>
  }

  /** `CombineCapability::constrain`. */
  method ComputeCombineConstrain(parts: seq<Cap>, strategy: Strategy, cs: seq<Constraint>) returns (r: Option<Cap>)
    ensures r == Constrain(Combine(parts, strategy), cs)
  {
    var constrained: seq<Cap> := [];
    RestOfAllParts(parts, strategy, cs);
    for i := 0 to |parts|
      invariant RestOfParts(parts, i, strategy, cs, constrained)
    {
      PartConstrained(parts, i, strategy, cs, constrained);
      var p := Constrain(parts[i], cs);
      if p.Some? {
        constrained := constrained + [p.value];
      } else if strategy.All? {
        return None;
      }
    }
    assert constrained + [] == constrained;
    return if |constrained| == 0 then None else Some(Combine(constrained, strategy));
  }

  lemma RestOfAllParts(parts: seq<Cap>, strategy: Strategy, cs: seq<Constraint>)
    ensures RestOfParts(parts, 0, strategy, cs, [])
  {
    var whole := ConstrainParts(parts, strategy, cs);
    assert parts[0..] == parts;
    assert whole.Some? ==> [] + whole.value == whole.value;
  }

  lemma {:induction false} GroupSnoc(cs: seq<Constraint>, c: Constraint, kind: string)
    ensures Group(cs + [c], kind) == Group(cs, kind) + if ConstraintType(c) == kind then [c] else []
  {
    GroupConcat(cs, [c], kind);
  }

  lemma {:induction false} GroupConcat(a: seq<Constraint>, b: seq<Constraint>, kind: string)
    ensures Group(a + b, kind) == Group(a, kind) + Group(b, kind)
  {
    if |a| == 0 {
      assert a + b == b;
    } else {
      var whole := a + b;
      assert whole[0] == a[0] && whole[1..] == a[1..] + b;
      GroupConcat(a[1..], b, kind);
      var head := if ConstraintType(a[0]) == kind then [a[0]] else [];
      assert Group(whole, kind) == head + Group(a[1..] + b, kind);
      assert Group(a, kind) == head + Group(a[1..], kind);
    }
  }

  lemma {:induction false} GroupNonEmpty(cs: seq<Constraint>, kind: string)
    ensures Group(cs, kind) != [] <==> exists i :: 0 <= i < |cs| && ConstraintType(cs[i]) == kind
    ensures forall i :: 0 <= i < |Group(cs, kind)| ==> Group(cs, kind)[i] in cs
  {
    if |cs| > 0 {
      GroupNonEmpty(cs[1..], kind);
      assert cs == [cs[0]] + cs[1..];
      assert forall i :: 0 <= i < |cs[1..]| ==> cs[1..][i] == cs[i + 1];
    }
  }

  /** The grouping loop of `CompositeCapability::constrain`. */
  method ComputeGroups(cs: seq<Constraint>) returns (groups: map<string, seq<Constraint>>)
    ensures forall k :: k in groups <==> Group(cs, k) != []
    ensures forall k :: k in groups ==> groups[k] == Group(cs, k)
  {
    groups := map[];
    for i := 0 to |cs|
      invariant forall k :: k in groups <==> Group(cs[..i], k) != []
      invariant forall k :: k in groups ==> groups[k] == Group(cs[..i], k)
    {
      var kind := ConstraintType(cs[i]);
      assert cs[..i + 1] == cs[..i] + [cs[i]];
      forall k
        ensures Group(cs[..i + 1], k) == Group(cs[..i], k) + if kind == k then [cs[i]] else []
      {
        GroupSnoc(cs[..i], cs[i], k);
      }
      groups := groups[kind := (if kind in groups then groups[kind] else []) + [cs[i]]];
    }
    assert cs[..|cs|] == cs;
  }

  lemma CompositeFails(entries: map<string, Cap>, cs: seq<Constraint>, k: string)
    requires Group(cs, k) != []
    requires k in entries ==> Constrain(entries[k], Group(cs, k)).None?
    ensures Constrain(Composite(entries), cs).None?
  {
    GroupNonEmpty(cs, k);
  }

  lemma CompositeSucceeds(entries: map<string, Cap>, cs: seq<Constraint>, result: map<string, Cap>)
    requires forall k :: Group(cs, k) != [] ==> k in entries && Constrain(entries[k], Group(cs, k)).Some?
    requires result.Keys == entries.Keys
    requires forall k :: k in entries ==>
               result[k] == if Group(cs, k) == [] then entries[k] else Constrain(entries[k], Group(cs, k)).value
    ensures Constrain(Composite(entries), cs) == Some(Composite(result))
  {
    forall i | 0 <= i < |cs|
      ensures ConstraintType(cs[i]) in entries
    {
      GroupNonEmpty(cs, ConstraintType(cs[i]));
    }
    assert Constrain(Composite(entries), cs).value.entries == result;
  }

  /** `CompositeCapability::constrain`: group by type, then replace the constrained entries of a copy. */
  method ComputeCompositeConstrain(entries: map<string, Cap>, cs: seq<Constraint>) returns (r: Option<Cap>)
    ensures r == Constrain(Composite(entries), cs)
  {
    var groups := ComputeGroups(cs);
    var result := entries;
    var todo := groups.Keys;
    while todo != {}
      invariant todo <= groups.Keys && result.Keys == entries.Keys
      invariant forall k :: k in groups && k !in todo ==> k in entries && Constrain(entries[k], Group(cs, k)).Some?
      invariant forall k :: k in entries ==>
                  result[k] == if k in groups && k !in todo then Constrain(entries[k], Group(cs, k)).value
                               else entries[k]
    {
      var kind :| kind in todo;
      if kind !in entries {
        CompositeFails(entries, cs, kind);
        return None;
      }
      var constrained := Constrain(entries[kind], groups[kind]);
      if constrained.None? {
        CompositeFails(entries, cs, kind);
        return None;
      }
      result := result[kind := constrained.value];
      todo := todo - {kind};
    }
    CompositeSucceeds(entries, cs, result);
    return Some(Composite(result));
  }
}

/** Which leaves a request reaches through composites and combinations, said without type names. */
module Dispatch {
  import opened Requests
  import opened LeafCapability
  import opened CapabilityTree

  /** The leaf guards the kind of resource that the request is about. */
  predicate Guards(l: LeafCapability.Leaf, r: Request) {
    (l.File? && r.FileAccess?) || (l.Memory? && r.MemoryAccess?) || (l.PluginCall? && r.CallAccess?)
  }

  lemma OnePart(c: Cap, r: Request)
    ensures Permits(Combine([c], Any), r) <==> Permits(c, r)
    ensures Permits(Combine([c], All), r) <==> CapType(c) == RequestType(r) && Permits(c, r)
  {
    var parts := [c];
    assert parts[0] == c && parts[1..] == [];
    assert !HasType([], RequestType(r)) && AllOfTypePermit([], RequestType(r), r) && !AnyPermits([], r);
  }

  /** A leaf alone in a composite, under its own type, or alone in a combination permits what it permits by itself. */
  lemma LoneLeaf(l: LeafCapability.Leaf, r: Request)
    ensures Permits(Composite(map[LeafType(l) := Leaf(l)]), r) <==> LeafPermits(l, r)
    ensures Permits(Combine([Leaf(l)], All), r) <==> LeafPermits(l, r)
    ensures Permits(Combine([Leaf(l)], Any), r) <==> LeafPermits(l, r)
    ensures LeafPermits(l, r) ==> Guards(l, r)
  {
    OnePart(Leaf(l), r);
  }

  function Leaves(ls: seq<LeafCapability.Leaf>): (cs: seq<Cap>)
    ensures |cs| == |ls| && forall i :: 0 <= i < |ls| ==> cs[i] == Leaf(ls[i])
  {
    if |ls| == 0 then [] else [Leaf(ls[0])] + Leaves(ls[1..])
  }

  predicate SomeGuard(ls: seq<LeafCapability.Leaf>, r: Request) {
    exists i :: 0 <= i < |ls| && Guards(ls[i], r)
  }

  predicate GuardsPermit(ls: seq<LeafCapability.Leaf>, r: Request) {
    forall i :: 0 <= i < |ls| && Guards(ls[i], r) ==> LeafPermits(ls[i], r)
  }

  lemma FirstGuard(ls: seq<LeafCapability.Leaf>, r: Request)
    requires |ls| > 0
    ensures SomeGuard(ls, r) <==> Guards(ls[0], r) || SomeGuard(ls[1..], r)
    ensures GuardsPermit(ls, r) <==> (Guards(ls[0], r) ==> LeafPermits(ls[0], r)) && GuardsPermit(ls[1..], r)
  {
    assert ls == [ls[0]] + ls[1..];
    if i :| 0 <= i < |ls[1..]| && Guards(ls[1..][i], r) {
      assert Guards(ls[i + 1], r);
    }
  }

  lemma {:induction false} LeavesOfType(ls: seq<LeafCapability.Leaf>, r: Request)
    requires r.FileAccess? || r.MemoryAccess? || r.CallAccess?
    ensures HasType(Leaves(ls), RequestType(r)) <==> SomeGuard(ls, r)
    ensures AllOfTypePermit(Leaves(ls), RequestType(r), r) <==> GuardsPermit(ls, r)
  {
    if |ls| > 0 {
      LeavesOfType(ls[1..], r);
      FirstGuard(ls, r);
      assert Leaves(ls)[1..] == Leaves(ls[1..]);
      assert CapType(Leaves(ls)[0]) == RequestType(r) <==> Guards(ls[0], r);
    }
  }

  /** An `All` combination of leaves asks those that guard the requested resource, and there has to be one. */
  lemma AllOfLeaves(ls: seq<LeafCapability.Leaf>, r: Request)
    requires r.FileAccess? || r.MemoryAccess? || r.CallAccess?
    ensures Permits(Combine(Leaves(ls), All), r) <==> SomeGuard(ls, r) && GuardsPermit(ls, r)
  {
    LeavesOfType(ls, r);
  }

  /** What is left of a capability without the filters and proxies around it. */
  function Core(c: Cap): Cap {
    match c
    case Filter(inner, _) => Core(inner)
    case Proxy(inner, _) => Core(inner)
    case _ => c
  }

  /** An `All` combination never asks parts that are combinations or composites: with no others it refuses all. */
  lemma {:induction false} NestedRefused(parts: seq<Cap>, r: Request)
    requires forall i :: 0 <= i < |parts| ==> Core(parts[i]).Combine? || Core(parts[i]).Composite?
    ensures !HasType(parts, RequestType(r)) && !Permits(Combine(parts, All), r)
    decreases parts
  {
    if |parts| > 0 {
      CoreType(parts[0]);
      assert RequestType(r)[0] != 'c' || RequestType(r)[1] == 'u';
      NestedRefused(parts[1..], r);
    }
  }

  lemma {:induction false} CoreType(c: Cap)
    ensures CapType(c) == CapType(Core(c))
  {
    match c
    case Filter(inner, _) => CoreType(inner);
    case Proxy(inner, _) => CoreType(inner);
    case _ =>
  }

  /** A composite looks for one key per kind of request; the leaf behind a proxy is asked what the proxy makes of it. */
  lemma OneKey(l: LeafCapability.Leaf, key: string, t: Request -> Request, r: Request)
    ensures Permits(Composite(map[key := Proxy(Leaf(l), t)]), r) <==>
            && LeafPermits(l, t(r))
            && match r
               case FileAccess(_, _, _, _) => key == "file"
               case NetworkAccess(_, _, _, _, _) => key == "network"
               case MemoryAccess(_, _, _, _) => key == "memory"
               case CallAccess(_, _) => key == "plugin_call"
               case MessageAccess(_, _) => key == "message"
               case CustomAccess(kind, _) => key == kind
  {
    var entry := Proxy(Leaf(l), t);
    assert Permits(entry, r) <==> LeafPermits(l, t(r));
    assert Permits(Composite(map[key := entry]), r) <==> LookupKey(r) == key && Permits(entry, r);
  }

  /** Requests about other resources reach a leaf only through a proxy, and through no `All` combination. */
  lemma OnlyThroughProxy(l: LeafCapability.Leaf, t: Request -> Request, r: Request)
    requires !(r.FileAccess? || r.MemoryAccess? || r.CallAccess?)
    ensures !LeafPermits(l, r)
    ensures !Permits(Combine([Proxy(Leaf(l), t)], All), r)
    ensures Permits(Combine([Proxy(Leaf(l), t)], Any), r) <==> LeafPermits(l, t(r))
  {
    OnePart(Proxy(Leaf(l), t), r);
    assert CapType(Proxy(Leaf(l), t)) == LeafType(l);
    assert RequestType(r) in {"network", "message", "custom"};
    assert LeafType(l)[0] != RequestType(r)[0] || |LeafType(l)| != |RequestType(r)|;
  }
}

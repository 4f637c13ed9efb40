/** Partial revocation, and what later steps can do to a revoked request. */
module Revocation {
  import opened Wrappers
  import opened Requests
  import opened LeafCapability
  import opened CapabilityTree
  import opened Attenuation
  import F = FileCapability

  /** The filter closure: it rejects the one request it was built from. */
  function RevocationFilter(r: Request): Request -> bool {
    match r
    case FileAccess(path, read, write, execute) =>
      (q: Request) => !(q.FileAccess? && q.path == path && q.read == read && q.write == write && q.execute == execute)
    case _ =>
      (q: Request) => q != r
  }

  /** `apply_partial_revocation`: wrap the capability unless it refuses the request anyway. */
  function Revoke(c: Cap, r: Request): Cap {
    if Permits(c, r) then Filter(c, RevocationFilter(r)) else c
  }

  function RevokeAll(c: Cap, rs: seq<Request>): Cap
    decreases |rs|
  {
    if |rs| == 0 then c else RevokeAll(Revoke(c, rs[0]), rs[1..])
  }

  lemma RevokeExact(c: Cap, r: Request, q: Request)
    ensures Permits(Revoke(c, r), q) <==> Permits(c, q) && q != r
  {
  }

  /** After any sequence of revocations exactly the revoked requests are gone. */
  lemma {:induction false} RevokeAllExact(c: Cap, rs: seq<Request>, q: Request)
    ensures Permits(RevokeAll(c, rs), q) <==> Permits(c, q) && q !in rs
    decreases |rs|
  {
    if |rs| > 0 {
      RevokeExact(c, rs[0], q);
      RevokeAllExact(Revoke(c, rs[0]), rs[1..], q);
      assert rs == [rs[0]] + rs[1..];
    }
  }

  // ----- derived capabilities

  datatype Step =
    | RevokeStep(request: Request)
    | ConstrainStep(constraints: seq<Constraint>)
    | SplitStep

  /** `d` results from `c` by revoking, constraining or taking one part of the split. */
  ghost predicate DerivesIn(c: Cap, step: Step, d: Cap) {
    match step
    case RevokeStep(r) => d == Revoke(c, r)
    case ConstrainStep(cs) => Constrain(c, cs) == Some(d)
    case SplitStep => IsPart(d, c)
  }

  ghost predicate Derives(c: Cap, steps: seq<Step>, d: Cap)
    decreases |steps|
  {
    if |steps| == 0 then d == c else
      exists e :: DerivesIn(c, steps[0], e) && Derives(e, steps[1..], d)
  }

  /** A chain of filters at the root rejects the request. */
  ghost predicate Blocks(c: Cap, r: Request) {
    c.Filter? && (!c.allow(r) || Blocks(c.inner, r))
  }

  lemma {:induction false} BlockedStays(c: Cap, step: Step, d: Cap, r: Request)
    requires Blocks(c, r) && DerivesIn(c, step, d)
    ensures Blocks(d, r)
    decreases c
  {
    match step
    case RevokeStep(_) =>
    case ConstrainStep(cs) =>
      if c.allow(r) {
        BlockedStays(c.inner, step, d.inner, r);
      }
    case SplitStep =>
      if c.allow(r) {
        BlockedStays(c.inner, step, d.inner, r);
      }
  }

  lemma {:induction false} BlockedRefuses(c: Cap, r: Request)
    requires Blocks(c, r)
    ensures !Permits(c, r)
    decreases c
  {
    if c.allow(r) {
      BlockedRefuses(c.inner, r);
    }
  }

  /**
   * A request that was permitted when it was revoked never comes back, for any tree and any later
   * constraints, splits and revocations.
   */
  lemma {:induction false} RevokedNeverReturns(c: Cap, r: Request, steps: seq<Step>, d: Cap)
    requires Permits(c, r) && Derives(Revoke(c, r), steps, d)
    ensures !Permits(d, r)
  {
    BlockedRun(Revoke(c, r), steps, d, r);
    BlockedRefuses(d, r);
  }

  lemma {:induction false} BlockedRun(c: Cap, steps: seq<Step>, d: Cap, r: Request)
    requires Blocks(c, r) && Derives(c, steps, d)
    ensures Blocks(d, r)
    decreases |steps|
  {
    if |steps| > 0 {
      var e :| DerivesIn(c, steps[0], e) && Derives(e, steps[1..], d);
      BlockedStays(c, steps[0], e, r);
      BlockedRun(e, steps[1..], d, r);
    }
  }

  // ----- split

  /** Every part of the split of `c`, and every part of a part, has type `kind`. */
  ghost predicate PartsHaveType(c: Cap, kind: string)
    decreases c
  {
    match c
    case Leaf(l) => LeafType(l) == kind
    case Filter(inner, _) => PartsHaveType(inner, kind)
    case Proxy(inner, _) => PartsHaveType(inner, kind)
    case Combine(parts, All) => kind == "combine"
    case Combine(parts, Any) =>
      forall i :: 0 <= i < |parts| ==> CapType(parts[i]) == kind && PartsHaveType(parts[i], kind)
    case Composite(_) => kind == "composite"
  }

  /** Entries of composites split into parts that go back under the key they came from. */
  ghost predicate SplitSafe(c: Cap)
    decreases c
  {
    match c
    case Leaf(_) => true
    case Filter(inner, _) => SplitSafe(inner)
    case Proxy(inner, _) => SplitSafe(inner)
    case Combine(parts, _) => forall i :: 0 <= i < |parts| ==> SplitSafe(parts[i])
    case Composite(entries) => forall k :: k in entries ==> SplitSafe(entries[k]) && PartsHaveType(entries[k], k)
  }

  lemma {:induction false} PartType(part: Cap, c: Cap, kind: string)
    requires IsPart(part, c) && PartsHaveType(c, kind)
    ensures CapType(part) == kind
    decreases c
  {
    match c
    case Leaf(l) =>
    case Filter(inner, _) => PartType(part.inner, inner, kind);
    case Proxy(inner, _) => PartType(part.inner, inner, kind);
    case Combine(_, All) =>
    case Combine(_, Any) =>
    case Composite(_) =>
  }

  lemma {:induction false} AnyOfParts(parts: seq<Cap>, i: nat, r: Request)
    requires i < |parts| && Permits(parts[i], r)
    ensures AnyPermits(parts, r)
  {
    if i > 0 {
      AnyOfParts(parts[1..], i - 1, r);
    }
  }

  /** Each part of a split permits at most what the whole permits, and is again fit for splitting and constraining. */
  lemma {:induction false} PartNarrows(part: Cap, c: Cap, r: Request)
    requires Tame(c) && SplitSafe(c) && IsPart(part, c)
    ensures Tame(part) && SplitSafe(part)
    ensures Permits(part, r) ==> Permits(c, r)
    decreases c
  {
    match c
    case Leaf(l) => LeafPartNarrows(part.leaf, l, r);
    case Filter(inner, _) => PartNarrows(part.inner, inner, r);
    case Proxy(inner, transform) => PartNarrows(part.inner, inner, transform(r));
    case Combine(_, All) =>
    case Combine(parts, Any) =>
      var i :| 0 <= i < |parts| && parts[i] == part;
      if Permits(part, r) {
        AnyOfParts(parts, i, r);
      }
    case Composite(entries) =>
      var k, sub :| k in entries && IsPart(sub, entries[k]) && part == Composite(map[CapType(sub) := sub]);
      PartType(sub, entries[k], k);
      PartNarrows(sub, entries[k], r);
      PartTypeStable(sub, entries[k], k);
  }

  /** Parts of a part keep the type. */
  lemma {:induction false} PartTypeStable(part: Cap, c: Cap, kind: string)
    requires IsPart(part, c) && PartsHaveType(c, kind)
    ensures PartsHaveType(part, kind)
    decreases c
  {
    match c
    case Leaf(l) =>
    case Filter(inner, _) => PartTypeStable(part.inner, inner, kind);
    case Proxy(inner, _) => PartTypeStable(part.inner, inner, kind);
    case Combine(_, All) =>
    case Combine(parts, Any) =>
    case Composite(_) =>
  }

  lemma {:induction false} ConstrainKeepsParts(c: Cap, cs: seq<Constraint>, kind: string)
    requires Tame(c) && PlainPaths(cs) && Constrain(c, cs).Some? && PartsHaveType(c, kind)
    ensures PartsHaveType(Constrain(c, cs).value, kind)
    decreases c, 1
  {
    match c
    case Leaf(l) => ConstrainKeepsType(c, cs);
    case Filter(inner, _) => ConstrainKeepsParts(inner, cs, kind);
    case Proxy(inner, _) => ConstrainKeepsParts(inner, cs, kind);
    case Combine(parts, All) =>
    case Combine(parts, Any) => ConstrainAnyKeepsParts(parts, cs, kind);
    case Composite(_) =>
  }

  lemma {:induction false} ConstrainAnyKeepsParts(parts: seq<Cap>, cs: seq<Constraint>, kind: string)
    requires PlainPaths(cs) && ConstrainParts(parts, Any, cs).Some?
    requires forall i :: 0 <= i < |parts| ==>
               Tame(parts[i]) && CapType(parts[i]) == kind && PartsHaveType(parts[i], kind)
    ensures var ps := ConstrainParts(parts, Any, cs).value;
            forall i :: 0 <= i < |ps| ==> CapType(ps[i]) == kind && PartsHaveType(ps[i], kind)
    decreases parts, 0
  {
    if |parts| > 0 {
      if Constrain(parts[0], cs).Some? {
        ConstrainKeepsType(parts[0], cs);
        ConstrainKeepsParts(parts[0], cs, kind);
      }
      ConstrainAnyKeepsParts(parts[1..], cs, kind);
    }
  }

  lemma {:induction false} ConstrainKeepsSplitSafe(c: Cap, cs: seq<Constraint>)
    requires Tame(c) && PlainPaths(cs) && Constrain(c, cs).Some? && SplitSafe(c)
    ensures SplitSafe(Constrain(c, cs).value)
    decreases c, 1
  {
    match c
    case Leaf(_) =>
    case Filter(inner, _) => ConstrainKeepsSplitSafe(inner, cs);
    case Proxy(inner, _) => ConstrainKeepsSplitSafe(inner, cs);
    case Combine(parts, strategy) => ConstrainPartsSplitSafe(parts, strategy, cs);
    case Composite(entries) =>
      forall k | k in entries
        ensures SplitSafe(Constrain(c, cs).value.entries[k]) && PartsHaveType(Constrain(c, cs).value.entries[k], k)
      {
        if Group(cs, k) != [] {
          GroupPlain(cs, k);
          ConstrainKeepsSplitSafe(entries[k], Group(cs, k));
          ConstrainKeepsParts(entries[k], Group(cs, k), k);
        }
      }
  }

  lemma {:induction false} ConstrainPartsSplitSafe(parts: seq<Cap>, strategy: Strategy, cs: seq<Constraint>)
    requires forall i :: 0 <= i < |parts| ==> Tame(parts[i]) && SplitSafe(parts[i])
    requires PlainPaths(cs) && ConstrainParts(parts, strategy, cs).Some?
    ensures var ps := ConstrainParts(parts, strategy, cs).value; forall i :: 0 <= i < |ps| ==> SplitSafe(ps[i])
    decreases parts, 0
  {
    if |parts| > 0 {
      if Constrain(parts[0], cs).Some? {
        ConstrainKeepsSplitSafe(parts[0], cs);
      }
      ConstrainPartsSplitSafe(parts[1..], strategy, cs);
    }
  }

  // ----- whole runs

  ghost predicate PlainStep(step: Step) {
    step.ConstrainStep? ==> PlainPaths(step.constraints)
  }

  lemma StepNarrows(c: Cap, step: Step, d: Cap, q: Request)
    requires Tame(c) && SplitSafe(c) && PlainStep(step) && DerivesIn(c, step, d)
    ensures Tame(d) && SplitSafe(d)
    ensures Permits(d, q) ==> Permits(c, q) && step != RevokeStep(q)
  {
    match step
    case RevokeStep(r) => RevokeExact(c, r, q);
    case ConstrainStep(cs) =>
      ConstrainKeepsTame(c, cs);
      ConstrainKeepsSplitSafe(c, cs);
      ConstrainNarrows(c, cs, q);
    case SplitStep => PartNarrows(d, c, q);
  }

  /**
   * Whatever a derived capability permits, the original permitted and no step revoked, in any order
   * of revocations, constraints and splits.
   */
  lemma {:induction false} DerivedNarrows(c: Cap, steps: seq<Step>, d: Cap, q: Request)
    requires Tame(c) && SplitSafe(c) && Derives(c, steps, d)
    requires forall i :: 0 <= i < |steps| ==> PlainStep(steps[i])
    ensures Tame(d) && SplitSafe(d)
    ensures Permits(d, q) ==> Permits(c, q) && RevokeStep(q) !in steps
    decreases |steps|
  {
    if |steps| > 0 {
      var e :| DerivesIn(c, steps[0], e) && Derives(e, steps[1..], d);
      StepNarrows(c, steps[0], e, q);
      DerivedNarrows(e, steps[1..], d, q);
      assert steps == [steps[0]] + steps[1..];
    }
  }

  /**
   * Splitting a composite whose entry splits into another type widens it: the part is filed under
   * the part's own type, where the composite had no entry.
   */
  lemma SplitCanWiden()
    ensures exists c: Cap, part: Cap, r: Request ::
      Tame(c) && !SplitSafe(c) && IsPart(part, c) && Permits(part, r) && !Permits(c, r)
  {
    var ops := F.FileOps(true, false, false);
    var file := Leaf(File(F.FileCap({"a"}, ops)));
    var any := Combine([file], Any);
    var c := Composite(map["combine" := any]);
    var part := Composite(map["file" := file]);
    var r := FileAccess("a", true, false, false);
    assert IsPart(file, any);
    assert F.PathMatches("a", "a") && "a" in file.leaf.file.paths;
    assert LookupKey(r) == "file" && "file"[0] != "combine"[0];
    assert Permits(part, r);
    assert !Permits(c, r);
    assert !PartsHaveType(any, "combine") by {
      assert any.parts[0] == file;
      assert "file"[0] != "combine"[0];
    }
    assert any == c.entries["combine"] && !SplitSafe(c);
    assert Tame(any) && Tame(c);
    assert IsPart(part, c);
  }
}

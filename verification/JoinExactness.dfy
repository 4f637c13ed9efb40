/** What joins and merges of any number of capabilities permit, from both sides. */
module JoinExactness {
  import opened Requests
  import opened LeafCapability
  import opened CapabilityTree
  import opened LeafLattice
  import opened CompositeLattice
  import opened Aggregator
  import F = FileCapability
  import P = PluginCallCapability

  ghost predicate CallMaps(e: Entries) {
    Keyed(e) && forall k :: k in e && e[k].PluginCall? ==> P.Coherent(e[k].calls)
  }

  /** A call is allowed by the join of two composites exactly when it is allowed by one of them. */
  lemma JoinCalls(a: Entries, b: Entries, r: Request)
    requires CallMaps(a) && CallMaps(b) && JoinEntries(a, b).Some? && r.CallAccess?
    ensures CapabilityTree.Permits(Flat(JoinEntries(a, b).value), r) <==>
            CapabilityTree.Permits(Flat(a), r) || CapabilityTree.Permits(Flat(b), r)
  {
    var k := LookupKey(r);
    FlatPermits(a, r);
    FlatPermits(b, r);
    FlatPermits(JoinEntries(a, b).value, r);
    if k in a && k in b && r.plugin.parsed.Some? {
      P.JoinExact(a[k].calls, b[k].calls, r.plugin.parsed.value, r.func);
    }
  }

  /** A request that one composite has no entry for is permitted by the join exactly when the other permits it. */
  lemma JoinOneSided(a: Entries, b: Entries, r: Request)
    requires JoinEntries(a, b).Some?
    ensures LookupKey(r) !in b ==>
              (CapabilityTree.Permits(Flat(JoinEntries(a, b).value), r) <==> CapabilityTree.Permits(Flat(a), r))
    ensures LookupKey(r) !in a ==>
              (CapabilityTree.Permits(Flat(JoinEntries(a, b).value), r) <==> CapabilityTree.Permits(Flat(b), r))
  {
    FlatPermits(a, r);
    FlatPermits(b, r);
    FlatPermits(JoinEntries(a, b).value, r);
  }

  /** Some of the file leaves has a pattern for the path. */
  ghost predicate SomePath(parts: seq<Leaf>, path: string) {
    exists x :: x in parts && x.File? && F.PathAllowed(x.file, path)
  }

  ghost predicate SomeRight(parts: seq<Leaf>, need: F.FileOps) {
    exists x :: x in parts && x.File? && x.file.ops.Contains(need)
  }

  ghost predicate RightByRight(parts: seq<Leaf>, need: F.FileOps) {
    && (need.read ==> SomeRight(parts, F.FileOps(true, false, false)))
    && (need.write ==> SomeRight(parts, F.FileOps(false, true, false)))
    && (need.execute ==> SomeRight(parts, F.FileOps(false, false, true)))
  }

  lemma PathOfJoin(f: F.FileCap, g: F.FileCap, path: string)
    ensures F.PathAllowed(F.Join(f, g), path) <==> F.PathAllowed(f, path) || F.PathAllowed(g, path)
  {
    var j := F.Join(f, g);
    if p :| p in f.paths && F.PathMatches(p, path) {
      assert p in j.paths;
    }
    if p :| p in g.paths && F.PathMatches(p, path) {
      assert p in j.paths;
    }
  }

  lemma {:induction false} JoinFilesPaths(f: F.FileCap, rest: seq<Leaf>, path: string)
    requires forall x :: x in rest ==> x.File?
    ensures var r := JoinAll(File(f), rest);
            && r.Some? && r.value.File?
            && (F.PathAllowed(r.value.file, path) <==> F.PathAllowed(f, path) || SomePath(rest, path))
    decreases |rest|
  {
    if |rest| > 0 {
      assert rest[0] in rest;
      PathOfJoin(f, rest[0].file, path);
      JoinFilesPaths(F.Join(f, rest[0].file), rest[1..], path);
      assert forall x :: x in rest <==> x == rest[0] || x in rest[1..];
    }
  }

  lemma {:induction false} JoinFilesOps(f: F.FileCap, rest: seq<Leaf>, one: F.FileOps)
    requires (forall x :: x in rest ==> x.File?) && SingleRight(one)
    ensures var r := JoinAll(File(f), rest);
            && r.Some? && r.value.File?
            && (r.value.file.ops.Contains(one) <==> f.ops.Contains(one) || SomeRight(rest, one))
    decreases |rest|
  {
    if |rest| > 0 {
      assert rest[0] in rest;
      JoinFilesOps(F.Join(f, rest[0].file), rest[1..], one);
      assert forall x :: x in rest <==> x == rest[0] || x in rest[1..];
    }
  }

  predicate SingleRight(ops: F.FileOps) {
    ops == F.FileOps(true, false, false) || ops == F.FileOps(false, true, false) || ops == F.FileOps(false, false, true)
  }

  /**
   * The merge of file capabilities permits a request exactly when some capability has the path and each right is
   * had by some, not necessarily by the same one.
   */
  lemma MergeFilesIff(parts: seq<Leaf>, path: string, need: F.FileOps)
    requires |parts| > 0 && forall x :: x in parts ==> x.File?
    ensures Merge(parts).Some? && Merge(parts).value.File?
    ensures F.Permits(Merge(parts).value.file, path, need) <==> SomePath(parts, path) && RightByRight(parts, need)
  {
    var f, rest := parts[0].file, parts[1..];
    assert parts[0] in parts && forall i :: 0 <= i < |parts| ==> parts[i] in parts;
    MergeSucceedsIff(parts);
    JoinFilesPaths(f, rest, path);
    JoinFilesOps(f, rest, F.FileOps(true, false, false));
    JoinFilesOps(f, rest, F.FileOps(false, true, false));
    JoinFilesOps(f, rest, F.FileOps(false, false, true));
    assert forall x :: x in parts <==> x == parts[0] || x in rest;
  }
}

/** Merging capabilities of one type, and the round trip from `split` back through `merge`. */
module Aggregator {
  import opened Wrappers
  import opened MachineInt
  import opened Requests
  import opened LeafCapability
  import opened LeafLattice
  import MR = MemoryRanges
  import MC = MemoryConstrain
  import MJ = MemoryJoin
  import F = FileCapability
  import P = PluginCallCapability

  function JoinAll(first: Leaf, rest: seq<Leaf>): Option<Leaf>
    decreases |rest|
  {
    if |rest| == 0 then Some(first) else
      match JoinLeaf(first, rest[0])
      case None => None
      case Some(j) => JoinAll(j, rest[1..])
  }

  /** `merge_capabilities_by_type` */
  function Merge(caps: seq<Leaf>): Option<Leaf> {
    if |caps| == 0 then None
    else if exists i :: 0 <= i < |caps| && LeafType(caps[i]) != LeafType(caps[0]) then None
    else JoinAll(caps[0], caps[1..])
  }

  method ComputeMerge(caps: seq<Leaf>) returns (r: Option<Leaf>)
    ensures r == Merge(caps)
  {
    if |caps| == 0 {
      return None;
    }
    for i := 1 to |caps|
      invariant forall j :: 0 <= j < i ==> LeafType(caps[j]) == LeafType(caps[0])
    {
      if LeafType(caps[i]) != LeafType(caps[0]) {
        return None;
      }
    }
    var result := caps[0];
    for i := 1 to |caps|
      invariant JoinAll(result, caps[i..]) == JoinAll(caps[0], caps[1..])
    {
      assert caps[i..][0] == caps[i] && caps[i..][1..] == caps[i + 1..];
      var j := JoinLeaf(result, caps[i]);
      if j.None? {
        return None;
      }
      result := j.value;
    }
    return Some(result);
  }

  /** The merge of several leaves succeeds exactly when there is one and all have the same type. */
  lemma {:induction false} MergeSucceedsIff(caps: seq<Leaf>)
    ensures Merge(caps).Some? <==> |caps| > 0 && forall i :: 0 <= i < |caps| ==> LeafType(caps[i]) == LeafType(caps[0])
    ensures Merge(caps).Some? ==> LeafType(Merge(caps).value) == LeafType(caps[0])
  {
    if |caps| > 0 && forall i :: 0 <= i < |caps| ==> LeafType(caps[i]) == LeafType(caps[0]) {
      JoinAllSucceeds(caps[0], caps[1..]);
    }
  }

  lemma {:induction false} JoinAllSucceeds(first: Leaf, rest: seq<Leaf>)
    requires forall i :: 0 <= i < |rest| ==> LeafType(rest[i]) == LeafType(first)
    ensures JoinAll(first, rest).Some? && LeafType(JoinAll(first, rest).value) == LeafType(first)
    decreases |rest|
  {
    if |rest| > 0 {
      assert LeafType(first) == LeafType(rest[0]);
      LeafTypesTell(first, rest[0]);
      JoinAllSucceeds(JoinLeaf(first, rest[0]).value, rest[1..]);
    }
  }

  // ----- what a merge permits

  /** Every join along the merge is one that keeps the rights of both sides. */
  ghost predicate EachStepSound(first: Leaf, rest: seq<Leaf>)
    decreases |rest|
  {
    |rest| != 0 ==>
      && SoundLeaf(first) && SoundLeaf(rest[0]) && LeafType(first) == LeafType(rest[0])
      && RightsCarried(first, rest[0])
      && JoinLeaf(first, rest[0]).Some? && EachStepSound(JoinLeaf(first, rest[0]).value, rest[1..])
  }

  lemma {:induction false} JoinAllAbove(first: Leaf, rest: seq<Leaf>, r: Request)
    requires EachStepSound(first, rest)
    requires LeafPermits(first, r) || exists i :: 0 <= i < |rest| && LeafPermits(rest[i], r)
    ensures JoinAll(first, rest).Some? && LeafPermits(JoinAll(first, rest).value, r)
    decreases |rest|
  {
    if |rest| > 0 {
      LeafJoinIff(first, rest[0]);
      if !LeafPermits(first, r) && !LeafPermits(rest[0], r) {
        var i :| 0 <= i < |rest| && LeafPermits(rest[i], r);
        assert rest[1..][i - 1] == rest[i];
      }
      JoinAllAbove(JoinLeaf(first, rest[0]).value, rest[1..], r);
    }
  }

  /** File and plugin-call capabilities always merge without loss. */
  lemma {:induction false} NoMemoryIsSound(first: Leaf, rest: seq<Leaf>)
    requires !first.Memory? && SoundLeaf(first)
    requires forall i :: 0 <= i < |rest| ==> LeafType(rest[i]) == LeafType(first) && SoundLeaf(rest[i])
    ensures EachStepSound(first, rest)
    decreases |rest|
  {
    if |rest| > 0 {
      LeafTypesTell(first, rest[0]);
      if first.PluginCall? {
        P.JoinExact(first.calls, rest[0].calls, 0, "");
      }
      NoMemoryIsSound(JoinLeaf(first, rest[0]).value, rest[1..]);
    }
  }

  /** The merge permits whatever any of the merged capabilities permits, if each join on the way keeps rights. */
  lemma MergeUpperBound(caps: seq<Leaf>, i: nat, r: Request)
    requires i < |caps| && EachStepSound(caps[0], caps[1..])
    requires forall j :: 0 <= j < |caps| ==> LeafType(caps[j]) == LeafType(caps[0])
    requires LeafPermits(caps[i], r)
    ensures Merge(caps).Some? && LeafPermits(Merge(caps).value, r)
  {
    assert i > 0 ==> caps[1..][i - 1] == caps[i];
    JoinAllAbove(caps[0], caps[1..], r);
  }

  /** For two capabilities that condition is exact. */
  lemma MergePairIff(a: Leaf, b: Leaf)
    requires SoundLeaf(a) && SoundLeaf(b) && LeafType(a) == LeafType(b)
    ensures Merge([a, b]).Some?
    ensures (forall r :: LeafPermits(a, r) || LeafPermits(b, r) ==> LeafPermits(Merge([a, b]).value, r)) <==>
            RightsCarried(a, b)
  {
    LeafTypesTell(a, b);
    LeafJoinIff(a, b);
    assert [a, b][1..] == [b] && [b][1..] == [];
    assert JoinAll(a, [b]) == JoinAll(JoinLeaf(a, b).value, [b][1..]);
    assert Merge([a, b]) == JoinLeaf(a, b);
  }

  // ----- split, then merge

  /** `parts` lists the parts of the split of `l`, each once, in some order. */
  ghost predicate Lists(parts: seq<Leaf>, l: Leaf) {
    && (forall x :: x in parts <==> IsLeafPart(x, l))
    && (forall i, j :: 0 <= i < j < |parts| ==> parts[i] != parts[j])
  }

  // Files

  lemma {:induction false} JoinFileParts(paths: set<string>, ops: F.FileOps, rest: seq<Leaf>)
    requires forall x :: x in rest ==> x.File? && x.file.ops == ops
    ensures var r := JoinAll(File(F.FileCap(paths, ops)), rest);
            r.Some? && r.value.File? && r.value.file.ops == ops
            && (forall p :: p in r.value.file.paths <==> p in paths || exists x :: x in rest && p in x.file.paths)
    decreases |rest|
  {
    if |rest| > 0 {
      var g := rest[0].file;
      assert rest[0] in rest;
      assert ops.Or(ops) == ops;
      JoinFileParts(paths + g.paths, ops, rest[1..]);
      assert forall x :: x in rest <==> x == rest[0] || x in rest[1..];
    }
  }

  lemma MergeFileSplit(f: F.FileCap, parts: seq<Leaf>)
    requires Lists(parts, File(f)) && |parts| > 0
    ensures Merge(parts) == Some(File(f))
  {
    forall x | x in parts
      ensures x.File? && x.file.ops == f.ops && forall p :: p in x.file.paths ==> p in f.paths
    {
      assert IsLeafPart(x, File(f));
    }
    assert parts[0] in parts;
    JoinFileParts(parts[0].file.paths, f.ops, parts[1..]);
    MergeSucceedsIff(parts);
    var r := Merge(parts).value.file;
    assert forall x :: x in parts <==> x == parts[0] || x in parts[1..];
    forall p | p in f.paths
      ensures p in r.paths
    {
      var x := File(F.FileCap({p}, f.ops));
      assert IsLeafPart(x, File(f)) && x in parts && p in x.file.paths;
    }
    assert r.paths == f.paths;
  }

  // Memory

  /** The part of a well-formed map that has been merged so far joins with a further range by inserting it. */
  lemma JoinFurther(m: MR.RangeMap, done: MR.RangeMap, k: usize)
    requires MR.WellFormed(m) && k in m && k !in done
    requires forall j :: j in done ==> j in m && done[j] == m[j]
    ensures MJ.Join(done, MC.Single(m[k])) == done[k := m[k]]
  {
    var one := MC.Single(m[k]);
    assert one.Keys == {k};
    assert MR.Least({k}) == k && {k} - {k} == {};
    assert MJ.OverlapsWith(done, m[k]) == {};
    assert MJ.JoinFrom(MJ.JoinStep(done, one[k]), one, {k} - {k}) == MJ.JoinStep(done, one[k]);
  }

  /** `x` is the part of `m` for a range that is not in `done`. */
  ghost predicate Further(m: MR.RangeMap, done: MR.RangeMap, x: Leaf) {
    exists k :: k in m && k !in done && x == Memory(MC.Single(m[k]))
  }

  lemma FurtherStep(m: MR.RangeMap, done: MR.RangeMap, k: usize, x: Leaf)
    requires k in m && Further(m, done, x) && x != Memory(MC.Single(m[k]))
    ensures Further(m, done[k := m[k]], x)
  {
  }

  ghost predicate PieceOf(done: MR.RangeMap, m: MR.RangeMap) {
    forall j :: j in done ==> j in m && done[j] == m[j]
  }

  ghost predicate AllFurther(m: MR.RangeMap, done: MR.RangeMap, rest: seq<Leaf>) {
    && (forall x :: x in rest ==> Further(m, done, x))
    && (forall i, j :: 0 <= i < j < |rest| ==> rest[i] != rest[j])
  }

  lemma AllFurtherStep(m: MR.RangeMap, done: MR.RangeMap, rest: seq<Leaf>, k: usize)
    requires |rest| > 0 && AllFurther(m, done, rest)
    requires k in m && k !in done && rest[0] == Memory(MC.Single(m[k]))
    ensures AllFurther(m, done[k := m[k]], rest[1..])
  {
    forall x | x in rest[1..]
      ensures Further(m, done[k := m[k]], x)
    {
      FurtherStep(m, done, k, x);
    }
  }

  lemma JoinAllNext(m: MR.RangeMap, done: MR.RangeMap, rest: seq<Leaf>, k: usize)
    requires MR.WellFormed(m) && PieceOf(done, m) && |rest| > 0
    requires k in m && k !in done && rest[0] == Memory(MC.Single(m[k]))
    ensures JoinAll(Memory(done), rest) == JoinAll(Memory(done[k := m[k]]), rest[1..])
  {
    JoinFurther(m, done, k);
    assert JoinLeaf(Memory(done), rest[0]) == Some(Memory(done[k := m[k]]));
  }

  /** Joining the parts of the rest of `m` to `done` gives a piece of `m` with all their bases. */
  lemma {:induction false} JoinMemoryParts(m: MR.RangeMap, done: MR.RangeMap, rest: seq<Leaf>) returns (r: MR.RangeMap)
    requires MR.WellFormed(m) && PieceOf(done, m) && AllFurther(m, done, rest)
    ensures JoinAll(Memory(done), rest) == Some(Memory(r)) && PieceOf(r, m)
    ensures forall j :: j in done ==> j in r
    ensures forall k :: k in m && Memory(MC.Single(m[k])) in rest ==> k in r
    decreases |rest|
  {
    if |rest| == 0 {
      r := done;
    } else {
      assert rest[0] in rest && Further(m, done, rest[0]);
      var k :| k in m && k !in done && rest[0] == Memory(MC.Single(m[k]));
      JoinAllNext(m, done, rest, k);
      AllFurtherStep(m, done, rest, k);
      r := JoinMemoryParts(m, done[k := m[k]], rest[1..]);
      forall l | l in m && Memory(MC.Single(m[l])) in rest
        ensures l in r
      {
      }
    }
  }

  lemma MemoryPartsFurther(m: MR.RangeMap, parts: seq<Leaf>, first: usize, x: Leaf)
    requires Lists(parts, Memory(m)) && |parts| > 0
    requires first in m && parts[0] == Memory(MC.Single(m[first])) && x in parts[1..]
    ensures Further(m, MC.Single(m[first]), x)
  {
    assert x in parts && IsLeafPart(x, Memory(m)) && x != parts[0];
    var k :| k in m && x == Memory(MC.Single(m[k]));
    assert k != first;
  }

  lemma MemoryParts(m: MR.RangeMap, parts: seq<Leaf>)
    requires Lists(parts, Memory(m))
    ensures forall i :: 0 <= i < |parts| ==> parts[i].Memory?
    ensures forall k :: k in m ==> Memory(MC.Single(m[k])) in parts
  {
    forall i | 0 <= i < |parts|
      ensures parts[i].Memory?
    {
      assert IsLeafPart(parts[i], Memory(m));
    }
    forall k | k in m
      ensures Memory(MC.Single(m[k])) in parts
    {
      assert IsLeafPart(Memory(MC.Single(m[k])), Memory(m));
    }
  }

  lemma SameMap(r: MR.RangeMap, m: MR.RangeMap)
    requires PieceOf(r, m)
    requires forall k :: k in m ==> k in r
    ensures r == m
  {
  }

  lemma MergeMemorySplit(m: MR.RangeMap, parts: seq<Leaf>)
    requires MR.WellFormed(m) && Lists(parts, Memory(m)) && |parts| > 0
    ensures Merge(parts) == Some(Memory(m))
  {
    MemoryParts(m, parts);
    assert parts[0] in parts && IsLeafPart(parts[0], Memory(m));
    var first :| first in m && parts[0] == Memory(MC.Single(m[first]));
    MergeMemoryFrom(m, parts, first);
  }

  lemma MergeMemoryFrom(m: MR.RangeMap, parts: seq<Leaf>, first: usize)
    requires MR.WellFormed(m) && Lists(parts, Memory(m)) && |parts| > 0
    requires first in m && parts[0] == Memory(MC.Single(m[first]))
    ensures JoinAll(parts[0], parts[1..]) == Some(Memory(m))
  {
    MemoryParts(m, parts);
    forall x | x in parts[1..]
      ensures Further(m, MC.Single(m[first]), x)
    {
      MemoryPartsFurther(m, parts, first, x);
    }
    var r := JoinMemoryParts(m, MC.Single(m[first]), parts[1..]);
    forall k | k in m
      ensures k in r
    {
      if Memory(MC.Single(m[k])) == parts[0] {
        assert k in MC.Single(m[first]);
      } else {
        assert Memory(MC.Single(m[k])) in parts[1..];
      }
    }
    SameMap(r, m);
  }

  // Plugin calls

  ghost predicate SomeAllows(parts: seq<Leaf>, p: PluginId, f: string) {
    exists x :: x in parts && x.PluginCall? && P.IsCallAllowed(x.calls, p, f)
  }

  lemma {:induction false} JoinCallParts(c: P.CallCap, rest: seq<Leaf>, p: PluginId, f: string)
    requires P.Coherent(c) && forall x :: x in rest ==> x.PluginCall? && P.Coherent(x.calls)
    ensures var r := JoinAll(PluginCall(c), rest);
            && r.Some? && r.value.PluginCall?
            && (P.IsCallAllowed(r.value.calls, p, f) <==> P.IsCallAllowed(c, p, f) || SomeAllows(rest, p, f))
    decreases |rest|
  {
    if |rest| > 0 {
      assert rest[0] in rest;
      P.JoinExact(c, rest[0].calls, p, f);
      JoinCallParts(P.Join(c, rest[0].calls), rest[1..], p, f);
    }
  }

  lemma MergeCallAllows(parts: seq<Leaf>, p: PluginId, f: string)
    requires |parts| > 0 && forall x :: x in parts ==> x.PluginCall? && P.Coherent(x.calls)
    ensures var r := JoinAll(parts[0], parts[1..]);
            r.Some? && r.value.PluginCall? && (P.IsCallAllowed(r.value.calls, p, f) <==> SomeAllows(parts, p, f))
  {
    assert parts[0] in parts;
    JoinCallParts(parts[0].calls, parts[1..], p, f);
  }

  lemma MergeCallSplit(c: P.CallCap, parts: seq<Leaf>, p: PluginId, f: string)
    requires Lists(parts, PluginCall(c)) && |parts| > 0
    ensures var r := Merge(parts);
            r.Some? && r.value.PluginCall? && (P.IsCallAllowed(r.value.calls, p, f) <==> P.IsCallAllowed(c, p, f))
  {
    forall i | 0 <= i < |parts|
      ensures LeafType(parts[i]) == LeafType(parts[0])
    {
      assert parts[i] in parts && parts[0] in parts;
    }
    MergeCallAllows(parts, p, f);
  }

  /** Splitting a leaf and merging the parts, in any order, gives a leaf that permits the same requests. */
  lemma SplitThenMerge(l: Leaf, parts: seq<Leaf>, r: Request)
    requires Lists(parts, l) && |parts| > 0
    requires l.Memory? ==> MR.WellFormed(l.ranges)
    ensures Merge(parts).Some? && (LeafPermits(Merge(parts).value, r) <==> LeafPermits(l, r))
  {
    match l
    case File(f) => MergeFileSplit(f, parts);
    case Memory(m) => MergeMemorySplit(m, parts);
    case PluginCall(c) =>
      if r.CallAccess? && r.plugin.parsed.Some? {
        MergeCallSplit(c, parts, r.plugin.parsed.value, r.func);
      } else {
        MergeCallSplit(c, parts, 0, "");
      }
  }

  /** A set of capabilities grouped by type. */
  class CapabilitySet {
    var byType: map<string, seq<Leaf>>

    ghost predicate Valid()
      reads this
    {
      forall k, i :: k in byType && 0 <= i < |byType[k]| ==> LeafType(byType[k][i]) == k
    }

    constructor ()
      ensures Valid() && byType == map[]
    {
      byType := map[];
    }

    method AddCapability(l: Leaf)
      requires Valid()
      modifies this
      ensures Valid()
      ensures var before := if LeafType(l) in old(byType) then old(byType)[LeafType(l)] else [];
              byType == old(byType)[LeafType(l) := before + [l]]
    {
      var kind := LeafType(l);
      byType := byType[kind := (if kind in byType then byType[kind] else []) + [l]];
    }

    /** One capability per type, the merge of all of that type; on a valid set it cannot fail. */
    method MergeByType() returns (result: Option<CapabilitySet>)
      requires Valid()
      ensures result.Some? && fresh(result.value) && result.value.Valid()
      ensures forall k :: k in result.value.byType <==> k in byType && byType[k] != []
      ensures forall k :: k in result.value.byType ==>
                Merge(byType[k]).Some? && result.value.byType[k] == [Merge(byType[k]).value]
    {
      var merged := new CapabilitySet();
      var todo := byType.Keys;
      while todo != {}
        invariant todo <= byType.Keys && merged.Valid() && fresh(merged)
        invariant forall k :: k in merged.byType <==> k in byType && k !in todo && byType[k] != []
        invariant forall k :: k in merged.byType ==>
                    Merge(byType[k]).Some? && merged.byType[k] == [Merge(byType[k]).value]
      {
        var kind :| kind in todo;
        var caps := byType[kind];
        todo := todo - {kind};
        if |caps| == 0 {
          continue;
        }
        MergeSucceedsIff(caps);
        if |caps| == 1 {
          merged.AddCapability(caps[0]);
          continue;
        }
        var m := ComputeMerge(caps);
        if m.None? {
          return None;
        }
        merged.AddCapability(m.value);
      }
      return Some(merged);
    }
  }
}

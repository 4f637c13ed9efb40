/**
 * Merging any number of memory capabilities: a condition on the inputs alone under which the merge is
 * well formed, has exactly their bytes, and permits whatever any of them permits.
 */
module MemoryMerge {
  import opened Wrappers
  import opened MachineInt
  import opened MemoryRanges
  import opened MemoryJoin
  import opened MemoryJoinShape
  import opened MemoryJoinRights
  import opened Requests
  import opened LeafCapability
  import opened Aggregator

  ghost predicate AllWellFormed(ms: seq<RangeMap>) {
    forall i :: 0 <= i < |ms| ==> WellFormed(ms[i])
  }

  /** Range `k` of capability number `i` meets `r`. */
  predicate Meets(ms: seq<RangeMap>, i: nat, k: usize, r: Range) {
    i < |ms| && k in ms[i] && ms[i][k].Overlaps(r)
  }

  /** The range meets at most one range of the capabilities before number `j`. */
  ghost predicate MeetsOneBefore(ms: seq<RangeMap>, j: nat, r: Range) {
    forall i: nat, k, i': nat, k' ::
      i < j && i' < j && Meets(ms, i, k, r) && Meets(ms, i', k', r) ==> i == i' && k == k'
  }

  /** No range meets two ranges of earlier capabilities. */
  ghost predicate SpreadOut(ms: seq<RangeMap>) {
    forall j, q :: 0 <= j < |ms| && q in ms[j] ==> MeetsOneBefore(ms, j, ms[j][q])
  }

  /** `done` holds exactly the bytes of the first `n` capabilities, each of their ranges inside one entry. */
  ghost predicate Merged(ms: seq<RangeMap>, n: nat, done: RangeMap)
    requires n <= |ms|
  {
    && WellFormed(done)
    && (forall x :: HasByte(done, x) ==> exists i :: 0 <= i < n && HasByte(ms[i], x))
    && (forall i, k :: 0 <= i < n && k in ms[i] ==> Holds(done, k, ms[i][k].End()))
  }

  /** The earlier range that a later one meets at a byte of `done`, and the entry that holds all of it. */
  lemma RangeBehind(ms: seq<RangeMap>, n: nat, done: RangeMap, j: usize, r: Range) returns (i: nat, k: usize)
    requires AllWellFormed(ms) && n <= |ms| && Merged(ms, n, done) && r.Live()
    requires j in done && done[j].Overlaps(r)
    ensures i < n && Meets(ms, i, k, r) && j <= k && ms[i][k].End() <= done[j].End()
  {
    var x := Max(j, r.base);
    assert done[j].HasByte(x) && r.HasByte(x);
    assert HasByte(done, x);
    i :| 0 <= i < n && HasByte(ms[i], x);
    k :| k in ms[i] && ms[i][k].HasByte(x);
    var l :| l in done && l <= k && ms[i][k].End() <= done[l].End();
    UniqueOwner(done, x, j, l);
  }

  lemma NextMeetsOne(ms: seq<RangeMap>, n: nat, done: RangeMap)
    requires AllWellFormed(ms) && SpreadOut(ms) && n < |ms| && Merged(ms, n, done)
    ensures MeetsAtMostOne(done, ms[n])
  {
    forall q, j, k | Touches(done, ms[n], j, q) && Touches(done, ms[n], k, q)
      ensures j == k
    {
      var i, l := RangeBehind(ms, n, done, j, ms[n][q]);
      var i', l' := RangeBehind(ms, n, done, k, ms[n][q]);
      assert MeetsOneBefore(ms, n, ms[n][q]);
      assert ms[i][l].Live();
      UniqueOwner(done, l, j, k);
    }
  }

  lemma NextMerged(ms: seq<RangeMap>, n: nat, done: RangeMap)
    requires AllWellFormed(ms) && SpreadOut(ms) && n < |ms| && Merged(ms, n, done)
    ensures LeadsCarry(done, ms[n]) && Merged(ms, n + 1, Join(done, ms[n]))
  {
    var m := Join(done, ms[n]);
    NextMeetsOne(ms, n, done);
    JoinWellFormed(done, ms[n]);
    JoinUpperBoundIff(done, ms[n]);
    JoinHolds(done, ms[n]);
    forall x | HasByte(m, x)
      ensures exists i :: 0 <= i < n + 1 && HasByte(ms[i], x)
    {
      JoinByte(done, ms[n], x);
      if HasByte(ms[n], x) {
        assert n < n + 1;
      }
    }
    forall i, k | 0 <= i < n + 1 && k in ms[i]
      ensures Holds(m, k, ms[i][k].End())
    {
      assert ms[i][k].Live();
    }
  }

  function Leaves(ms: seq<RangeMap>): (ls: seq<Leaf>) {
    seq(|ms|, i requires 0 <= i < |ms| => Memory(ms[i]))
  }

  lemma {:induction false} SpreadSteps(ms: seq<RangeMap>, n: nat, done: RangeMap) returns (merged: RangeMap)
    requires AllWellFormed(ms) && SpreadOut(ms) && n <= |ms| && Merged(ms, n, done)
    ensures EachStepSound(Memory(done), Leaves(ms)[n..])
    ensures JoinAll(Memory(done), Leaves(ms)[n..]) == Some(Memory(merged)) && Merged(ms, |ms|, merged)
    decreases |ms| - n
  {
    if n == |ms| {
      merged := done;
    } else {
      var rest := Leaves(ms)[n..];
      assert rest[0] == Memory(ms[n]) && rest[1..] == Leaves(ms)[n + 1..];
      NextMerged(ms, n, done);
      merged := SpreadSteps(ms, n + 1, Join(done, ms[n]));
    }
  }

  /**
   * If no range meets two ranges of earlier capabilities, the merge is well formed, has exactly the
   * bytes of the merged capabilities and permits whatever any of them permits.
   */
  lemma MergeSpread(ms: seq<RangeMap>, i: nat, r: Request) returns (merged: RangeMap)
    requires AllWellFormed(ms) && SpreadOut(ms) && i < |ms|
    ensures Merge(Leaves(ms)) == Some(Memory(merged)) && WellFormed(merged)
    ensures forall x :: HasByte(merged, x) <==> exists j :: 0 <= j < |ms| && HasByte(ms[j], x)
    ensures LeafPermits(Memory(ms[i]), r) ==> LeafPermits(Memory(merged), r)
  {
    var ls := Leaves(ms);
    FirstMerged(ms);
    merged := SpreadSteps(ms, 1, ms[0]);
    assert ls[0] == Memory(ms[0]) && ls[i] == Memory(ms[i]);
    if LeafPermits(ls[i], r) {
      MergeUpperBound(ls, i, r);
    }
    forall x, j | 0 <= j < |ms| && HasByte(ms[j], x)
      ensures HasByte(merged, x)
    {
      HeldByte(ms, merged, j, x);
    }
  }

  lemma FirstMerged(ms: seq<RangeMap>)
    requires AllWellFormed(ms) && |ms| > 0
    ensures Merged(ms, 1, ms[0])
  {
  }

  lemma HeldByte(ms: seq<RangeMap>, merged: RangeMap, j: nat, x: int)
    requires Merged(ms, |ms|, merged) && j < |ms| && HasByte(ms[j], x)
    ensures HasByte(merged, x)
  {
    var k :| k in ms[j] && ms[j][k].HasByte(x);
    var l :| l in merged && l <= k && ms[j][k].End() <= merged[l].End();
    assert merged[l].HasByte(x);
  }
}

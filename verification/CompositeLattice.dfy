/** Meet and join of composites of leaves, against what they permit. */
module CompositeLattice {
  import opened Wrappers
  import opened Requests
  import opened LeafCapability
  import opened CapabilityTree
  import opened LeafLattice

  type Entries = map<string, LeafCapability.Leaf>

  /** What the constructor and `add_capability` keep: every entry sits under its own type. */
  ghost predicate Keyed(e: Entries) {
    forall k :: k in e ==> LeafType(e[k]) == k
  }

  function Flat(e: Entries): Cap {
    Composite(map k | k in e :: Leaf(e[k]))
  }

  lemma FlatPermits(e: Entries, r: Request)
    ensures CapabilityTree.Permits(Flat(e), r) <==> LookupKey(r) in e && LeafPermits(e[LookupKey(r)], r)
  {
    var k := LookupKey(r);
    if k in e {
      assert Flat(e).entries[k] == Leaf(e[k]);
    }
  }

  // ----- meet

  function MeetEntries(a: Entries, b: Entries): Entries {
    map k | k in a && k in b && MeetLeaf(a[k], b[k]).Some? :: MeetLeaf(a[k], b[k]).value
  }

  function Meet(a: Entries, b: Entries): Option<Entries> {
    if MeetEntries(a, b) == map[] then None else Some(MeetEntries(a, b))
  }

  /** The loop over the types of the receiver; an entry whose meet fails is left out. */
  method ComputeMeet(a: Entries, b: Entries) returns (r: Option<Entries>)
    requires Keyed(a) && Keyed(b)
    ensures r == Meet(a, b)
    ensures r.Some? ==> Keyed(r.value)
  {
    var result: Entries := map[];
    var todo := a.Keys;
    while todo != {}
      invariant todo <= a.Keys && Keyed(result)
      invariant forall k :: k in result <==> k in MeetEntries(a, b) && k !in todo
      invariant forall k :: k in result ==> result[k] == MeetEntries(a, b)[k]
    {
      var kind :| kind in todo;
      if kind in b {
        var met := MeetLeaf(a[kind], b[kind]);
        if met.Some? {
          assert LeafType(met.value) == kind;
          result := result[LeafType(met.value) := met.value];
        }
      }
      todo := todo - {kind};
    }
    assert result == MeetEntries(a, b);
    return if result == map[] then None else Some(result);
  }

  ghost predicate WellFormed(e: Entries) {
    Keyed(e) && forall k :: k in e ==> MemoryWellFormed(e[k])
  }

  ghost predicate MeetIsExact(a: Entries, b: Entries) {
    forall r :: Asks(r) ==>
      (CapabilityTree.Permits(Flat(a), r) && CapabilityTree.Permits(Flat(b), r) <==>
       Meet(a, b).Some? && CapabilityTree.Permits(Flat(Meet(a, b).value), r))
  }

  /** What the meet of two composites does to a request is what the meet of the two entries does. */
  lemma MeetByEntry(a: Entries, b: Entries, r: Request)
    ensures var k := LookupKey(r);
            Meet(a, b).Some? && CapabilityTree.Permits(Flat(Meet(a, b).value), r) <==>
            k in a && k in b && MeetLeaf(a[k], b[k]).Some? && LeafPermits(MeetLeaf(a[k], b[k]).value, r)
  {
    var k := LookupKey(r);
    FlatPermits(MeetEntries(a, b), r);
    if k in a && k in b && MeetLeaf(a[k], b[k]).Some? {
      assert k in MeetEntries(a, b);
    }
  }

  /** The meet of two composites permits exactly what both permit, where the file entries' paths are covered. */
  lemma MeetPermits(a: Entries, b: Entries, r: Request)
    requires WellFormed(a) && WellFormed(b) && Asks(r)
    requires forall k :: k in a && k in b ==> PathsCovered(a[k], b[k])
    ensures CapabilityTree.Permits(Flat(a), r) && CapabilityTree.Permits(Flat(b), r) <==>
            Meet(a, b).Some? && CapabilityTree.Permits(Flat(Meet(a, b).value), r)
  {
    var k := LookupKey(r);
    FlatPermits(a, r);
    FlatPermits(b, r);
    MeetByEntry(a, b, r);
    if k in a && k in b {
      MeetLeafPermits(a[k], b[k], r);
    }
  }

  /** It is exact exactly when the common patterns of the file entries cover their common paths. */
  lemma MeetExactIff(a: Entries, b: Entries, ch: char)
    requires WellFormed(a) && WellFormed(b)
    requires (forall k :: k in a ==> UnusedIn(ch, a[k])) && (forall k :: k in b ==> UnusedIn(ch, b[k]))
    ensures MeetIsExact(a, b) <==> forall k :: k in a && k in b ==> PathsCovered(a[k], b[k])
  {
    if forall k :: k in a && k in b ==> PathsCovered(a[k], b[k]) {
      forall r | Asks(r)
        ensures CapabilityTree.Permits(Flat(a), r) && CapabilityTree.Permits(Flat(b), r) <==>
                Meet(a, b).Some? && CapabilityTree.Permits(Flat(Meet(a, b).value), r)
      {
        MeetPermits(a, b, r);
      }
    } else {
      var k :| k in a && k in b && !PathsCovered(a[k], b[k]);
      assert F.Unused(ch, a[k].file.paths + b[k].file.paths);
      var r := FileMeetMisses(a[k].file, b[k].file, ch);
      LeafLookup(a[k], r);
      FlatPermits(a, r);
      FlatPermits(b, r);
      MeetByEntry(a, b, r);
    }
  }

  ghost predicate BothPermit(a: Entries, b: Entries, r: Request) {
    Asks(r) && CapabilityTree.Permits(Flat(a), r) && CapabilityTree.Permits(Flat(b), r)
  }

  /**
   * Both composites permit some request that asks for something exactly when two entries of one
   * type overlap. The meet never succeeds without that, and where entries overlap a failure is wrong.
   */
  lemma MeetFailsIff(a: Entries, b: Entries)
    requires WellFormed(a) && WellFormed(b)
    ensures (exists r :: BothPermit(a, b, r)) <==> exists k :: k in a && k in b && LeavesOverlap(a[k], b[k])
    ensures Meet(a, b).Some? ==> exists k :: k in a && k in b && LeavesOverlap(a[k], b[k])
  {
    if k :| k in a && k in b && LeavesOverlap(a[k], b[k]) {
      var r := OverlapWitness(a[k], b[k]);
      FlatPermits(a, r);
      FlatPermits(b, r);
      assert BothPermit(a, b, r);
    }
    if r :| BothPermit(a, b, r) {
      var k := LookupKey(r);
      FlatPermits(a, r);
      FlatPermits(b, r);
      OverlapFromRequest(a[k], b[k], r);
    }
    if Meet(a, b).Some? {
      var k :| k in MeetEntries(a, b);
      MeetNeedsOverlap(a[k], b[k]);
    }
  }

  // ----- join

  function JoinedEntry(a: Entries, b: Entries, k: string): Option<Leaf>
    requires k in a || k in b
  {
    if k !in b then Some(a[k]) else if k !in a then Some(b[k]) else JoinLeaf(a[k], b[k])
  }

  function JoinEntries(a: Entries, b: Entries): Option<Entries> {
    if exists k :: k in a.Keys + b.Keys && JoinedEntry(a, b, k).None? then None
    else Some(map k | k in a.Keys + b.Keys :: JoinedEntry(a, b, k).value)
  }

  lemma JoinSucceedsAs(a: Entries, b: Entries, result: Entries)
    requires result.Keys == a.Keys + b.Keys
    requires forall k :: k in result ==> JoinedEntry(a, b, k) == Some(result[k])
    ensures JoinEntries(a, b) == Some(result)
  {
    assert forall k :: k in a.Keys + b.Keys ==> k in result;
    assert JoinEntries(a, b).value == result;
  }

  /** The loop over the entries of the argument, joining or inserting into a copy of the receiver. */
  method ComputeJoin(a: Entries, b: Entries) returns (r: Option<Entries>)
    ensures r == JoinEntries(a, b)
  {
    var result := a;
    var todo := b.Keys;
    while todo != {}
      invariant todo <= b.Keys && result.Keys == a.Keys + (b.Keys - todo)
      invariant forall k :: k in result && k in todo ==> result[k] == a[k]
      invariant forall k :: k in result && k !in todo ==> JoinedEntry(a, b, k) == Some(result[k])
    {
      var kind :| kind in todo;
      if kind in a {
        var joined := JoinLeaf(a[kind], b[kind]);
        if joined.None? {
          return None;
        }
        result := result[kind := joined.value];
      } else {
        result := result[kind := b[kind]];
      }
      todo := todo - {kind};
    }
    JoinSucceedsAs(a, b, result);
    return Some(result);
  }

  ghost predicate Sound(e: Entries) {
    Keyed(e) && forall k :: k in e ==> SoundLeaf(e[k])
  }

  ghost predicate JoinIsUpperBound(a: Entries, b: Entries) {
    JoinEntries(a, b).Some? &&
    forall r :: CapabilityTree.Permits(Flat(a), r) || CapabilityTree.Permits(Flat(b), r) ==>
      CapabilityTree.Permits(Flat(JoinEntries(a, b).value), r)
  }

  lemma JoinPermits(a: Entries, b: Entries, r: Request)
    requires Sound(a) && Sound(b) && JoinEntries(a, b).Some?
    requires forall k :: k in a && k in b ==> RightsCarried(a[k], b[k])
    requires CapabilityTree.Permits(Flat(a), r) || CapabilityTree.Permits(Flat(b), r)
    ensures CapabilityTree.Permits(Flat(JoinEntries(a, b).value), r)
  {
    var k := LookupKey(r);
    FlatPermits(a, r);
    FlatPermits(b, r);
    FlatPermits(JoinEntries(a, b).value, r);
    if k in a && k in b {
      LeafJoinIff(a[k], b[k]);
    }
  }

  /** The join of two composites permits whatever either permits, exactly when their memory entries do so. */
  lemma JoinUpperBoundIff(a: Entries, b: Entries)
    requires Sound(a) && Sound(b)
    ensures JoinIsUpperBound(a, b) <==> forall k :: k in a && k in b ==> RightsCarried(a[k], b[k])
  {
    if forall k :: k in a && k in b ==> RightsCarried(a[k], b[k]) {
      forall r | CapabilityTree.Permits(Flat(a), r) || CapabilityTree.Permits(Flat(b), r)
        ensures CapabilityTree.Permits(Flat(JoinEntries(a, b).value), r)
      {
        JoinPermits(a, b, r);
      }
    } else {
      var k :| k in a && k in b && !RightsCarried(a[k], b[k]);
      LeafJoinIff(a[k], b[k]);
      LeafTypesTell(a[k], b[k]);
      var j := JoinLeaf(a[k], b[k]).value;
      var r :| (LeafPermits(a[k], r) || LeafPermits(b[k], r)) && !LeafPermits(j, r);
      if LeafPermits(a[k], r) {
        LeafLookup(a[k], r);
      } else {
        LeafLookup(b[k], r);
      }
      FlatPermits(a, r);
      FlatPermits(b, r);
      FlatPermits(JoinEntries(a, b).value, r);
    }
  }
}

/**
 * Join and meet of two leaves of any kind: when the join is an upper bound, when the meet is exact, and
 * when a failing meet means that nothing is permitted by both.
 */
module LeafLattice {
  import opened Wrappers
  import opened Requests
  import opened LeafCapability
  import MR = MemoryRanges
  import MP = MemoryPermits
  import MM = MemoryMeet
  import MJ = MemoryJoin
  import JR = MemoryJoinRights
  import F = FileCapability
  import FM = FileMeetExactness
  import P = PluginCallCapability

  /** A leaf permits only requests that a composite would pass to it. */
  lemma LeafLookup(l: Leaf, r: Request)
    requires LeafPermits(l, r)
    ensures LookupKey(r) == LeafType(l)
  {
  }

  // ----- meet

  function MeetLeaf(a: Leaf, b: Leaf): Option<Leaf> {
    match (a, b)
    case (File(f), File(g)) => (match F.Meet(f, g) case None => None case Some(h) => Some(File(h)))
    case (Memory(m), Memory(n)) => (match MM.Meet(m, n) case None => None case Some(h) => Some(Memory(h)))
    case (PluginCall(c), PluginCall(d)) => (match P.Meet(c, d) case None => None case Some(h) => Some(PluginCall(h)))
    case _ => None
  }

  ghost predicate MemoryWellFormed(l: Leaf) {
    l.Memory? ==> MR.WellFormed(l.ranges)
  }

  /** The character occurs in no path pattern of the leaf. */
  predicate UnusedIn(ch: char, l: Leaf) {
    l.File? ==> F.Unused(ch, l.file.paths)
  }

  /** The request asks for some operation, and a memory request for some byte. */
  predicate Asks(r: Request) {
    (r.FileAccess? ==> r.read || r.write || r.execute) &&
    (r.MemoryAccess? ==> r.size > 0 && (r.read || r.write))
  }

  /** The one thing that can go wrong: a file meet whose common patterns miss a common path. */
  predicate PathsCovered(a: Leaf, b: Leaf) {
    a.File? && b.File? ==> a.file.ops.And(b.file.ops).IsEmpty() || FM.CommonCovers(a.file, b.file)
  }

  ghost predicate LeafMeetIsExact(a: Leaf, b: Leaf) {
    forall r :: Asks(r) ==>
      (LeafPermits(a, r) && LeafPermits(b, r) <==> MeetLeaf(a, b).Some? && LeafPermits(MeetLeaf(a, b).value, r))
  }

  lemma MeetLeafPermits(a: Leaf, b: Leaf, r: Request)
    requires MemoryWellFormed(a) && MemoryWellFormed(b) && PathsCovered(a, b) && Asks(r)
    ensures LeafPermits(a, r) && LeafPermits(b, r) <==> MeetLeaf(a, b).Some? && LeafPermits(MeetLeaf(a, b).value, r)
  {
    match (a, b, r)
    case (File(f), File(g), FileAccess(path, read, write, execute)) =>
      FM.MeetAt(f, g, path, F.FileOps(read, write, execute));
    case (Memory(m), Memory(n), MemoryAccess(address, size, read, write)) =>
      MM.MeetPermits(m, n, address, size, MR.MemoryOps(read, write));
    case (PluginCall(c), PluginCall(d), CallAccess(plugin, func)) =>
      if plugin.parsed.Some? {
        P.MeetExact(c, d, plugin.parsed.value, func);
      }
    case _ =>
  }

  /** A request that the meet of two files misses. */
  lemma FileMeetMisses(f: F.FileCap, g: F.FileCap, ch: char) returns (r: Request)
    requires F.Unused(ch, f.paths + g.paths) && !PathsCovered(File(f), File(g))
    ensures Asks(r) && r.FileAccess? && LeafPermits(File(f), r) && LeafPermits(File(g), r)
    ensures !(MeetLeaf(File(f), File(g)).Some? && LeafPermits(MeetLeaf(File(f), File(g)).value, r))
  {
    FM.MeetExactIff(f, g, ch);
    var path, need: F.FileOps :| !need.IsEmpty() &&
      !(F.Permits(f, path, need) && F.Permits(g, path, need) <==>
        F.Meet(f, g).Some? && F.Permits(F.Meet(f, g).value, path, need));
    if F.Meet(f, g).Some? {
      F.MeetLowerBound(f, g, path, need);
    }
    r := FileAccess(path, need.read, need.write, need.execute);
    assert F.FileOps(need.read, need.write, need.execute) == need;
  }

  /** The meet of two leaves is exact exactly when, for files, the common patterns cover the common paths. */
  lemma MeetLeafIff(a: Leaf, b: Leaf, ch: char)
    requires MemoryWellFormed(a) && MemoryWellFormed(b) && UnusedIn(ch, a) && UnusedIn(ch, b)
    ensures LeafMeetIsExact(a, b) <==> PathsCovered(a, b)
  {
    if PathsCovered(a, b) {
      forall r | Asks(r)
        ensures LeafPermits(a, r) && LeafPermits(b, r) <==> MeetLeaf(a, b).Some? && LeafPermits(MeetLeaf(a, b).value, r)
      {
        MeetLeafPermits(a, b, r);
      }
    } else {
      assert F.Unused(ch, a.file.paths + b.file.paths);
      var r := FileMeetMisses(a.file, b.file, ch);
    }
  }

  /** Some request that asks for something is permitted by both leaves; for files, told from their patterns. */
  predicate LeavesOverlap(a: Leaf, b: Leaf) {
    if a.File? && b.File? then !a.file.ops.And(b.file.ops).IsEmpty() && FM.PatternsOverlap(a.file, b.file)
    else MeetLeaf(a, b).Some?
  }

  lemma OverlapWitness(a: Leaf, b: Leaf) returns (r: Request)
    requires MemoryWellFormed(a) && MemoryWellFormed(b) && LeavesOverlap(a, b)
    ensures Asks(r) && LookupKey(r) == LeafType(a) && LeafPermits(a, r) && LeafPermits(b, r)
  {
    match (a, b)
    case (File(f), File(g)) =>
      FM.MeetFailsIff(f, g);
      var path, need :| FM.BothPermit(f, g, path, need);
      r := FileAccess(path, need.read, need.write, need.execute);
      assert F.FileOps(need.read, need.write, need.execute) == need;
    case (Memory(m), Memory(n)) =>
      MM.MeetFailsIff(m, n);
      var address, size, need :| MM.PermittedByBoth(m, n, address, size, need);
      r := MemoryAccess(address, size, need.read, need.write);
      assert MR.MemoryOps(need.read, need.write) == need;
    case (PluginCall(c), PluginCall(d)) =>
      P.MeetFailsIff(c, d);
      var p, f :| P.IsCallAllowed(c, p, f) && P.IsCallAllowed(d, p, f);
      r := CallAccess(PluginText("", Some(p)), f);
  }

  lemma OverlapFromRequest(a: Leaf, b: Leaf, r: Request)
    requires MemoryWellFormed(a) && MemoryWellFormed(b)
    requires Asks(r) && LeafPermits(a, r) && LeafPermits(b, r)
    ensures LeavesOverlap(a, b)
  {
    if a.File? && b.File? {
      FM.MeetFailsIff(a.file, b.file);
      assert FM.BothPermit(a.file, b.file, r.path, F.FileOps(r.read, r.write, r.execute));
    } else {
      MeetLeafPermits(a, b, r);
    }
  }

  lemma MeetNeedsOverlap(a: Leaf, b: Leaf)
    requires MeetLeaf(a, b).Some?
    ensures LeavesOverlap(a, b)
  {
    if a.File? && b.File? {
      FM.MeetFailsIff(a.file, b.file);
    }
  }

  // ----- join

  /** `join` of two leaves; different types do not join. */
  function JoinLeaf(a: Leaf, b: Leaf): Option<Leaf> {
    match (a, b)
    case (File(f), File(g)) => Some(File(F.Join(f, g)))
    case (Memory(m), Memory(n)) => Some(Memory(MJ.Join(m, n)))
    case (PluginCall(c), PluginCall(d)) => Some(PluginCall(P.Join(c, d)))
    case _ => None
  }

  lemma LeafTypesTell(a: Leaf, b: Leaf)
    requires LeafType(a) == LeafType(b)
    ensures JoinLeaf(a, b).Some? && LeafType(JoinLeaf(a, b).value) == LeafType(a)
  {
    assert "file"[0] != "memory"[0] && "file"[0] != "plugin_call"[0] && "memory"[0] != "plugin_call"[0];
  }

  /** The leaves the join theorem covers. */
  ghost predicate SoundLeaf(l: Leaf) {
    (l.Memory? ==> MR.WellFormed(l.ranges)) && (l.PluginCall? ==> P.Coherent(l.calls))
  }

  ghost predicate LeafJoinIsUpperBound(a: Leaf, b: Leaf) {
    JoinLeaf(a, b).Some? &&
    forall r :: LeafPermits(a, r) || LeafPermits(b, r) ==> LeafPermits(JoinLeaf(a, b).value, r)
  }

  /** The one thing that can go wrong: a memory join whose leading ranges do not carry all rights. */
  ghost predicate RightsCarried(a: Leaf, b: Leaf) {
    a.Memory? && b.Memory? ==> JR.LeadsCarry(a.ranges, b.ranges)
  }

  lemma MemoryJoinMisses(m: MR.RangeMap, n: MR.RangeMap) returns (r: Request)
    requires !JR.JoinIsUpperBound(m, n)
    ensures (LeafPermits(Memory(m), r) || LeafPermits(Memory(n), r)) && !LeafPermits(Memory(MJ.Join(m, n)), r)
  {
    var address, size, need :|
      (MP.Permits(m, address, size, need) || MP.Permits(n, address, size, need))
      && !MP.Permits(MJ.Join(m, n), address, size, need);
    r := MemoryAccess(address, size, need.read, need.write);
    assert MR.MemoryOps(r.read, r.write) == need;
  }

  lemma MemoryJoinLeaf(m: MR.RangeMap, n: MR.RangeMap)
    requires MR.WellFormed(m) && MR.WellFormed(n)
    ensures LeafJoinIsUpperBound(Memory(m), Memory(n)) <==> JR.LeadsCarry(m, n)
  {
    JR.JoinUpperBoundIff(m, n);
    if JR.JoinIsUpperBound(m, n) {
      forall r | LeafPermits(Memory(m), r) || LeafPermits(Memory(n), r)
        ensures LeafPermits(Memory(MJ.Join(m, n)), r)
      {
      }
    } else {
      var r := MemoryJoinMisses(m, n);
    }
  }

  lemma LeafJoinIff(a: Leaf, b: Leaf)
    requires SoundLeaf(a) && SoundLeaf(b) && LeafType(a) == LeafType(b)
    ensures LeafJoinIsUpperBound(a, b) <==> RightsCarried(a, b)
  {
    LeafTypesTell(a, b);
    match (a, b)
    case (Memory(m), Memory(n)) => MemoryJoinLeaf(m, n);
    case (File(f), File(g)) =>
      forall r | LeafPermits(a, r) || LeafPermits(b, r)
        ensures LeafPermits(File(F.Join(f, g)), r)
      {
        F.JoinUpperBound(f, g, r.path, F.FileOps(r.read, r.write, r.execute));
      }
    case (PluginCall(c), PluginCall(d)) =>
      forall r | LeafPermits(a, r) || LeafPermits(b, r)
        ensures LeafPermits(PluginCall(P.Join(c, d)), r)
      {
        P.JoinExact(c, d, r.plugin.parsed.value, r.func);
      }
  }
}

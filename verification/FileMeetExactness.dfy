/** When the meet of two file capabilities is exact, and when it may fail. */
module FileMeetExactness {
  import opened FileCapability

  /** The meet permits exactly the requests that ask for an operation and are permitted by both operands. */
  ghost predicate MeetIsExact(a: FileCap, b: FileCap) {
    forall path, need: FileOps :: !need.IsEmpty() ==>
      (Permits(a, path, need) && Permits(b, path, need) <==> Meet(a, b).Some? && Permits(Meet(a, b).value, path, need))
  }

  /** The common patterns match every path that both patterns match. */
  predicate PairCovered(common: set<string>, p: string, q: string) {
    if IsPrefixPattern(p) && IsPrefixPattern(q) then
      && (PatternPrefix(p) <= PatternPrefix(q) ==> CoversPrefix(common, PatternPrefix(q)))
      && (PatternPrefix(q) <= PatternPrefix(p) ==> CoversPrefix(common, PatternPrefix(p)))
    else if IsPrefixPattern(p) then PathMatches(p, q) ==> Matched(common, q)
    else PathMatches(q, p) ==> Matched(common, p)
  }

  predicate CommonCovers(a: FileCap, b: FileCap) {
    forall p, q {:trigger PairCovered(a.paths * b.paths, p, q)} ::
      p in a.paths && q in b.paths ==> PairCovered(a.paths * b.paths, p, q)
  }

  lemma PairPath(common: set<string>, p: string, q: string, path: string)
    requires PairCovered(common, p, q) && PathMatches(p, path) && PathMatches(q, path)
    ensures Matched(common, path)
  {
    if IsPrefixPattern(p) && IsPrefixPattern(q) {
      var longer := if |PatternPrefix(p)| <= |PatternPrefix(q)| then q else p;
    }
  }

  /** A path that both patterns match and the common ones do not. */
  lemma MissedPath(common: set<string>, p: string, q: string, ch: char) returns (path: string)
    requires Unused(ch, common) && !PairCovered(common, p, q)
    ensures PathMatches(p, path) && PathMatches(q, path) && !Matched(common, path)
  {
    if IsPrefixPattern(p) && IsPrefixPattern(q) {
      var s := if PatternPrefix(p) <= PatternPrefix(q) && !CoversPrefix(common, PatternPrefix(q))
               then PatternPrefix(q) else PatternPrefix(p);
      path := s + [ch];
      PrefixByPath(common, s, ch);
    } else {
      path := if IsPrefixPattern(p) then q else p;
    }
  }

  lemma MeetAt(a: FileCap, b: FileCap, path: string, need: FileOps)
    requires !need.IsEmpty() && (a.ops.And(b.ops).IsEmpty() || CommonCovers(a, b))
    ensures Permits(a, path, need) && Permits(b, path, need) <==>
            Meet(a, b).Some? && Permits(Meet(a, b).value, path, need)
  {
    if Meet(a, b).Some? {
      MeetLowerBound(a, b, path, need);
    }
    if Permits(a, path, need) && Permits(b, path, need) {
      var p :| p in a.paths && PathMatches(p, path);
      var q :| q in b.paths && PathMatches(q, path);
      assert !a.ops.And(b.ops).IsEmpty();
      PairPath(a.paths * b.paths, p, q, path);
    }
  }

  /**
   * The meet is exact when no operation is shared, or wherever a pattern of one side and a pattern
   * of the other match a common path the patterns that both sides spell alike match it too.
   */
  lemma MeetExactIff(a: FileCap, b: FileCap, ch: char)
    requires Unused(ch, a.paths + b.paths)
    ensures MeetIsExact(a, b) <==> a.ops.And(b.ops).IsEmpty() || CommonCovers(a, b)
  {
    if a.ops.And(b.ops).IsEmpty() || CommonCovers(a, b) {
      forall path, need: FileOps | !need.IsEmpty()
        ensures Permits(a, path, need) && Permits(b, path, need) <==>
                Meet(a, b).Some? && Permits(Meet(a, b).value, path, need)
      {
        MeetAt(a, b, path, need);
      }
    } else {
      var p, q :| p in a.paths && q in b.paths && !PairCovered(a.paths * b.paths, p, q);
      var path := MissedPath(a.paths * b.paths, p, q, ch);
      assert Permits(a, path, a.ops.And(b.ops)) && Permits(b, path, a.ops.And(b.ops));
    }
  }

  ghost predicate BothPermit(a: FileCap, b: FileCap, path: string, need: FileOps) {
    !need.IsEmpty() && Permits(a, path, need) && Permits(b, path, need)
  }

  /** Some path matches both patterns: with nothing in common to cover it, the pair stays uncovered. */
  predicate PatternsOverlap(a: FileCap, b: FileCap) {
    exists p, q :: p in a.paths && q in b.paths && !PairCovered({}, p, q)
  }

  lemma OverlapIffPath(a: FileCap, b: FileCap)
    ensures PatternsOverlap(a, b) <==> exists path :: PathAllowed(a, path) && PathAllowed(b, path)
  {
    if PatternsOverlap(a, b) {
      var p, q :| p in a.paths && q in b.paths && !PairCovered({}, p, q);
      var path := MissedPath({}, p, q, 'x');
      assert PathAllowed(a, path) && PathAllowed(b, path);
    }
    if path :| PathAllowed(a, path) && PathAllowed(b, path) {
      var p :| p in a.paths && PathMatches(p, path);
      var q :| q in b.paths && PathMatches(q, path);
      if PairCovered({}, p, q) {
        PairPath({}, p, q, path);
      }
    }
  }

  /**
   * A meet that succeeds has something to permit. One that fails does so rightly, because nothing
   * is permitted by both, exactly when no operation is shared or no two patterns overlap.
   */
  lemma MeetFailsIff(a: FileCap, b: FileCap)
    ensures (exists path, need :: BothPermit(a, b, path, need)) <==>
            !a.ops.And(b.ops).IsEmpty() && PatternsOverlap(a, b)
    ensures Meet(a, b).Some? ==> !a.ops.And(b.ops).IsEmpty() && PatternsOverlap(a, b)
  {
    OverlapIffPath(a, b);
    if !a.ops.And(b.ops).IsEmpty() && PatternsOverlap(a, b) {
      var path :| PathAllowed(a, path) && PathAllowed(b, path);
      assert BothPermit(a, b, path, a.ops.And(b.ops));
    }
    if Meet(a, b).Some? {
      var p :| p in a.paths * b.paths;
      assert PathMatches(p, Sample(p, 'x'));
      assert PathAllowed(a, Sample(p, 'x')) && PathAllowed(b, Sample(p, 'x'));
    }
  }

  const READING := FileOps(true, false, false)

  /** Reading everything under a directory, and reading one file in it. */
  const DIRECTORY := FileCap({"/a/*"}, READING)
  const ONE_FILE := FileCap({"/a/b"}, READING)

  /** With prefix patterns the meet can miss a path that both allow: patterns are compared as texts. */
  lemma MeetMissesPrefix()
    ensures BothPermit(DIRECTORY, ONE_FILE, "/a/b", READING) && Meet(DIRECTORY, ONE_FILE).None?
  {
    assert PathMatches("/a/*", "/a/b") by {
      assert "/a/*"[2..] == "/*" && "/a/*"[..2] == "/a" && "/a/b"[..2] == "/a";
    }
    assert "/a/b"[2..] == "/b";
    assert "/a/*" in DIRECTORY.paths && "/a/b" in ONE_FILE.paths && PathMatches("/a/b", "/a/b");
    assert "/a/*"[3] != "/a/b"[3];
    assert DIRECTORY.paths * ONE_FILE.paths == {};
  }
}

/** When the join of file capabilities is exactly their union, said about their patterns. */
module FileJoinExactness {
  import opened FileCapability

  /** The join permits nothing beyond the two operands. */
  ghost predicate JoinIsUnion(a: FileCap, b: FileCap) {
    forall path, need :: Permits(Join(a, b), path, need) ==> Permits(a, path, need) || Permits(b, path, need)
  }

  /** The side with fewer operations has only patterns that the other side covers. */
  predicate Dominates(big: FileCap, small: FileCap) {
    big.ops.Contains(small.ops) && forall p :: p in small.paths ==> CoversPattern(big.paths, p)
  }

  predicate JoinGuard(a: FileCap, b: FileCap) {
    a.ops == b.ops || Dominates(a, b) || Dominates(b, a) || a.paths + b.paths == {}
  }

  /** Some path of `small` is refused by `big`, so the operations of `big` leak to it. */
  lemma LeakedPath(big: FileCap, small: FileCap, ch: char) returns (path: string)
    requires Unused(ch, big.paths) && !Dominates(big, small) && big.ops.Contains(small.ops)
    ensures PathAllowed(small, path) && !PathAllowed(big, path)
  {
    var p :| p in small.paths && !CoversPattern(big.paths, p);
    path := Sample(p, ch);
    PatternBySample(big.paths, p, ch);
  }

  lemma JoinLeaks(a: FileCap, b: FileCap, ch: char)
    requires Unused(ch, a.paths + b.paths) && !JoinGuard(a, b)
    ensures !JoinIsUnion(a, b)
  {
    assert Unused(ch, a.paths) && Unused(ch, b.paths);
    var need := a.ops.Or(b.ops);
    var path: string;
    if a.ops.Contains(b.ops) {
      path := LeakedPath(a, b, ch);
    } else if b.ops.Contains(a.ops) {
      path := LeakedPath(b, a, ch);
    } else {
      var p :| p in a.paths + b.paths;
      path := Sample(p, ch);
      assert PathAllowed(a, path) || PathAllowed(b, path);
    }
    assert Permits(Join(a, b), path, need) && !Permits(a, path, need) && !Permits(b, path, need);
  }

  /**
   * The join is exactly the union when the operations are equal, or one side has the operations of
   * both and covers the patterns of the other, or there are no patterns at all.
   */
  lemma JoinUnionIff(a: FileCap, b: FileCap, ch: char)
    requires Unused(ch, a.paths + b.paths)
    ensures JoinIsUnion(a, b) <==> JoinGuard(a, b)
  {
    if JoinGuard(a, b) {
      forall path, need | Permits(Join(a, b), path, need)
        ensures Permits(a, path, need) || Permits(b, path, need)
      {
        assert a.ops == b.ops ==> a.ops.Or(b.ops) == a.ops;
      }
    } else {
      JoinLeaks(a, b, ch);
    }
  }

  /** The operations of one side leak to the path of the other. */
  lemma JoinMixesRights()
    ensures !JoinIsUnion(FileCap({"/a"}, FileOps(true, false, false)), FileCap({"/b"}, FileOps(false, true, false)))
  {
    var a, b := FileCap({"/a"}, FileOps(true, false, false)), FileCap({"/b"}, FileOps(false, true, false));
    assert Unused('x', a.paths + b.paths);
    assert "/a" in a.paths + b.paths;
    JoinUnionIff(a, b, 'x');
  }
}

/** File capabilities: path patterns and operation bits. */
module FileCapability {
  import opened Wrappers

  datatype FileOps = FileOps(read: bool, write: bool, execute: bool) {
    predicate Contains(need: FileOps) {
      (need.read ==> read) && (need.write ==> write) && (need.execute ==> execute)
    }

    predicate IsEmpty() {
      !read && !write && !execute
    }

    function And(other: FileOps): FileOps {
      FileOps(read && other.read, write && other.write, execute && other.execute)
    }

    function Or(other: FileOps): FileOps {
      FileOps(read || other.read, write || other.write, execute || other.execute)
    }
  }

  datatype FileCap = FileCap(paths: set<string>, ops: FileOps)

  /** The pattern ends in a slash and a star. */
  predicate IsPrefixPattern(pattern: string) {
    |pattern| >= 2 && pattern[|pattern| - 2..] == "/*"
  }

  function PatternPrefix(pattern: string): string
    requires IsPrefixPattern(pattern)
  {
    pattern[..|pattern| - 2]
  }

  predicate PathMatches(pattern: string, path: string) {
    if IsPrefixPattern(pattern) then PatternPrefix(pattern) <= path else pattern == path
  }

  /** A pattern that is a prefix with a slash and a star matches what starts with the prefix, any other only itself. */
  lemma PathMatchesIff(pattern: string, path: string)
    ensures PathMatches(pattern, path) <==>
            || (exists prefix, rest :: pattern == prefix + "/*" && path == prefix + rest)
            || (pattern == path && forall prefix: string :: pattern != prefix + "/*")
  {
    if IsPrefixPattern(pattern) {
      var own := PatternPrefix(pattern);
      assert pattern == own + "/*";
      if own <= path {
        assert path == own + path[|own|..];
      }
      if prefix, rest :| pattern == prefix + "/*" && path == prefix + rest {
        assert prefix == own;
      }
    } else {
      forall prefix: string
        ensures pattern != prefix + "/*"
      {
        assert (prefix + "/*")[|prefix|..] == "/*";
      }
    }
  }

  /** The operations are ordered by containment, with their intersection and union as bounds. */
  lemma OpsLattice(a: FileOps, b: FileOps, c: FileOps)
    ensures a.Contains(b) && b.Contains(a) <==> a == b
    ensures a.And(b).Contains(c) <==> a.Contains(c) && b.Contains(c)
    ensures c.Contains(a.Or(b)) <==> c.Contains(a) && c.Contains(b)
    ensures a.IsEmpty() <==> forall o: FileOps :: o.Contains(a)
  {
    assert FileOps(false, false, false).Contains(a) <==> a.IsEmpty();
  }

  predicate PathAllowed(f: FileCap, path: string) {
    exists p :: p in f.paths && PathMatches(p, path)
  }

  predicate Permits(f: FileCap, path: string, need: FileOps) {
    PathAllowed(f, path) && f.ops.Contains(need)
  }

  function ConstrainPath(f: FileCap, path: string): Option<FileCap> {
    if PathAllowed(f, path) then Some(FileCap({path}, f.ops)) else None
  }

  function ConstrainOps(f: FileCap, ops: FileOps): Option<FileCap> {
    var both := f.ops.And(ops);
    if both.IsEmpty() then None else Some(FileCap(f.paths, both))
  }

  function Join(a: FileCap, b: FileCap): FileCap {
    FileCap(a.paths + b.paths, a.ops.Or(b.ops))
  }

  function Meet(a: FileCap, b: FileCap): Option<FileCap> {
    var both := a.ops.And(b.ops);
    if a.paths * b.paths == {} || both.IsEmpty() then None else Some(FileCap(a.paths * b.paths, both))
  }

  /** A path constraint that is not a prefix pattern never widens; an operation constraint never does. */
  lemma ConstrainNeverWidens(f: FileCap, constrainedPath: string, ops: FileOps, path: string, need: FileOps)
    ensures !IsPrefixPattern(constrainedPath) && ConstrainPath(f, constrainedPath).Some? ==>
              (Permits(ConstrainPath(f, constrainedPath).value, path, need) <==>
               path == constrainedPath && Permits(f, path, need))
    ensures ConstrainOps(f, ops).Some? ==>
              (Permits(ConstrainOps(f, ops).value, path, need) <==> Permits(f, path, need) && ops.Contains(need))
  {
    if ConstrainPath(f, constrainedPath).Some? && Permits(ConstrainPath(f, constrainedPath).value, path, need) {
      var p :| p in {constrainedPath} && PathMatches(p, path);
    }
  }

  /** The join permits whatever either operand permits. */
  lemma JoinUpperBound(a: FileCap, b: FileCap, path: string, need: FileOps)
    ensures Permits(a, path, need) || Permits(b, path, need) ==> Permits(Join(a, b), path, need)
  {
    if PathAllowed(a, path) {
      var p :| p in a.paths && PathMatches(p, path);
      assert p in Join(a, b).paths;
    }
    if PathAllowed(b, path) {
      var p :| p in b.paths && PathMatches(p, path);
      assert p in Join(a, b).paths;
    }
  }

  /** The meet permits only what both operands permit. */
  lemma MeetLowerBound(a: FileCap, b: FileCap, path: string, need: FileOps)
    requires Meet(a, b).Some?
    ensures Permits(Meet(a, b).value, path, need) ==> Permits(a, path, need) && Permits(b, path, need)
  {
    var m := Meet(a, b).value;
    if Permits(m, path, need) {
      var p :| p in m.paths && PathMatches(p, path);
      assert p in a.paths && p in b.paths;
    }
  }

  // ----- patterns

  // The exact conditions on patterns hold as long as some character occurs in none of them: a path
  // that goes on with it can only be matched by a prefix pattern.

  /** The character occurs in none of the patterns. */
  predicate Unused(ch: char, patterns: set<string>) {
    forall p :: p in patterns ==> ch !in p
  }

  predicate Matched(patterns: set<string>, path: string) {
    exists p :: p in patterns && PathMatches(p, path)
  }

  /** Some prefix pattern matches every path that starts with `prefix`. */
  predicate CoversPrefix(patterns: set<string>, prefix: string) {
    exists p :: p in patterns && IsPrefixPattern(p) && PatternPrefix(p) <= prefix
  }

  /** One pattern matches everything that `pattern` matches. */
  predicate CoversPattern(patterns: set<string>, pattern: string) {
    if IsPrefixPattern(pattern) then CoversPrefix(patterns, PatternPrefix(pattern)) else Matched(patterns, pattern)
  }

  /** A path that a pattern matches, going beyond its prefix with `ch`. */
  function Sample(pattern: string, ch: char): string {
    if IsPrefixPattern(pattern) then PatternPrefix(pattern) + [ch] else pattern
  }

  /** A path that goes on with an unused character is matched only by prefix patterns up to there. */
  lemma BeyondPrefix(p: string, prefix: string, ch: char)
    requires ch !in p && PathMatches(p, prefix + [ch])
    ensures IsPrefixPattern(p) && PatternPrefix(p) <= prefix
  {
    var path := prefix + [ch];
    assert path[|prefix|] == ch;
  }

  /** Patterns match a whole prefix exactly when they match one path that goes beyond it. */
  lemma PrefixByPath(patterns: set<string>, prefix: string, ch: char)
    requires Unused(ch, patterns)
    ensures Matched(patterns, prefix + [ch]) <==> CoversPrefix(patterns, prefix)
  {
    if Matched(patterns, prefix + [ch]) {
      var p :| p in patterns && PathMatches(p, prefix + [ch]);
      BeyondPrefix(p, prefix, ch);
    }
    if CoversPrefix(patterns, prefix) {
      var p :| p in patterns && IsPrefixPattern(p) && PatternPrefix(p) <= prefix;
      assert PathMatches(p, prefix + [ch]);
    }
  }

  lemma PatternBySample(patterns: set<string>, pattern: string, ch: char)
    requires Unused(ch, patterns)
    ensures Matched(patterns, Sample(pattern, ch)) <==> CoversPattern(patterns, pattern)
  {
    if IsPrefixPattern(pattern) {
      PrefixByPath(patterns, PatternPrefix(pattern), ch);
    }
  }

  // ----- path constraints

  ghost predicate ConstraintNarrows(f: FileCap, constrained: string)
    requires ConstrainPath(f, constrained).Some?
  {
    forall path, need :: Permits(ConstrainPath(f, constrained).value, path, need) ==> Permits(f, path, need)
  }

  /** A path constraint never widens exactly when one pattern of the capability matches all that it matches. */
  lemma PathConstraintNeverWidensIff(f: FileCap, constrained: string, ch: char)
    requires ConstrainPath(f, constrained).Some? && Unused(ch, f.paths)
    ensures ConstraintNarrows(f, constrained) <==>
            (IsPrefixPattern(constrained) ==> CoversPrefix(f.paths, PatternPrefix(constrained)))
  {
    var g := ConstrainPath(f, constrained).value;
    assert constrained in g.paths;
    if CoversPattern(f.paths, constrained) {
      forall path, need | Permits(g, path, need)
        ensures Permits(f, path, need)
      {
      }
    } else {
      PatternBySample(f.paths, constrained, ch);
      assert Permits(g, Sample(constrained, ch), f.ops) && !Permits(f, Sample(constrained, ch), f.ops);
    }
  }

  /** The prefixes "/a" and "/a/" as patterns. */
  const SHORT := "/a" + "/*"
  const LONG := "/a/" + "/*"

  /** A prefix pattern as constraint can widen: its text starts with a longer prefix than its own. */
  lemma PathConstraintWidens()
    ensures var f := FileCap({LONG}, FileOps(true, false, false));
            ConstrainPath(f, SHORT).Some? && !ConstraintNarrows(f, SHORT)
  {
    var ops := FileOps(true, false, false);
    var f := FileCap({LONG}, ops);
    assert LONG[3..] == "/*" && LONG[..3] == "/a/" && SHORT[2..] == "/*" && SHORT[..2] == "/a";
    assert "/a/" <= SHORT;
    assert LONG in f.paths && PathMatches(LONG, SHORT);
    var g := ConstrainPath(f, SHORT).value;
    assert SHORT in g.paths && PathMatches(SHORT, "/a");
    assert Permits(g, "/a", ops) && !Permits(f, "/a", ops);
  }
}

/** The coded subset relation on host rules, pinned from both sides by the hosts that the rules match. */
module HostInclusion {
  import opened Wrappers
  import opened PrefixBits
  import opened HostRule

  // ----- readers

  ghost predicate Spells(parse: Parser, ip: IpAddr) {
    exists name :: parse(name) == Some(ip)
  }

  /** Every address can be written, and no text that starts with a dot is an address. */
  ghost predicate Reader(parse: Parser) {
    && (forall ip :: Spells(parse, ip))
    && (forall name :: StartsWith(name, ".") ==> parse(name) == None)
  }

  lemma ReaderSpellsV4(parse: Parser)
    requires Reader(parse)
    ensures SpellsEveryV4(parse)
  {
    forall x: bv32
      ensures Spelled(parse, x)
    {
      assert Spells(parse, V4(x));
    }
  }

  lemma HostOf(parse: Parser, ip: IpAddr) returns (h: Host)
    requires Reader(parse)
    ensures ReadBy(parse, h) && h.ip == Some(ip)
  {
    assert Spells(parse, ip);
    var name :| parse(name) == Some(ip);
    h := Read(parse, name);
  }

  predicate IsText(a: Rule) {
    a.Domain? || a.WildcardDomain?
  }

  predicate IsAddress(a: Rule) {
    a.ExactIp? || a.IpV4Subnet? || a.IpV6Subnet?
  }

  // ----- where the relation and inclusion differ

  /** `b` matches what `a` matches, and the relation misses it. */
  predicate FallsShort(a: Rule, b: Rule) {
    match (a, b)
    case (Domain(d), WildcardDomain(s)) => d == s || (StartsWith(s, "*.") && !EndsWith(d, s))
    case (WildcardDomain(s1), WildcardDomain(s2)) => StartsWith(s2, "*.") && s1 != s2 && !EndsWith(s1, s2)
    case (IpV4Subnet(_, p1), IpV4Subnet(_, p2)) => p1 == 0 && p2 != 0
    case (IpV4Subnet(n1, p1), ExactIp(ip)) => (p1 == 0 || p1 == 32) && ip == V4(n1)
    case (IpV6Subnet(n1, p1), ExactIp(ip)) => p1 == 128 && ip == V6(n1)
    case _ => (IsText(a) && IsAddress(b)) || (IsAddress(a) && IsText(b))
  }

  /** The relation holds, and `b` misses a host that `a` matches. */
  predicate Exceeds(a: Rule, b: Rule) {
    match (a, b)
    case (Domain(d), WildcardDomain(s)) => EndsWith(d, s) && |d| > |s| && !Dotted(s) && !EndsWith(d, "." + s)
    case (WildcardDomain(s1), WildcardDomain(s2)) => EndsWith(s1, s2) && !WildcardGuard(s1, s2)
    case (IpV4Subnet(n1, p1), IpV4Subnet(n2, p2)) => p2 == 0 && p1 != 0 && p1 != 32 && n1 == n2
    case _ => false
  }

  // ----- texts

  /** What every match of a wildcard ends in, unless it is the wildcard's own text. */
  function Tail(s: string): string {
    if StartsWith(s, ".") then s else if StartsWith(s, "*.") then s[1..] else "." + s
  }

  lemma TailOfStar(s: string, name: string)
    requires StartsWith(s, "*.") && EndsWith(name, s)
    ensures EndsWith(name, s[1..])
  {
    assert EndsWith(s, s[1..]);
    EndsWithTransitive(name, s, s[1..]);
  }

  lemma WildcardMeaning(s: string, h: Host)
    ensures Matches(WildcardDomain(s), h) <==> EndsWith(h.name, Tail(s)) || (!Dotted(s) && h.name == s)
  {
    if StartsWith(s, "*.") && EndsWith(h.name, s) {
      TailOfStar(s, h.name);
    }
  }

  lemma TailStarts(s: string)
    ensures StartsWith(Tail(s), ".") && Tail(s) != [] && EndsWith(Tail(s), Tail(s))
    ensures !Dotted(s) ==> s != Tail(s) && !StartsWith(s, ".")
  {
  }

  lemma DomainInWildcard(parse: Parser, d: string, s: string)
    ensures Included(parse, Domain(d), WildcardDomain(s)) <==> EndsWith(d, Tail(s)) || (!Dotted(s) && d == s)
  {
    var h := Read(parse, d);
    WildcardMeaning(s, h);
    assert Matches(Domain(d), h);
    if EndsWith(d, Tail(s)) || (!Dotted(s) && d == s) {
      forall g | ReadBy(parse, g) && Matches(Domain(d), g)
        ensures Matches(WildcardDomain(s), g)
      {
        WildcardMeaning(s, g);
      }
    }
  }

  /** A bare wildcard and a dotted one differ in the bare text itself. */
  predicate TextsIncluded(s1: string, s2: string) {
    EndsWith(Tail(s1), Tail(s2)) && (!Dotted(s1) ==> EndsWith(s1, Tail(s2)) || (!Dotted(s2) && s1 == s2))
  }

  lemma WildcardInWildcard(parse: Parser, s1: string, s2: string)
    ensures Included(parse, WildcardDomain(s1), WildcardDomain(s2)) <==> TextsIncluded(s1, s2)
  {
    TailStarts(s1);
    TailStarts(s2);
    if TextsIncluded(s1, s2) {
      forall h | ReadBy(parse, h) && Matches(WildcardDomain(s1), h)
        ensures Matches(WildcardDomain(s2), h)
      {
        WildcardMeaning(s1, h);
        WildcardMeaning(s2, h);
        if EndsWith(h.name, Tail(s1)) {
          EndsWithTransitive(h.name, Tail(s1), Tail(s2));
        }
      }
    } else {
      var h := Read(parse, if EndsWith(Tail(s1), Tail(s2)) then s1 else Tail(s1));
      WildcardMeaning(s1, h);
      WildcardMeaning(s2, h);
      assert Matches(WildcardDomain(s1), h) && !Matches(WildcardDomain(s2), h);
    }
  }

  /** The coded comparison of two wildcards agrees with their meaning but for stars on the right and bare suffixes. */
  lemma WildcardsCompared(s1: string, s2: string)
    ensures s1 == s2 || EndsWith(s1, s2) <==>
            (TextsIncluded(s1, s2) && !FallsShort(WildcardDomain(s1), WildcardDomain(s2))) ||
            Exceeds(WildcardDomain(s1), WildcardDomain(s2))
  {
    TailStarts(s1);
    TailStarts(s2);
    if s1 != s2 {
      if EndsWith(s1, s2) && WildcardGuard(s1, s2) {
        SuffixIncluded(s1, s2);
      }
      if TextsIncluded(s1, s2) && !StartsWith(s2, "*.") {
        IncludedSuffix(s1, s2);
      }
    }
  }

  lemma SuffixIncluded(s1: string, s2: string)
    requires s1 != s2 && EndsWith(s1, s2) && WildcardGuard(s1, s2)
    ensures TextsIncluded(s1, s2)
  {
    var t := if Dotted(s2) then s2 else "." + s2;
    assert EndsWith(s1, t);
    assert EndsWith(t, Tail(s2)) by {
      if StartsWith(s2, "*.") {
        TailOfStar(s2, s2);
      }
    }
    EndsWithTransitive(s1, t, Tail(s2));
    TailEndsWith(s1, s2);
  }

  /** What ends in a tail still does without its star, and with a dot before it. */
  lemma TailEndsWith(s1: string, s2: string)
    requires EndsWith(s1, Tail(s2))
    ensures EndsWith(Tail(s1), Tail(s2))
  {
    if StartsWith(s1, "*.") {
      if |Tail(s2)| == |s1| {
        assert s1[0] == Tail(s2)[0];
        TailStarts(s2);
        assert false;
      }
      SuffixOfTail(s1, Tail(s2));
    } else if !StartsWith(s1, ".") {
      assert EndsWith("." + s1, s1);
      EndsWithTransitive("." + s1, s1, Tail(s2));
    }
  }

  lemma IncludedSuffix(s1: string, s2: string)
    requires s1 != s2 && TextsIncluded(s1, s2) && !StartsWith(s2, "*.")
    ensures EndsWith(s1, s2) && WildcardGuard(s1, s2)
  {
    assert EndsWith(s1, Tail(s2)) by {
      if Dotted(s1) {
        assert EndsWith(s1, Tail(s1));
        EndsWithTransitive(s1, Tail(s1), Tail(s2));
      }
    }
    assert EndsWith(Tail(s2), s2);
    EndsWithTransitive(s1, Tail(s2), s2);
  }

  lemma DomainCompared(d: string, s: string)
    ensures EndsWith(d, s) && |d| > |s| <==>
            ((EndsWith(d, Tail(s)) || (!Dotted(s) && d == s)) && !FallsShort(Domain(d), WildcardDomain(s))) ||
            Exceeds(Domain(d), WildcardDomain(s))
  {
    TailStarts(s);
    if StartsWith(s, "*.") && EndsWith(d, s) {
      TailOfStar(s, d);
    }
    if !Dotted(s) && EndsWith(d, "." + s) {
      assert EndsWith("." + s, s);
      EndsWithTransitive(d, "." + s, s);
    }
  }

  /** A wildcard matches more than one text, so no domain includes it. */
  lemma WildcardNotInDomain(parse: Parser, s: string, d: string)
    ensures !Included(parse, WildcardDomain(s), Domain(d))
  {
    var t := Tail(s);
    TailStarts(s);
    var h := Read(parse, if t == d then "a" + t else t);
    assert EndsWith("a" + t, t);
    WildcardMeaning(s, h);
    assert Matches(WildcardDomain(s), h) && !Matches(Domain(d), h);
  }

  lemma TextsCompared(parse: Parser, a: Rule, b: Rule)
    requires IsText(a) && IsText(b)
    ensures IsSubsetOf(a, b) <==> (Included(parse, a, b) && !FallsShort(a, b)) || Exceeds(a, b)
  {
    match (a, b)
    case (Domain(d), Domain(e)) =>
      assert Matches(a, Read(parse, d));
    case (Domain(d), WildcardDomain(s)) =>
      DomainInWildcard(parse, d, s);
      DomainCompared(d, s);
    case (WildcardDomain(s), Domain(d)) =>
      WildcardNotInDomain(parse, s, d);
    case (WildcardDomain(s1), WildcardDomain(s2)) =>
      WildcardInWildcard(parse, s1, s2);
      WildcardsCompared(s1, s2);
  }

  // ----- addresses

  /** An address lies under a rule exactly when the rule matches every host that is read as the address. */
  lemma ExactIpIff(ip: IpAddr, b: Rule)
    requires Valid(b) && (IsAddress(b) || b.Any?)
    ensures var subset := IsSubsetOf(ExactIp(ip), b); subset <==> forall h: Host :: h.ip == Some(ip) ==> Matches(b, h)
  {
    var h := Host("", Some(ip));
    assert h.ip == Some(ip);
    if b.IpV6Subnet? && ip.V6? {
      Agree6Symmetric(ip.segments, b.subnet6, b.prefix);
    }
  }

  lemma Agree6Symmetric(a: Segments, b: Segments, p: bv8)
    requires p <= 128
    ensures Agree6(a, b, p) <==> Agree6(b, a, p)
  {
  }

  /** The prefix that counts: a prefix of zero stands for whole addresses. */
  function Length4(p: bv8): bv8 {
    if p == 0 then 32 else p
  }

  lemma Agree4Length(a: bv32, b: bv32, p: bv8)
    requires p <= 32
    ensures Agree4(a, b, p) <==> Agree4(a, b, Length4(p))
  {
    if p == 0 {
      if Agree4(a, b, 0) {
        Agree4Zero(a, b);
        Agree4Self(a, 32);
      }
      if Agree4(a, b, 32) {
        Agree4Whole(a, b);
        Agree4Self(a, 0);
      }
    }
  }

  lemma Agree4Whole(a: bv32, b: bv32)
    requires Agree4(a, b, 32)
    ensures a == b
  {
  }

  lemma Agree4Passes(a: bv32, b: bv32, c: bv32, p: bv8)
    requires p <= 32 && Agree4(a, b, p)
    ensures Agree4(b, a, p) && (Agree4(b, c, p) <==> Agree4(a, c, p))
  {
  }

  /** A network lies in another exactly when its counting prefix is no shorter and they agree on the other's. */
  predicate Subnet4In(n1: bv32, p1: bv8, n2: bv32, p2: bv8)
    requires p1 <= 32 && p2 <= 32
  {
    Length4(p2) <= Length4(p1) && Agree4(n1, n2, Length4(p2))
  }

  lemma Subnet4Contains(n1: bv32, p1: bv8, n2: bv32, p2: bv8, x: bv32)
    requires p1 <= 32 && p2 <= 32 && Subnet4In(n1, p1, n2, p2) && Agree4(n1, x, p1)
    ensures Agree4(n2, x, p2)
  {
    var q1, q2 := Length4(p1), Length4(p2);
    Agree4Length(n1, x, p1);
    Agree4Shorter(n1, x, q1, q2);
    Agree4Passes(n1, n2, x, q2);
    Agree4Length(n2, x, p2);
  }

  /** Otherwise some address of the one is not in the other. */
  lemma Subnet4Escapes(n1: bv32, p1: bv8, n2: bv32, p2: bv8) returns (x: bv32)
    requires p1 <= 32 && p2 <= 32 && !Subnet4In(n1, p1, n2, p2)
    ensures Agree4(n1, x, p1) && !Agree4(n2, x, p2)
  {
    var q1, q2 := Length4(p1), Length4(p2);
    if !Agree4(n1, n2, q2) {
      x := n1;
      Agree4Self(n1, p1);
      Agree4Symmetric(n1, n2, q2);
    } else {
      x := Apart4(n1, q1, q2);
      Agree4Passes(n1, n2, x, q2);
    }
    Agree4Length(n1, x, p1);
    Agree4Length(n2, x, p2);
  }

  lemma Agree4Symmetric(a: bv32, b: bv32, p: bv8)
    requires p <= 32
    ensures Agree4(a, b, p) <==> Agree4(b, a, p)
  {
  }

  lemma Subnet4InSubnet4(parse: Parser, n1: bv32, p1: bv8, n2: bv32, p2: bv8)
    requires Reader(parse) && p1 <= 32 && p2 <= 32
    ensures Included(parse, IpV4Subnet(n1, p1), IpV4Subnet(n2, p2)) <==> Subnet4In(n1, p1, n2, p2)
  {
    if Subnet4In(n1, p1, n2, p2) {
      forall h | ReadBy(parse, h) && Matches(IpV4Subnet(n1, p1), h)
        ensures Matches(IpV4Subnet(n2, p2), h)
      {
        Subnet4Contains(n1, p1, n2, p2, h.ip.value.bits);
      }
    } else {
      var x := Subnet4Escapes(n1, p1, n2, p2);
      var h := HostOf(parse, V4(x));
      assert Matches(IpV4Subnet(n1, p1), h) && !Matches(IpV4Subnet(n2, p2), h);
    }
  }

  /** The coded comparison of IPv4 networks agrees with that but for prefixes of zero. */
  lemma Subnets4Compared(n1: bv32, p1: bv8, n2: bv32, p2: bv8)
    requires p1 <= 32 && p2 <= 32
    ensures p1 >= p2 && Agree4(n1, n2, p2) <==>
            (Subnet4In(n1, p1, n2, p2) && !FallsShort(IpV4Subnet(n1, p1), IpV4Subnet(n2, p2))) ||
            Exceeds(IpV4Subnet(n1, p1), IpV4Subnet(n2, p2))
  {
    Agree4Length(n1, n2, p2);
    if p2 == 0 {
      Agree4Self(n1, 0);
      if Agree4(n1, n2, 0) {
        Agree4Zero(n1, n2);
      }
    }
  }

  lemma Subnet6Escapes(n1: Segments, p1: bv8, n2: Segments, p2: bv8) returns (x: Segments)
    requires p1 <= 128 && p2 <= 128 && !(p1 >= p2 && Agree6(n1, n2, p2))
    ensures Agree6(x, n1, p1) && !Agree6(x, n2, p2)
  {
    if Agree6(n1, n2, p2) {
      x := Apart6(n1, p1, p2);
      Agree6Symmetric(n1, x, p1);
      if Agree6(x, n2, p2) {
        Agree6Transitive(n1, n2, x, p2);
      }
    } else {
      x := n1;
    }
  }

  lemma Subnet6InSubnet6(parse: Parser, n1: Segments, p1: bv8, n2: Segments, p2: bv8)
    requires Reader(parse) && p1 <= 128 && p2 <= 128
    ensures Included(parse, IpV6Subnet(n1, p1), IpV6Subnet(n2, p2)) <==> p1 >= p2 && Agree6(n1, n2, p2)
  {
    if p1 >= p2 && Agree6(n1, n2, p2) {
      Subnet6Included(parse, n1, p1, n2, p2);
    } else {
      var x := Subnet6Escapes(n1, p1, n2, p2);
      var h := HostOf(parse, V6(x));
      assert Matches(IpV6Subnet(n1, p1), h) && !Matches(IpV6Subnet(n2, p2), h);
    }
  }

  /** For an address rule on the left it is enough to look at the hosts read as its addresses. */
  lemma ExactIpIn(parse: Parser, ip: IpAddr, b: Rule)
    requires Reader(parse) && Valid(b) && IsAddress(b)
    ensures var subset := IsSubsetOf(ExactIp(ip), b); subset <==> Included(parse, ExactIp(ip), b)
  {
    ExactIpIff(ip, b);
    var h := HostOf(parse, ip);
    assert Matches(ExactIp(ip), h);
    if Included(parse, ExactIp(ip), b) {
      forall g: Host | g.ip == Some(ip)
        ensures Matches(b, g)
      {
        assert Matches(b, h);
      }
    }
  }

  /** A network lies in a single address exactly when it holds only that one. */
  lemma SubnetInExactIp(parse: Parser, a: Rule, ip: IpAddr)
    requires Reader(parse) && Valid(a) && (a.IpV4Subnet? || a.IpV6Subnet?)
    ensures Included(parse, a, ExactIp(ip)) ==> FallsShort(a, ExactIp(ip))
  {
    if a.IpV4Subnet? {
      var own := HostOf(parse, V4(a.subnet4));
      Agree4Self(a.subnet4, a.prefix);
      assert Matches(a, own);
      if 0 < a.prefix < 32 {
        var x := Apart4(a.subnet4, a.prefix, 32);
        var h := HostOf(parse, V4(x));
        Agree4Self(a.subnet4, 32);
        assert Matches(a, h);
      }
    } else {
      var own := HostOf(parse, V6(a.subnet6));
      assert Matches(a, own);
      if a.prefix < 128 {
        var x := Apart6(a.subnet6, a.prefix, 128);
        Agree6Symmetric(a.subnet6, x, a.prefix);
        var h := HostOf(parse, V6(x));
        assert Matches(a, h);
      }
    }
  }

  /** Networks of different families share no address. */
  lemma FamiliesApart(parse: Parser, a: Rule, b: Rule)
    requires Reader(parse) && Valid(a) && Valid(b)
    requires (a.IpV4Subnet? && b.IpV6Subnet?) || (a.IpV6Subnet? && b.IpV4Subnet?)
    ensures !Included(parse, a, b)
  {
    if a.IpV4Subnet? {
      var h := HostOf(parse, V4(a.subnet4));
      Agree4Self(a.subnet4, a.prefix);
      assert Matches(a, h);
    } else {
      var h := HostOf(parse, V6(a.subnet6));
      assert Matches(a, h);
    }
  }

  lemma AddressesCompared(parse: Parser, a: Rule, b: Rule)
    requires Reader(parse) && Valid(a) && Valid(b) && IsAddress(a) && IsAddress(b)
    ensures IsSubsetOf(a, b) <==> (Included(parse, a, b) && !FallsShort(a, b)) || Exceeds(a, b)
  {
    match (a, b)
    case (ExactIp(ip), _) => ExactIpIn(parse, ip, b);
    case (_, ExactIp(ip)) => SubnetInExactIp(parse, a, ip);
    case (IpV4Subnet(n1, p1), IpV4Subnet(n2, p2)) =>
      Subnet4InSubnet4(parse, n1, p1, n2, p2);
      Subnets4Compared(n1, p1, n2, p2);
    case (IpV6Subnet(n1, p1), IpV6Subnet(n2, p2)) => Subnet6InSubnet6(parse, n1, p1, n2, p2);
    case _ => FamiliesApart(parse, a, b);
  }

  // ----- all rules

  /** A wildcard misses the empty text or the text "a". */
  lemma WildcardMisses(suffix: string, h: Host, g: Host)
    requires h.name == "" && g.name == "a"
    ensures !Matches(WildcardDomain(suffix), h) || !Matches(WildcardDomain(suffix), g)
  {
    TailStarts(suffix);
    WildcardMeaning(suffix, h);
    WildcardMeaning(suffix, g);
    assert "a"[0] != "."[0];
  }

  /** No rule but the one for any host matches them all. */
  lemma OnlyAnyIncludesAny(parse: Parser, b: Rule)
    requires Reader(parse) && Valid(b) && !b.Any?
    ensures !Included(parse, Any, b)
  {
    if IsAddress(b) {
      var h := Read(parse, ".");
      assert Matches(Any, h) && !Matches(b, h);
    } else {
      var h := Read(parse, "");
      var g := Read(parse, "a");
      assert Matches(Any, h) && Matches(Any, g);
      if b.WildcardDomain? {
        WildcardMisses(b.suffix, h, g);
      } else {
        assert h.name != g.name;
      }
    }
  }

  /**
   * The coded relation holds exactly where every host text that `a` matches is matched by `b`, short of the
   * cases that it misses and with those in which it goes too far.
   */
  lemma RelationIff(parse: Parser, a: Rule, b: Rule)
    requires Reader(parse) && Valid(a) && Valid(b)
    ensures IsSubsetOf(a, b) <==> (Included(parse, a, b) && !FallsShort(a, b)) || Exceeds(a, b)
  {
    if b.Any? {
      assert Included(parse, a, b);
    } else if a.Any? {
      OnlyAnyIncludesAny(parse, b);
    } else if IsText(a) && IsText(b) {
      TextsCompared(parse, a, b);
    } else if IsAddress(a) && IsAddress(b) {
      AddressesCompared(parse, a, b);
    }
  }

  /** A wildcard matches texts that are no addresses. */
  lemma WildcardNotInAddress(parse: Parser, s: string, b: Rule)
    requires Reader(parse) && Valid(b) && IsAddress(b)
    ensures !Included(parse, WildcardDomain(s), b)
  {
    TailStarts(s);
    var h := Read(parse, Tail(s));
    WildcardMeaning(s, h);
    assert Matches(WildcardDomain(s), h) && !Matches(b, h);
  }

  /** A domain lies in an address rule exactly when its text is an address there; the relation never says so. */
  lemma DomainInAddress(parse: Parser, d: string, b: Rule)
    requires Valid(b) && IsAddress(b)
    ensures Included(parse, Domain(d), b) <==> Matches(b, Read(parse, d))
    ensures var subset := IsSubsetOf(Domain(d), b); !subset
  {
    assert Matches(Domain(d), Read(parse, d));
    assert forall h :: ReadBy(parse, h) && Matches(Domain(d), h) ==> h == Read(parse, d);
  }
}

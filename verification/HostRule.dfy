/** Host rules: what they match, and when the coded subset relation is inclusion. */
module HostRule {
  import opened Wrappers
  import opened PrefixBits

  datatype IpAddr = V4(bits: bv32) | V6(segments: Segments)

  /** A host string together with what parsing it as an address yields. */
  datatype Host = Host(name: string, ip: Option<IpAddr>)

  datatype Rule =
    | Any
    | Domain(domain: string)
    | WildcardDomain(suffix: string)
    | ExactIp(ip: IpAddr)
    | IpV4Subnet(subnet4: bv32, prefix: bv8)
    | IpV6Subnet(subnet6: Segments, prefix: bv8)

  /** Prefix lengths that address families have. */
  predicate Valid(r: Rule) {
    (r.IpV4Subnet? ==> r.prefix <= 32) && (r.IpV6Subnet? ==> r.prefix <= 128)
  }

  predicate EndsWith(s: string, t: string) {
    |t| <= |s| && s[|s| - |t|..] == t
  }

  predicate StartsWith(s: string, t: string) {
    t <= s
  }

  predicate Matches(rule: Rule, host: Host)
    requires Valid(rule)
  {
    match rule
    case Any => true
    case Domain(domain) => host.name == domain
    case WildcardDomain(suffix) =>
      if StartsWith(suffix, ".") then EndsWith(host.name, suffix)
      else if StartsWith(suffix, "*.") then EndsWith(host.name, suffix) || EndsWith(host.name, suffix[1..])
      else EndsWith(host.name, "." + suffix) || host.name == suffix
    case ExactIp(ip) => host.ip == Some(ip)
    case IpV4Subnet(subnet, prefix) =>
      host.ip.Some? && host.ip.value.V4? && Agree4(subnet, host.ip.value.bits, prefix)
    case IpV6Subnet(subnet, prefix) =>
      host.ip.Some? && host.ip.value.V6? && Agree6(host.ip.value.segments, subnet, prefix)
  }

  predicate IsSubsetOf(a: Rule, b: Rule)
    requires Valid(a) && Valid(b)
  {
    match (a, b)
    case (_, Any) => true
    case (Any, _) => false
    case (Domain(d1), Domain(d2)) => d1 == d2
    case (Domain(d), WildcardDomain(suffix)) => EndsWith(d, suffix) && |d| > |suffix|
    case (WildcardDomain(s1), WildcardDomain(s2)) => s1 == s2 || EndsWith(s1, s2)
    case (ExactIp(ip1), ExactIp(ip2)) => ip1 == ip2
    case (ExactIp(ip), IpV4Subnet(subnet, prefix)) => ip.V4? && Agree4(subnet, ip.bits, prefix)
    case (ExactIp(ip), IpV6Subnet(subnet, prefix)) => ip.V6? && Agree6(ip.segments, subnet, prefix)
    case (IpV4Subnet(n1, p1), IpV4Subnet(n2, p2)) => p1 >= p2 && Agree4(n1, n2, p2)
    case (IpV6Subnet(n1, p1), IpV6Subnet(n2, p2)) => p1 >= p2 && Agree6(n1, n2, p2)
    case _ => false
  }

  type Parser = string -> Option<IpAddr>

  /** The host is a text with what `parse` makes of it. */
  predicate ReadBy(parse: Parser, h: Host) {
    h.ip == parse(h.name)
  }

  function Read(parse: Parser, name: string): (h: Host)
    ensures ReadBy(parse, h) && h.name == name
  {
    Host(name, parse(name))
  }

  /** Every IPv4 address can be written as a host. */
  ghost predicate SpellsEveryV4(parse: Parser) {
    forall x: bv32 :: Spelled(parse, x)
  }

  ghost predicate Spelled(parse: Parser, x: bv32) {
    exists name :: parse(name) == Some(V4(x))
  }

  /** Every host text that `a` matches, `b` matches. */
  ghost predicate Included(parse: Parser, a: Rule, b: Rule)
    requires Valid(a) && Valid(b)
  {
    forall h :: ReadBy(parse, h) && Matches(a, h) ==> Matches(b, h)
  }

  // ----- suffixes

  lemma EndsWithTransitive(s: string, t: string, u: string)
    requires EndsWith(s, t) && EndsWith(t, u)
    ensures EndsWith(s, u)
  {
    assert s[|s| - |u|..] == s[|s| - |t|..][|t| - |u|..];
  }

  predicate Dotted(suffix: string) {
    StartsWith(suffix, ".") || StartsWith(suffix, "*.")
  }

  /** The strings a wildcard matches end in the wildcard's own suffix, or in it without the star. */
  lemma WildcardEnds(suffix: string, h: Host)
    requires Matches(WildcardDomain(suffix), h)
    ensures EndsWith(h.name, suffix) || (StartsWith(suffix, "*.") && EndsWith(h.name, suffix[1..]))
  {
    if !Dotted(suffix) {
      if EndsWith(h.name, "." + suffix) {
        assert EndsWith("." + suffix, suffix);
        EndsWithTransitive(h.name, "." + suffix, suffix);
      } else {
        assert suffix[0..] == suffix;
      }
    }
  }

  lemma SuffixOfTail(suffix: string, u: string)
    requires EndsWith(suffix, u) && |u| < |suffix|
    ensures EndsWith(suffix[1..], u)
  {
    assert suffix[|suffix| - |u|..] == suffix[1..][|suffix| - 1 - |u|..];
  }

  /** A suffix of `suffix` that does not reach its star is a suffix of every match. */
  lemma WildcardEndsIn(suffix: string, u: string, h: Host)
    requires Matches(WildcardDomain(suffix), h) && EndsWith(suffix, u)
    requires StartsWith(suffix, "*.") ==> |u| < |suffix|
    ensures EndsWith(h.name, u)
  {
    WildcardEnds(suffix, h);
    if EndsWith(h.name, suffix) {
      EndsWithTransitive(h.name, suffix, u);
    } else {
      SuffixOfTail(suffix, u);
      EndsWithTransitive(h.name, suffix[1..], u);
    }
  }

  /** When a wildcard coded as a superset really includes the other rule. */
  predicate WildcardGuard(s1: string, s2: string) {
    s1 == s2 || Dotted(s2) || EndsWith(s1, "." + s2)
  }

  lemma WildcardIncluded(s1: string, s2: string, h: Host)
    requires EndsWith(s1, s2) && WildcardGuard(s1, s2) && Matches(WildcardDomain(s1), h)
    ensures Matches(WildcardDomain(s2), h)
  {
    if s1 != s2 {
      assert s1[0..] == s1;
      if Dotted(s2) {
        WildcardEndsIn(s1, s2, h);
      } else {
        assert |s1| == |s2| + 1 ==> s1 == s1[0..] == "." + s2;
        WildcardEndsIn(s1, "." + s2, h);
      }
    }
  }

  lemma WildcardIff(parse: Parser, s1: string, s2: string)
    requires s1 == s2 || EndsWith(s1, s2)
    ensures Included(parse, WildcardDomain(s1), WildcardDomain(s2)) <==> WildcardGuard(s1, s2)
  {
    if WildcardGuard(s1, s2) {
      assert s1 == s2 ==> s1[0..] == s2;
      forall h | ReadBy(parse, h) && Matches(WildcardDomain(s1), h)
        ensures Matches(WildcardDomain(s2), h)
      {
        WildcardIncluded(s1, s2, h);
      }
    } else {
      var h := Read(parse, s1);
      assert !Matches(WildcardDomain(s2), h);
    }
  }

  lemma DomainIff(parse: Parser, d: string, s: string)
    requires EndsWith(d, s) && |d| > |s|
    ensures Included(parse, Domain(d), WildcardDomain(s)) <==> Dotted(s) || EndsWith(d, "." + s)
  {
    assert Matches(Domain(d), Read(parse, d));
    if Dotted(s) || EndsWith(d, "." + s) {
      assert forall h :: Matches(Domain(d), h) ==> Matches(WildcardDomain(s), h);
    }
  }

  // ----- subnets

  lemma Agree4Shorter(a: bv32, b: bv32, p: bv8, q: bv8)
    requires 0 < q <= p <= 32 && Agree4(a, b, p)
    ensures Agree4(a, b, q)
  {
    Agree4IsTopBits(a, b, p);
    Agree4IsTopBits(a, b, q);
  }

  lemma Agree6Shorter(a: Segments, b: Segments, p: bv8, q: bv8)
    requires q <= p <= 128 && Agree6(a, b, p)
    ensures Agree6(a, b, q)
  {
    Agree6IsTopBits(a, b, p);
    Agree6IsTopBits(a, b, q);
  }

  lemma Agree6Transitive(a: Segments, b: Segments, c: Segments, p: bv8)
    requires p <= 128 && Agree6(a, b, p) && Agree6(b, c, p)
    ensures Agree6(a, c, p) && Agree6(b, a, p)
  {
  }

  /** An address that agrees with `a` on fewer than 32 bits but is another. */
  lemma Neighbour(a: bv32, p: bv8) returns (b: bv32)
    requires 0 < p < 32
    ensures Agree4(a, b, p) && a != b
  {
    b := a ^ 1;
  }

  /** A prefix of zero stands for one address, so it includes only rules for one address. */
  predicate SubnetGuard(p1: bv8, p2: bv8) {
    p2 != 0 || p1 == 0 || p1 == 32
  }

  lemma Subnet4Included(n1: bv32, p1: bv8, n2: bv32, p2: bv8, x: bv32)
    requires p2 <= p1 <= 32 && Agree4(n1, n2, p2) && SubnetGuard(p1, p2)
    requires Agree4(n1, x, p1)
    ensures Agree4(n2, x, p2)
  {
    if p2 == 0 {
      Agree4Zero(n1, n2);
    } else {
      Agree4Shorter(n1, x, p1, p2);
    }
  }

  lemma Subnet4Iff(parse: Parser, n1: bv32, p1: bv8, n2: bv32, p2: bv8)
    requires p2 <= p1 <= 32 && Agree4(n1, n2, p2) && SpellsEveryV4(parse)
    ensures Included(parse, IpV4Subnet(n1, p1), IpV4Subnet(n2, p2)) <==> SubnetGuard(p1, p2)
  {
    if SubnetGuard(p1, p2) {
      forall h | ReadBy(parse, h) && Matches(IpV4Subnet(n1, p1), h)
        ensures Matches(IpV4Subnet(n2, p2), h)
      {
        Subnet4Included(n1, p1, n2, p2, h.ip.value.bits);
      }
    } else {
      var x := Neighbour(n1, p1);
      Agree4Zero(n1, n2);
      assert Spelled(parse, x);
      var name :| parse(name) == Some(V4(x));
      var h := Read(parse, name);
      assert Matches(IpV4Subnet(n1, p1), h);
      if Matches(IpV4Subnet(n2, p2), h) {
        Agree4Zero(n2, x);
      }
    }
  }

  lemma Subnet6Included(parse: Parser, n1: Segments, p1: bv8, n2: Segments, p2: bv8)
    requires p2 <= p1 <= 128 && Agree6(n1, n2, p2)
    ensures Included(parse, IpV6Subnet(n1, p1), IpV6Subnet(n2, p2))
  {
    forall h | Matches(IpV6Subnet(n1, p1), h)
      ensures Matches(IpV6Subnet(n2, p2), h)
    {
      Agree6Shorter(h.ip.value.segments, n1, p1, p2);
      Agree6Transitive(h.ip.value.segments, n1, n2, p2);
    }
  }

  // ----- the main results

  /** The guards under which the coded subset relation is inclusion of matched hosts. */
  predicate Guard(a: Rule, b: Rule) {
    match (a, b)
    case (Domain(d), WildcardDomain(s)) => Dotted(s) || EndsWith(d, "." + s)
    case (WildcardDomain(s1), WildcardDomain(s2)) => WildcardGuard(s1, s2)
    case (IpV4Subnet(_, p1), IpV4Subnet(_, p2)) => SubnetGuard(p1, p2)
    case _ => true
  }

  /** A rule coded as a subset of another matches only hosts the other matches, exactly when the guard holds. */
  lemma SubsetIsInclusionIff(parse: Parser, a: Rule, b: Rule)
    requires Valid(a) && Valid(b) && IsSubsetOf(a, b) && SpellsEveryV4(parse)
    ensures Included(parse, a, b) <==> Guard(a, b)
  {
    match (a, b)
    case (_, Any) =>
    case (Domain(d), WildcardDomain(s)) => DomainIff(parse, d, s);
    case (WildcardDomain(s1), WildcardDomain(s2)) => WildcardIff(parse, s1, s2);
    case (IpV4Subnet(n1, p1), IpV4Subnet(n2, p2)) => Subnet4Iff(parse, n1, p1, n2, p2);
    case (IpV6Subnet(n1, p1), IpV6Subnet(n2, p2)) => Subnet6Included(parse, n1, p1, n2, p2);
    case _ =>
  }

  lemma SubsetReflexive(a: Rule)
    requires Valid(a)
    ensures var subset := IsSubsetOf(a, a); subset
  {
    match a
    case IpV4Subnet(n, p) =>
    case IpV6Subnet(n, p) =>
    case _ =>
  }

  /** The part of the guard that concerns IPv4 prefixes of zero. */
  predicate ZeroGuard(a: Rule, b: Rule) {
    a.IpV4Subnet? && b.IpV4Subnet? ==> SubnetGuard(a.prefix, b.prefix)
  }

  /** An address or network that agrees with a network agrees with every network around that one. */
  lemma Around4(x: bv32, n1: bv32, p1: bv8, n2: bv32, p2: bv8)
    requires p2 <= p1 <= 32 && Agree4(n1, n2, p2) && SubnetGuard(p1, p2)
    requires Agree4(x, n1, p1)
    ensures Agree4(x, n2, p2)
  {
    Subnet4Included(n1, p1, n2, p2, x);
  }

  lemma Subnet4Chain(a: Rule, b: Rule, c: Rule)
    requires Valid(a) && Valid(b) && Valid(c) && b.IpV4Subnet? && c.IpV4Subnet?
    requires IsSubsetOf(a, b) && IsSubsetOf(b, c) && SubnetGuard(b.prefix, c.prefix)
    ensures var subset := IsSubsetOf(a, c); subset
  {
    if a.ExactIp? {
      Subnet4Included(b.subnet4, b.prefix, c.subnet4, c.prefix, a.ip.bits);
    } else {
      Around4(a.subnet4, b.subnet4, b.prefix, c.subnet4, c.prefix);
    }
  }

  lemma Subnet6Chain(a: Rule, b: Rule, c: Rule)
    requires Valid(a) && Valid(b) && Valid(c) && b.IpV6Subnet? && c.IpV6Subnet?
    requires IsSubsetOf(a, b) && IsSubsetOf(b, c)
    ensures var subset := IsSubsetOf(a, c); subset
  {
    var x := if a.ExactIp? then a.ip.segments else a.subnet6;
    Agree6Shorter(x, b.subnet6, b.prefix, c.prefix);
    Agree6Transitive(x, b.subnet6, c.subnet6, c.prefix);
  }

  lemma SubsetChain(a: Rule, b: Rule, c: Rule)
    requires Valid(a) && Valid(b) && Valid(c) && ZeroGuard(b, c)
    requires IsSubsetOf(a, b) && IsSubsetOf(b, c)
    ensures var subset := IsSubsetOf(a, c); subset
  {
    if b.Domain? || b.ExactIp? {
    } else if !c.Any? {
      if b.WildcardDomain? {
      } else if b.IpV4Subnet? {
        Subnet4Chain(a, b, c);
      } else {
        Subnet6Chain(a, b, c);
      }
    }
  }

  ghost predicate PassesOn(b: Rule, c: Rule)
    requires Valid(b) && Valid(c)
  {
    forall a :: Valid(a) && IsSubsetOf(a, b) ==> IsSubsetOf(a, c)
  }

  /** The relation is transitive through `b` and `c` exactly when no real IPv4 subnet sits under a prefix of zero. */
  lemma SubsetTransitiveIff(b: Rule, c: Rule)
    requires Valid(b) && Valid(c) && IsSubsetOf(b, c)
    ensures PassesOn(b, c) <==> ZeroGuard(b, c)
  {
    if ZeroGuard(b, c) {
      forall a | Valid(a) && IsSubsetOf(a, b)
        ensures IsSubsetOf(a, c)
      {
        SubsetChain(a, b, c);
      }
    } else {
      var x := Neighbour(b.subnet4, b.prefix);
      var a := ExactIp(V4(x));
      assert Valid(a) && IsSubsetOf(a, b);
      Agree4Zero(b.subnet4, c.subnet4);
      if IsSubsetOf(a, c) {
        Agree4Zero(c.subnet4, x);
      }
    }
  }

  // ----- inputs on which the coded relation fails

  /** A domain that merely ends in the same letters is coded as a subset of a bare wildcard, and not matched by it. */
  lemma BareWildcardMisses(parse: Parser)
    ensures var a, b := Domain("badexample.com"), WildcardDomain("example.com");
            var subset := IsSubsetOf(a, b); subset && !Included(parse, a, b)
  {
    var d, s := "badexample.com", "example.com";
    assert d[|d| - |s|..] == s;
    var dotted := "." + s;
    assert d[2] == 'd' && dotted[0] == '.';
    assert d[|d| - |dotted|..][0] == d[2];
    assert s[0] == 'e';
    DomainIff(parse, d, s);
  }

  /** A network under a prefix of zero is coded as a subset, although the prefix matches one address only. */
  lemma ZeroPrefixMisses(parse: Parser)
    requires SpellsEveryV4(parse)
    ensures var a, b := IpV4Subnet(0x0A00_0000, 24), IpV4Subnet(0x0A00_0000, 0);
            var subset := IsSubsetOf(a, b); subset && !Included(parse, a, b)
  {
    Subnet4Iff(parse, 0x0A00_0000, 24, 0x0A00_0000, 0);
  }

  /** The same network makes the relation fail to pass on. */
  lemma ZeroPrefixBreaksChain()
    ensures var b, c := IpV4Subnet(0x0A00_0000, 24), IpV4Subnet(0x0A00_0000, 0);
            var subset := IsSubsetOf(b, c); subset && !PassesOn(b, c)
  {
    SubsetTransitiveIff(IpV4Subnet(0x0A00_0000, 24), IpV4Subnet(0x0A00_0000, 0));
  }
}

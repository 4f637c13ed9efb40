/** What a tree asks of its leaves and filters, through every proxy on the way. */
module TreeReading {
  import opened Requests
  import opened LeafCapability
  import opened LeafInclusion
  import opened CapabilityTree
  import opened TreeInclusion

  /** A question that a request leads to: to a leaf, or to the closure of a filter. */
  datatype Ask =
    | AskLeaf(leaf: LeafCapability.Leaf, request: Request)
    | AskFilter(allow: Request -> bool, request: Request)

  predicate SaysYes(a: Ask) {
    match a
    case AskLeaf(l, r) => LeafPermits(l, r)
    case AskFilter(allow, r) => allow(r)
  }

  type Alternatives = seq<Ask>

  ghost predicate SomeYes(x: Alternatives) {
    exists i :: 0 <= i < |x| && SaysYes(x[i])
  }

  ghost predicate AllAnswered(xs: set<Alternatives>) {
    forall x :: x in xs ==> SomeYes(x)
  }

  ghost function Combined(a: set<Alternatives>, b: set<Alternatives>): set<Alternatives> {
    set x, y | x in a && y in b :: x + y
  }

  /** The questions of a request, as lists of alternatives: a proxy changes the request for all that lies below it. */
  ghost function Questions(c: Cap, r: Request): set<Alternatives>
    decreases c, 1
  {
    match c
    case Leaf(l) => {[AskLeaf(l, r)]}
    case Filter(inner, allow) => {[AskFilter(allow, r)]} + Questions(inner, r)
    case Proxy(inner, transform) => Questions(inner, transform(r))
    case Combine(parts, Any) => AnyQuestions(parts, r)
    case Combine(parts, All) => if HasType(parts, RequestType(r)) then AllQuestions(parts, r) else {[]}
    case Composite(entries) => if LookupKey(r) in entries then Questions(entries[LookupKey(r)], r) else {[]}
  }

  ghost function AnyQuestions(parts: seq<Cap>, r: Request): set<Alternatives>
    decreases parts, 0
  {
    if |parts| == 0 then {[]} else Combined(Questions(parts[0], r), AnyQuestions(parts[1..], r))
  }

  ghost function AllQuestions(parts: seq<Cap>, r: Request): set<Alternatives>
    decreases parts, 0
  {
    if |parts| == 0 then {} else
      (if CapType(parts[0]) == RequestType(r) then Questions(parts[0], r) else {}) + AllQuestions(parts[1..], r)
  }

  lemma YesInBoth(x: Alternatives, y: Alternatives)
    ensures SomeYes(x + y) <==> SomeYes(x) || SomeYes(y)
  {
    if i :| 0 <= i < |x| && SaysYes(x[i]) {
      assert (x + y)[i] == x[i];
    }
    if i :| 0 <= i < |y| && SaysYes(y[i]) {
      assert (x + y)[|x| + i] == y[i];
    }
  }

  lemma CombinedAnswered(a: set<Alternatives>, b: set<Alternatives>)
    ensures AllAnswered(Combined(a, b)) <==> AllAnswered(a) || AllAnswered(b)
  {
    forall x, y | x in a && y in b
      ensures x + y in Combined(a, b) && (SomeYes(x + y) <==> SomeYes(x) || SomeYes(y))
    {
      YesInBoth(x, y);
    }
    if !AllAnswered(a) && !AllAnswered(b) {
      var x :| x in a && !SomeYes(x);
      var y :| y in b && !SomeYes(y);
      assert x + y in Combined(a, b);
    }
  }

  lemma NoneAnswered()
    ensures !AllAnswered({[]})
  {
    var none: Alternatives := [];
    assert none in {[]} && !SomeYes(none);
  }

  /** A tree permits a request exactly when each list of questions has one that is answered yes. */
  lemma {:induction false} PermitsByQuestions(c: Cap, r: Request)
    ensures Permits(c, r) <==> AllAnswered(Questions(c, r))
    decreases c, 1
  {
    NoneAnswered();
    match c
    case Leaf(l) =>
      assert [AskLeaf(l, r)] in Questions(c, r) && (SomeYes([AskLeaf(l, r)]) <==> SaysYes([AskLeaf(l, r)][0]));
    case Filter(inner, allow) =>
      PermitsByQuestions(inner, r);
      assert [AskFilter(allow, r)] in Questions(c, r);
      assert SomeYes([AskFilter(allow, r)]) <==> SaysYes([AskFilter(allow, r)][0]);
    case Proxy(inner, transform) => PermitsByQuestions(inner, transform(r));
    case Combine(parts, Any) => AnyByQuestions(parts, r);
    case Combine(parts, All) => AllByQuestions(parts, r);
    case Composite(entries) =>
      if LookupKey(r) in entries {
        PermitsByQuestions(entries[LookupKey(r)], r);
      }
  }

  lemma {:induction false} AnyByQuestions(parts: seq<Cap>, r: Request)
    ensures AnyPermits(parts, r) <==> AllAnswered(AnyQuestions(parts, r))
    decreases parts, 0
  {
    if |parts| == 0 {
      NoneAnswered();
    } else {
      PermitsByQuestions(parts[0], r);
      AnyByQuestions(parts[1..], r);
      CombinedAnswered(Questions(parts[0], r), AnyQuestions(parts[1..], r));
    }
  }

  lemma {:induction false} AllByQuestions(parts: seq<Cap>, r: Request)
    ensures AllOfTypePermit(parts, RequestType(r), r) <==> AllAnswered(AllQuestions(parts, r))
    decreases parts, 0
  {
    if |parts| > 0 {
      PermitsByQuestions(parts[0], r);
      AllByQuestions(parts[1..], r);
    }
  }

  /** Every question is put to a closure or leaf of the tree; without proxies it is the request itself. */
  lemma {:induction false} StaticQuestions(c: Cap, r: Request, x: Alternatives, i: nat)
    requires Static(c) && x in Questions(c, r) && i < |x|
    ensures x[i].AskLeaf? && x[i].request == r
    decreases c, 1
  {
    match c
    case Leaf(_) =>
    case Combine(parts, strategy) => StaticPartQuestions(parts, r, x, i);
    case Composite(entries) =>
      StaticQuestions(entries[LookupKey(r)], r, x, i);
  }

  lemma {:induction false} StaticPartQuestions(parts: seq<Cap>, r: Request, x: Alternatives, i: nat)
    requires (forall j :: 0 <= j < |parts| ==> Static(parts[j])) && i < |x|
    requires x in AnyQuestions(parts, r) || x in AllQuestions(parts, r)
    ensures x[i].AskLeaf? && x[i].request == r
    decreases parts, 0
  {
    if x in AllQuestions(parts, r) {
      if CapType(parts[0]) == RequestType(r) && x in Questions(parts[0], r) {
        StaticQuestions(parts[0], r, x, i);
      } else {
        StaticPartQuestions(parts[1..], r, x, i);
      }
    } else {
      var y, z :| y in Questions(parts[0], r) && z in AnyQuestions(parts[1..], r) && x == y + z;
      if i < |y| {
        StaticQuestions(parts[0], r, y, i);
      } else {
        StaticPartQuestions(parts[1..], r, z, i - |y|);
      }
    }
  }

  /** A filter over a proxy over a tree of leaves: the filter sees the request, the leaves what the proxy made of it. */
  lemma FilteredProxy(c: Cap, transform: Request -> Request, allow: Request -> bool, r: Request)
    requires Static(c) && ForLeaf(transform(r))
    ensures Permits(Proxy(c, transform), r) <==> Meets(Clauses(c, LookupKey(transform(r))), transform(r))
    ensures Permits(Filter(Proxy(c, transform), allow), r) <==>
            allow(r) && Meets(Clauses(c, LookupKey(transform(r))), transform(r))
    ensures Permits(Proxy(Filter(c, allow), transform), r) <==>
            allow(transform(r)) && Meets(Clauses(c, LookupKey(transform(r))), transform(r))
  {
    ClausesPermit(c, transform(r));
  }
}

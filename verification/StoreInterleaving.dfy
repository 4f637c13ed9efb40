/** Partial revocations that overlap; every other store call is one step. */
module StoreInterleaving {
  import opened MachineInt
  import opened Requests
  import opened CapabilityTree
  import opened Revocation
  import opened StoreModel

  /**
   * A partial revocation between its get and its replace: it works on a copy, and other calls can come
   * between. It is `clean` while nothing else has updated the key.
   */
  datatype Pending = Pending(plugin: PluginId, id: CapId, request: Request, held: Cap, clean: bool)

  datatype Shared = Shared(store: State, pending: map<nat, Pending>)

  datatype Event =
    | Whole(op: Op)
    | Begin(thread: nat, plugin: PluginId, id: CapId, request: Request)
    | Finish(thread: nat)

  const START := Shared(INITIAL, map[])

  /** The call that a finishing revocation stands for. */
  function Call(x: Pending): Op {
    PartialRevoke(x.plugin, x.id, x.request)
  }

  ghost function Disturb(pending: map<nat, Pending>, op: Op): map<nat, Pending> {
    map t | t in pending :: pending[t].(clean := pending[t].clean && !Updates(op, pending[t].plugin, pending[t].id))
  }

  /** A missing key ends the call at its get; the replace stores what was made of the copy, whatever is there now. */
  ghost function Step(s: Shared, e: Event): Shared {
    match e
    case Whole(op) => Shared(Apply(s.store, op), Disturb(s.pending, op))
    case Begin(t, p, id, r) =>
      if t in s.pending || (p, id) !in s.store.capabilities then s
      else s.(pending := s.pending[t := Pending(p, id, r, s.store.capabilities[(p, id)].cap, true)])
    case Finish(t) =>
      if t !in s.pending then s else
        var x := s.pending[t];
        Shared(ReplaceIn(s.store, x.plugin, x.id, Revoke(x.held, x.request)), Disturb(s.pending - {t}, Call(x)))
  }

  ghost function After(es: seq<Event>): Shared {
    if |es| == 0 then START else Step(After(es[..|es| - 1]), es[|es| - 1])
  }

  /** The call that takes effect with an event, if any. */
  function CallOf(s: Shared, e: Event): seq<Op> {
    match e
    case Whole(op) => [op]
    case Begin(_, _, _, _) => []
    case Finish(t) => if t in s.pending then [Call(s.pending[t])] else []
  }

  /** The calls in the order in which they take effect. */
  ghost function Calls(es: seq<Event>): seq<Op> {
    if |es| == 0 then [] else Calls(es[..|es| - 1]) + CallOf(After(es[..|es| - 1]), es[|es| - 1])
  }

  /** Between the get and the replace of a revocation nothing else replaces or revokes the same capability. */
  ghost predicate Undisturbed(es: seq<Event>) {
    forall i :: 0 <= i < |es| && es[i].Finish? && es[i].thread in After(es[..i]).pending ==>
      After(es[..i]).pending[es[i].thread].clean
  }

  /** What a clean copy is worth: the original, if it is still there. Ids in use are below the counter. */
  ghost predicate Faithful(s: Shared) {
    && (forall p: PluginId, id: CapId :: (p, id) in s.store.capabilities ==> id < s.store.nextId)
    && (forall t :: t in s.pending ==> s.pending[t].id < s.store.nextId && Current(s.store, s.pending[t]))
  }

  ghost predicate Current(store: State, x: Pending) {
    x.clean && (x.plugin, x.id) in store.capabilities ==> store.capabilities[(x.plugin, x.id)].cap == x.held
  }

  lemma ApplyBelow(store: State, op: Op, p: PluginId, id: CapId)
    requires Agree(store) && store.nextId < MODULUS - 1 && (p, id) in Apply(store, op).capabilities
    requires (p, id) in store.capabilities ==> id < store.nextId
    ensures id < Apply(store, op).nextId
  {
    ApplyKey(store, op, p, id);
  }

  lemma ApplyFaithful(s: Shared, op: Op, pending: map<nat, Pending>)
    requires Faithful(s) && Agree(s.store) && s.store.nextId < MODULUS - 1
    requires forall t :: t in pending ==> t in s.pending && pending[t] == s.pending[t]
    ensures Faithful(Shared(Apply(s.store, op), Disturb(pending, op)))
  {
    var s' := Shared(Apply(s.store, op), Disturb(pending, op));
    forall p: PluginId, id: CapId | (p, id) in s'.store.capabilities
      ensures id < s'.store.nextId
    {
      ApplyBelow(s.store, op, p, id);
    }
    forall t | t in s'.pending
      ensures s'.pending[t].id < s'.store.nextId && Current(s'.store, s'.pending[t])
    {
    }
  }

  /** Replacing by the revoked version of a clean copy is the partial revocation as one call. */
  lemma CleanFinish(s: Shared, t: nat)
    requires Faithful(s) && t in s.pending && s.pending[t].clean
    ensures var op := Call(s.pending[t]);
            Step(s, Finish(t)) == Shared(Apply(s.store, op), Disturb(s.pending - {t}, op))
  {
    assert Current(s.store, s.pending[t]);
  }

  lemma {:induction false} CallsBounded(es: seq<Event>)
    ensures |Calls(es)| <= |es|
  {
    if |es| > 0 {
      CallsBounded(es[..|es| - 1]);
    }
  }

  lemma UndisturbedPrefix(es: seq<Event>)
    requires Undisturbed(es) && |es| > 0
    ensures Undisturbed(es[..|es| - 1])
  {
    var pre := es[..|es| - 1];
    forall i | 0 <= i < |pre| && pre[i].Finish? && pre[i].thread in After(pre[..i]).pending
      ensures After(pre[..i]).pending[pre[i].thread].clean
    {
      assert pre[..i] == es[..i] && pre[i] == es[i];
    }
  }

  lemma RunOne(log: seq<Op>, op: Op)
    ensures Run(log + [op]) == Apply(Run(log), op)
  {
    var longer := log + [op];
    assert longer[..|longer| - 1] == log && longer[|longer| - 1] == op;
  }

  lemma StepIsCall(s: Shared, log: seq<Op>, e: Event)
    requires Faithful(s) && s.store == Run(log) && |log| < MODULUS - 3
    requires e.Finish? && e.thread in s.pending ==> s.pending[e.thread].clean
    ensures Faithful(Step(s, e))
    ensures Step(s, e).store == Run(log + CallOf(s, e))
  {
    RunMirrors(log);
    AddsMonotone(log, 0);
    assert log + [] == log;
    match e
    case Whole(op) =>
      RunOne(log, op);
      ApplyFaithful(s, op, s.pending);
    case Begin(t, p, id, r) =>
    case Finish(t) =>
      if t in s.pending {
        RunOne(log, Call(s.pending[t]));
        CleanFinish(s, t);
        ApplyFaithful(s, Call(s.pending[t]), s.pending - {t});
      }
  }

  /** An undisturbed interleaving has the effect of its calls one after the other. */
  lemma {:induction false} UndisturbedIsAtomic(es: seq<Event>)
    requires |es| < MODULUS - 3 && Undisturbed(es)
    ensures Faithful(After(es)) && After(es).store == Run(Calls(es))
  {
    if |es| > 0 {
      var pre := es[..|es| - 1];
      UndisturbedPrefix(es);
      UndisturbedIsAtomic(pre);
      CallsBounded(pre);
      StepIsCall(After(pre), Calls(pre), es[|es| - 1]);
    }
  }

  /** So the permission check still finds exactly the live capabilities in their latest versions. */
  lemma UndisturbedGrantsIffLive(es: seq<Event>, p: PluginId, r: Request)
    requires |es| < MODULUS - 3 && Undisturbed(es)
    ensures var log := Calls(es);
            Grants(After(es).store, p, r) <==>
            exists i: nat, id: CapId :: LiveSince(log, i, p, id) && Permits(Version(log, i, p, id), r)
  {
    UndisturbedIsAtomic(es);
    CallsBounded(es);
    GrantsIffLive(Calls(es), p, r);
  }

  // ----- overlapping revocations

  ghost predicate SamePermissions(c: Cap, d: Cap) {
    forall q :: Permits(c, q) <==> Permits(d, q)
  }

  lemma StaleAt(c: Cap, rs: seq<Request>, r: Request, q: Request)
    ensures (Permits(Revoke(c, r), q) <==> Permits(Revoke(RevokeAll(c, rs), r), q)) <==>
            (q in rs && Permits(c, q) ==> q == r)
  {
    RevokeExact(c, r, q);
    RevokeExact(RevokeAll(c, rs), r, q);
    RevokeAllExact(c, rs, q);
  }

  /**
   * A revocation that works on a copy from before the revocations `rs` undoes them, unless they
   * revoked the same request or one that was not permitted anyway.
   */
  lemma StaleRevocationIff(c: Cap, rs: seq<Request>, r: Request)
    ensures SamePermissions(Revoke(c, r), Revoke(RevokeAll(c, rs), r)) <==>
            forall q :: q in rs && Permits(c, q) ==> q == r
  {
    if forall q :: q in rs && Permits(c, q) ==> q == r {
      forall q
        ensures Permits(Revoke(c, r), q) <==> Permits(Revoke(RevokeAll(c, rs), r), q)
      {
        StaleAt(c, rs, r, q);
      }
    } else {
      var q :| q in rs && Permits(c, q) && q != r;
      StaleAt(c, rs, r, q);
    }
  }

  /** Two revocations get the same capability, then each replaces it. */
  function Race(p: PluginId, c: Cap, r1: Request, r2: Request): seq<Event> {
    [Whole(Add(p, c)), Begin(0, p, 1, r1), Begin(1, p, 1, r2), Finish(0), Finish(1)]
  }

  lemma AfterOne(es: seq<Event>, e: Event)
    ensures After(es + [e]) == Step(After(es), e)
  {
    var longer := es + [e];
    assert longer[..|longer| - 1] == es && longer[|longer| - 1] == e;
  }

  /** Both revocations hold the capability as it was added. */
  lemma RaceBegins(p: PluginId, c: Cap, r1: Request, r2: Request)
    ensures After(Race(p, c, r1, r2)[..3]) ==
            Shared(State(map[(p, 1) := Entry(c, 1)], map[p := {1}], 2),
                   map[0 := Pending(p, 1, r1, c, true), 1 := Pending(p, 1, r2, c, true)])
  {
    var e := Race(p, c, r1, r2);
    AfterOne([], e[0]);
    AfterOne(e[..1], e[1]);
    AfterOne(e[..2], e[2]);
    assert [] + [e[0]] == e[..1] && e[..1] + [e[1]] == e[..2] && e[..2] + [e[2]] == e[..3];
    assert After([]) == START;
    assert IdsOf(INITIAL, p) + {1} == {1};
    assert AddTo(INITIAL, p, c) == State(map[(p, 1) := Entry(c, 1)], map[p := {1}], 2);
    assert Disturb(map[], Add(p, c)) == map[];
    assert After(e[..1]) == Shared(State(map[(p, 1) := Entry(c, 1)], map[p := {1}], 2), map[]);
  }

  lemma RaceEnds(p: PluginId, c: Cap, r1: Request, r2: Request)
    ensures var s := After(Race(p, c, r1, r2)).store;
            && s.plugins == map[p := {1}] && s.capabilities.Keys == {(p, 1)}
            && s.capabilities[(p, 1)].cap == Revoke(c, r2)
  {
    var e := Race(p, c, r1, r2);
    RaceBegins(p, c, r1, r2);
    AfterOne(e[..3], e[3]);
    AfterOne(e[..4], e[4]);
    assert e[..3] + [e[3]] == e[..4] && e[..4] + [e[4]] == e;
    var x := After(e[..4]).pending[1];
    assert x.held == c && x.plugin == p && x.id == 1 && x.request == r2;
    assert (p, 1) in After(e[..4]).store.capabilities;
    assert After(e).store == ReplaceIn(After(e[..4]).store, p, 1, Revoke(c, r2));
  }

  /** The first of two racing revocations is lost: its request is granted afterwards exactly if it ever was. */
  lemma RaceLosesRevocation(p: PluginId, c: Cap, r1: Request, r2: Request)
    requires r1 != r2
    ensures Grants(After(Race(p, c, r1, r2)).store, p, r1) <==> Permits(c, r1)
    ensures !Grants(After(Race(p, c, r1, r2)).store, p, r2)
  {
    var s := After(Race(p, c, r1, r2)).store;
    RaceEnds(p, c, r1, r2);
    RevokeExact(c, r2, r1);
    RevokeExact(c, r2, r2);
    assert IdsOf(s, p) == {1} && (p, 1) in s.capabilities;
  }
}

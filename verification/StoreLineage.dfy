/** What any interleaving leaves in the store: bases, and the revocations on their line. */
module StoreLineage {
  import opened Wrappers
  import opened Requests
  import opened CapabilityTree
  import opened Revocation
  import opened StoreModel
  import opened StoreInterleaving

  datatype Line = Line(base: Cap, revoked: seq<Request>)

  function LineCap(x: Line): Cap {
    RevokeAll(x.base, x.revoked)
  }

  predicate LinePermits(x: Line, q: Request) {
    Permits(x.base, q) && q !in x.revoked
  }

  function Extended(x: Option<Line>, r: Request): Option<Line> {
    if x.Some? then Some(Line(x.value.base, x.value.revoked + [r])) else None
  }

  /** What one whole call makes of the line of a key. */
  ghost function LineStep(x: Option<Line>, op: Op, nextId: CapId, p: PluginId, id: CapId): Option<Line> {
    if Ends(op, p, id) then None
    else if op.Add? && op.plugin == p && id == nextId then Some(Line(op.cap, []))
    else if Updates(op, p, id) && x.Some? then
      if op.Replace? then Some(Line(op.cap, [])) else Extended(x, op.request)
    else x
  }

  /** The event at which a pending revocation got its copy. */
  ghost function BeganAt(es: seq<Event>, t: nat): (b: nat)
    requires t in After(es).pending
    ensures b < |es|
    decreases |es|
  {
    var pre := es[..|es| - 1];
    if t in After(pre).pending then BeganAt(pre, t) else |pre|
  }

  /** There the store had the key and the capability that the revocation holds. */
  ghost predicate CopiedAt(es: seq<Event>, b: nat, x: Pending)
    requires b <= |es|
  {
    var stored := After(es[..b]).store.capabilities;
    (x.plugin, x.id) in stored && stored[(x.plugin, x.id)].cap == x.held
  }

  /** While it is pending a revocation keeps its copy; it becomes pending by getting it. */
  lemma StepKeepsCopy(s: Shared, e: Event, t: nat)
    requires t in StoreInterleaving.Step(s, e).pending
    ensures var x := StoreInterleaving.Step(s, e).pending[t]; var stored := s.store.capabilities;
            if t in s.pending then x == s.pending[t].(clean := x.clean)
            else (x.plugin, x.id) in stored && stored[(x.plugin, x.id)].cap == x.held
  {
  }

  lemma {:induction false} CopyBegan(es: seq<Event>, t: nat)
    requires t in After(es).pending
    ensures CopiedAt(es, BeganAt(es, t), After(es).pending[t])
    decreases |es|
  {
    var pre := es[..|es| - 1];
    StepKeepsCopy(After(pre), es[|es| - 1], t);
    if t in After(pre).pending {
      CopyBegan(pre, t);
      assert pre[..BeganAt(pre, t)] == es[..BeganAt(es, t)];
    }
  }

  /** The line of the version in the store: a finishing revocation continues the line of its copy. */
  ghost function Lineage(es: seq<Event>, p: PluginId, id: CapId): Option<Line>
    decreases |es|
  {
    if |es| == 0 then None else
      var pre := es[..|es| - 1];
      var s := After(pre);
      match es[|es| - 1]
      case Whole(op) => LineStep(Lineage(pre, p, id), op, s.store.nextId, p, id)
      case Begin(_, _, _, _) => Lineage(pre, p, id)
      case Finish(t) =>
        if t in s.pending && Updates(Call(s.pending[t]), p, id) && Lineage(pre, p, id).Some? then
          Extended(Lineage(pre[..BeganAt(pre, t)], p, id), s.pending[t].request)
        else Lineage(pre, p, id)
  }

  lemma {:induction false} RevokeOneMore(c: Cap, rs: seq<Request>, r: Request)
    ensures RevokeAll(c, rs + [r]) == Revoke(RevokeAll(c, rs), r)
    decreases |rs|
  {
    if |rs| == 0 {
      assert rs + [r] == [r];
      assert [r][1..] == [];
    } else {
      RevokeOneMore(Revoke(c, rs[0]), rs[1..], r);
      assert (rs + [r])[1..] == rs[1..] + [r];
    }
  }

  /** The store has the key exactly when it has a line, and holds the capability of that line. */
  ghost predicate Follows(store: State, x: Option<Line>, p: PluginId, id: CapId) {
    && ((p, id) in store.capabilities <==> x.Some?)
    && (x.Some? ==> store.capabilities[(p, id)].cap == LineCap(x.value))
  }

  lemma LineStepFollows(store: State, x: Option<Line>, op: Op, p: PluginId, id: CapId)
    requires Agree(store) && Follows(store, x, p, id)
    ensures Follows(Apply(store, op), LineStep(x, op, store.nextId, p, id), p, id)
  {
    ApplyKey(store, op, p, id);
    if x.Some? && op.PartialRevoke? {
      RevokeOneMore(x.value.base, x.value.revoked, op.request);
    }
  }

  lemma {:induction false} AfterAgrees(es: seq<Event>)
    ensures Agree(After(es).store)
  {
    if |es| > 0 {
      var pre := es[..|es| - 1];
      var s := After(pre);
      AfterAgrees(pre);
      match es[|es| - 1]
      case Whole(op) => ApplyAgrees(s.store, op);
      case Begin(_, _, _, _) =>
      case Finish(t) =>
        if t in s.pending {
          var x := s.pending[t];
          ApplyAgrees(s.store, Replace(x.plugin, x.id, Revoke(x.held, x.request)));
        }
    }
  }

  lemma FinishFollows(es: seq<Event>, t: nat, p: PluginId, id: CapId)
    requires t in After(es).pending && Updates(Call(After(es).pending[t]), p, id)
    requires (p, id) in After(es).store.capabilities
    requires Follows(After(es[..BeganAt(es, t)]).store, Lineage(es[..BeganAt(es, t)], p, id), p, id)
    ensures var x := Extended(Lineage(es[..BeganAt(es, t)], p, id), After(es).pending[t].request);
            Follows(StoreInterleaving.Step(After(es), Finish(t)).store, x, p, id)
  {
    CopyBegan(es, t);
    var line := Lineage(es[..BeganAt(es, t)], p, id).value;
    RevokeOneMore(line.base, line.revoked, After(es).pending[t].request);
  }

  /** After every interleaving the store holds what the lines say. */
  lemma {:induction false} LineageHolds(es: seq<Event>, p: PluginId, id: CapId)
    ensures Follows(After(es).store, Lineage(es, p, id), p, id)
    decreases |es|
  {
    if |es| > 0 {
      var pre := es[..|es| - 1];
      var s := After(pre);
      LineageHolds(pre, p, id);
      match es[|es| - 1]
      case Whole(op) =>
        AfterAgrees(pre);
        LineStepFollows(s.store, Lineage(pre, p, id), op, p, id);
      case Begin(_, _, _, _) =>
      case Finish(t) =>
        if t in s.pending && Updates(Call(s.pending[t]), p, id) && Lineage(pre, p, id).Some? {
          LineageHolds(pre[..BeganAt(pre, t)], p, id);
          FinishFollows(pre, t, p, id);
        }
    }
  }

  lemma LineCapPermits(x: Line, q: Request)
    ensures Permits(LineCap(x), q) <==> LinePermits(x, q)
  {
    RevokeAllExact(x.base, x.revoked, q);
  }

  ghost predicate LineGrants(es: seq<Event>, p: PluginId, id: CapId, q: Request) {
    Lineage(es, p, id).Some? && LinePermits(Lineage(es, p, id).value, q)
  }

  lemma StoredGrants(es: seq<Event>, p: PluginId, id: CapId, q: Request)
    ensures var s := After(es).store;
            id in IdsOf(s, p) && (p, id) in s.capabilities && Permits(s.capabilities[(p, id)].cap, q) <==>
            LineGrants(es, p, id, q)
  {
    AfterAgrees(es);
    LineageHolds(es, p, id);
    if Lineage(es, p, id).Some? {
      LineCapPermits(Lineage(es, p, id).value, q);
    }
  }

  /**
   * After every interleaving the permission check grants exactly the requests that the base of some
   * line permits and that no revocation on that line took away.
   */
  lemma InterleavedGrantsIff(es: seq<Event>, p: PluginId, q: Request)
    ensures Grants(After(es).store, p, q) <==> exists id: CapId :: LineGrants(es, p, id, q)
  {
    var s := After(es).store;
    if Grants(s, p, q) {
      var id :| id in IdsOf(s, p) && (p, id) in s.capabilities && Permits(s.capabilities[(p, id)].cap, q);
      StoredGrants(es, p, id, q);
    }
    if id: CapId :| LineGrants(es, p, id, q) {
      StoredGrants(es, p, id, q);
    }
  }

  // ----- against the same calls one after the other

  ghost function SerialLine(log: seq<Op>, p: PluginId, id: CapId): Option<Line> {
    if |log| == 0 then None else
      var pre := log[..|log| - 1];
      LineStep(SerialLine(pre, p, id), log[|log| - 1], Run(pre).nextId, p, id)
  }

  lemma {:induction false} RunAgrees(log: seq<Op>)
    ensures Agree(Run(log))
  {
    if |log| > 0 {
      RunAgrees(log[..|log| - 1]);
      ApplyAgrees(Run(log[..|log| - 1]), log[|log| - 1]);
    }
  }

  lemma {:induction false} SerialHolds(log: seq<Op>, p: PluginId, id: CapId)
    ensures Follows(Run(log), SerialLine(log, p, id), p, id)
  {
    if |log| > 0 {
      var pre := log[..|log| - 1];
      SerialHolds(pre, p, id);
      RunAgrees(pre);
      LineStepFollows(Run(pre), SerialLine(pre, p, id), log[|log| - 1], p, id);
    }
  }

  lemma StepKeys(s: State, s': State, op: Op)
    requires s.nextId == s'.nextId && s.capabilities.Keys == s'.capabilities.Keys && Agree(s) && Agree(s')
    ensures Apply(s, op).nextId == Apply(s', op).nextId
    ensures Apply(s, op).capabilities.Keys == Apply(s', op).capabilities.Keys
  {
    forall p: PluginId, id: CapId
      ensures (p, id) in Apply(s, op).capabilities <==> (p, id) in Apply(s', op).capabilities
    {
      ApplyKey(s, op, p, id);
      ApplyKey(s', op, p, id);
    }
  }

  /** Which keys exist does not depend on how the revocations overlap. */
  lemma {:induction false} SameKeys(es: seq<Event>)
    ensures After(es).store.nextId == Run(Calls(es)).nextId
    ensures After(es).store.capabilities.Keys == Run(Calls(es)).capabilities.Keys
  {
    if |es| > 0 {
      var pre, e := es[..|es| - 1], es[|es| - 1];
      var s := After(pre);
      SameKeys(pre);
      AfterAgrees(pre);
      RunAgrees(Calls(pre));
      assert Calls(pre) + [] == Calls(pre);
      match e
      case Whole(op) =>
        RunOne(Calls(pre), op);
        StepKeys(s.store, Run(Calls(pre)), op);
      case Begin(_, _, _, _) =>
      case Finish(t) =>
        if t in s.pending {
          RunOne(Calls(pre), Call(s.pending[t]));
          assert Apply(s.store, Call(s.pending[t])).capabilities.Keys == After(es).store.capabilities.Keys;
          StepKeys(s.store, Run(Calls(pre)), Call(s.pending[t]));
        }
    }
  }

  /** The two lists revoke the same of the requests that the base permits. */
  ghost predicate RevokeSame(base: Cap, rs: seq<Request>, qs: seq<Request>) {
    && (forall i :: 0 <= i < |rs| && Permits(base, rs[i]) ==> rs[i] in qs)
    && (forall i :: 0 <= i < |qs| && Permits(base, qs[i]) ==> qs[i] in rs)
  }

  lemma RevokeSameIff(base: Cap, rs: seq<Request>, qs: seq<Request>)
    ensures SamePermissions(RevokeAll(base, rs), RevokeAll(base, qs)) <==> RevokeSame(base, rs, qs)
  {
    forall q
      ensures Permits(RevokeAll(base, rs), q) <==> Permits(base, q) && q !in rs
      ensures Permits(RevokeAll(base, qs), q) <==> Permits(base, q) && q !in qs
    {
      RevokeAllExact(base, rs, q);
      RevokeAllExact(base, qs, q);
    }
  }

  /**
   * A capability ends with the permissions that the same calls give it one after the other, in the
   * order in which they take effect, exactly when its line holds the same revocations, unless a
   * replacement fell between a get and its replace.
   */
  lemma SerialIff(es: seq<Event>, p: PluginId, id: CapId)
    requires (p, id) in After(es).store.capabilities
    ensures (p, id) in Run(Calls(es)).capabilities
    ensures Lineage(es, p, id).Some? && SerialLine(Calls(es), p, id).Some?
    ensures var x, y := Lineage(es, p, id).value, SerialLine(Calls(es), p, id).value;
            x.base == y.base ==>
              (SamePermissions(After(es).store.capabilities[(p, id)].cap, Run(Calls(es)).capabilities[(p, id)].cap) <==>
               RevokeSame(x.base, x.revoked, y.revoked))
  {
    SameKeys(es);
    LineageHolds(es, p, id);
    SerialHolds(Calls(es), p, id);
    var x, y := Lineage(es, p, id).value, SerialLine(Calls(es), p, id).value;
    if x.base == y.base {
      RevokeSameIff(x.base, x.revoked, y.revoked);
    }
  }
}

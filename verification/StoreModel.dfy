/** The capability store as a state machine over its two maps, and what a run means. */
module StoreModel {
  import opened MachineInt
  import opened Requests
  import opened CapabilityTree
  import opened Revocation

  type CapId = usize

  datatype Entry = Entry(cap: Cap, generation: usize)

  datatype State = State(
    capabilities: map<(PluginId, CapId), Entry>,
    plugins: map<PluginId, set<CapId>>,
    nextId: usize)

  datatype Op =
    | Add(plugin: PluginId, cap: Cap)
    | Remove(plugin: PluginId, id: CapId)
    | Replace(plugin: PluginId, id: CapId, cap: Cap)
    | Clear(plugin: PluginId)
    | PartialRevoke(plugin: PluginId, id: CapId, request: Request)

  const INITIAL := State(map[], map[], 1)

  function IdsOf(s: State, p: PluginId): set<CapId> {
    if p in s.plugins then s.plugins[p] else {}
  }

  function AddTo(s: State, p: PluginId, cap: Cap): State {
    State(s.capabilities[(p, s.nextId) := Entry(cap, 1)],
          s.plugins[p := IdsOf(s, p) + {s.nextId}],
          WrapAdd(s.nextId, 1))
  }

  function RemoveFrom(s: State, p: PluginId, id: CapId): State {
    if (p, id) !in s.capabilities then s else
      s.(capabilities := s.capabilities - {(p, id)},
         plugins := if p in s.plugins then s.plugins[p := s.plugins[p] - {id}] else s.plugins)
  }

  function ReplaceIn(s: State, p: PluginId, id: CapId, cap: Cap): State {
    if (p, id) !in s.capabilities then s else
      s.(capabilities := s.capabilities[(p, id) := Entry(cap, WrapAdd(s.capabilities[(p, id)].generation, 1))])
  }

  function ClearIn(s: State, p: PluginId): State {
    s.(capabilities := map k | k in s.capabilities && !(k.0 == p && k.1 in IdsOf(s, p)) :: s.capabilities[k],
       plugins := s.plugins - {p})
  }

  /** One call; a call that returns an error changes nothing. */
  function Apply(s: State, op: Op): State {
    match op
    case Add(p, cap) => AddTo(s, p, cap)
    case Remove(p, id) => RemoveFrom(s, p, id)
    case Replace(p, id, cap) => ReplaceIn(s, p, id, cap)
    case Clear(p) => ClearIn(s, p)
    case PartialRevoke(p, id, r) =>
      if (p, id) in s.capabilities then ReplaceIn(s, p, id, Revoke(s.capabilities[(p, id)].cap, r)) else s
  }

  ghost function Run(log: seq<Op>): State {
    if |log| == 0 then INITIAL else Apply(Run(log[..|log| - 1]), log[|log| - 1])
  }

  /** What the plugin's permission check asks of the state: the listed capabilities that still exist. */
  ghost predicate Grants(s: State, p: PluginId, r: Request) {
    exists id :: id in IdsOf(s, p) && (p, id) in s.capabilities && Permits(s.capabilities[(p, id)].cap, r)
  }

  /** The two maps list the same capabilities. */
  ghost predicate Agree(s: State) {
    forall p: PluginId, id: CapId :: (p, id) in s.capabilities <==> id in IdsOf(s, p)
  }

  // ----- the meaning of a log, without the two maps

  ghost function Adds(log: seq<Op>): nat {
    if |log| == 0 then 0 else Adds(log[..|log| - 1]) + if log[|log| - 1].Add? then 1 else 0
  }

  /** Call `i` adds a capability to `p` and receives `id`: ids count the adds. */
  ghost predicate Adding(log: seq<Op>, i: nat, p: PluginId, id: nat) {
    i < |log| && log[i].Add? && log[i].plugin == p && id == 1 + Adds(log[..i])
  }

  ghost predicate Ends(op: Op, p: PluginId, id: nat) {
    (op.Remove? && op.plugin == p && op.id == id) || (op.Clear? && op.plugin == p)
  }

  ghost predicate Updates(op: Op, p: PluginId, id: nat) {
    (op.Replace? || op.PartialRevoke?) && op.plugin == p && op.id == id
  }

  /** Added by call `i` and neither removed nor cleared since. */
  ghost predicate LiveSince(log: seq<Op>, i: nat, p: PluginId, id: nat) {
    Adding(log, i, p, id) && forall j :: i < j < |log| ==> !Ends(log[j], p, id)
  }

  /** The latest version of what call `i` added: every replace and partial revocation since, in order. */
  ghost function Version(log: seq<Op>, i: nat, p: PluginId, id: nat): Cap
    requires i < |log| && log[i].Add?
  {
    if i == |log| - 1 then log[i].cap else
      var last := log[|log| - 1];
      var before := Version(log[..|log| - 1], i, p, id);
      if !Updates(last, p, id) then before
      else if last.Replace? then last.cap
      else Revoke(before, last.request)
  }

  ghost function CountUpdates(log: seq<Op>, i: nat, p: PluginId, id: nat): nat
    requires i < |log|
  {
    if i == |log| - 1 then 0 else
      CountUpdates(log[..|log| - 1], i, p, id) + if Updates(log[|log| - 1], p, id) then 1 else 0
  }

  lemma {:induction false} AddsMonotone(log: seq<Op>, n: nat)
    requires n <= |log|
    ensures Adds(log[..n]) <= Adds(log)
    ensures n < |log| && log[n].Add? ==> Adds(log[..n]) < Adds(log)
    ensures Adds(log) <= |log|
  {
    if |log| > 0 {
      var pre := log[..|log| - 1];
      if n < |log| {
        assert pre[..n] == log[..n];
        AddsMonotone(pre, n);
      } else {
        assert log[..n] == log;
        AddsMonotone(pre, |pre|);
      }
    }
  }

  /** No id is ever given out twice. */
  lemma IdsNeverReused(log: seq<Op>, i: nat, j: nat, p: PluginId, q: PluginId, id: nat)
    requires Adding(log, i, p, id) && Adding(log, j, q, id)
    ensures i == j
  {
    if i < j {
      assert log[..j][..i] == log[..i];
      AddsMonotone(log[..j], i);
    } else if j < i {
      assert log[..i][..j] == log[..j];
      AddsMonotone(log[..i], j);
    }
  }

  lemma {:induction false} CountBounded(log: seq<Op>, i: nat, p: PluginId, id: nat)
    requires i < |log|
    ensures CountUpdates(log, i, p, id) < |log|
  {
    if i < |log| - 1 {
      CountBounded(log[..|log| - 1], i, p, id);
    }
  }

  /** The stored entry is the one that call `i` of the log added, in its latest version. */
  ghost predicate Holds(s: State, log: seq<Op>, i: nat, p: PluginId, id: CapId)
    requires i < |log| && log[i].Add?
  {
    && (p, id) in s.capabilities
    && s.capabilities[(p, id)].cap == Version(log, i, p, id)
    && s.capabilities[(p, id)].generation == 1 + CountUpdates(log, i, p, id)
  }

  /** The state holds exactly the live capabilities, each in its latest version with its update count. */
  ghost predicate Mirrors(s: State, log: seq<Op>) {
    && s.nextId == 1 + Adds(log)
    && Agree(s)
    && (forall p: PluginId, id: CapId :: (p, id) in s.capabilities ==> exists i: nat :: LiveSince(log, i, p, id))
    && (forall p: PluginId, id: CapId, i: nat :: LiveSince(log, i, p, id) ==> Holds(s, log, i, p, id))
  }

  lemma AppendFacts(log: seq<Op>, op: Op, i: nat, p: PluginId, id: CapId)
    requires i < |log|
    ensures Adds(log + [op]) == Adds(log) + if op.Add? then 1 else 0
    ensures Adding(log + [op], i, p, id) <==> Adding(log, i, p, id)
    ensures LiveSince(log + [op], i, p, id) <==> LiveSince(log, i, p, id) && !Ends(op, p, id)
    ensures log[i].Add? ==>
              Version(log + [op], i, p, id) ==
              if !Updates(op, p, id) then Version(log, i, p, id)
              else if op.Replace? then op.cap
              else Revoke(Version(log, i, p, id), op.request)
    ensures CountUpdates(log + [op], i, p, id) == CountUpdates(log, i, p, id) + if Updates(op, p, id) then 1 else 0
  {
    var log' := log + [op];
    assert log'[..|log'| - 1] == log;
    assert log'[..i] == log[..i];
    assert forall j :: 0 <= j < |log| ==> log'[j] == log[j];
    assert log'[|log|] == op;
  }

  /** How one call changes one key, said without the state. */
  ghost predicate KeyStep(s: State, s': State, op: Op, p: PluginId, id: CapId) {
    var k := (p, id);
    if Ends(op, p, id) then k !in s'.capabilities
    else if op.Add? && op.plugin == p && id == s.nextId then
      k in s'.capabilities && s'.capabilities[k] == Entry(op.cap, 1)
    else if k in s.capabilities && Updates(op, p, id) then
      && k in s'.capabilities
      && s'.capabilities[k].generation == WrapAdd(s.capabilities[k].generation, 1)
      && s'.capabilities[k].cap == if op.Replace? then op.cap else Revoke(s.capabilities[k].cap, op.request)
    else
      && (k in s'.capabilities <==> k in s.capabilities)
      && (k in s.capabilities ==> s'.capabilities[k] == s.capabilities[k])
  }

  lemma ApplyKey(s: State, op: Op, p: PluginId, id: CapId)
    requires Agree(s)
    ensures KeyStep(s, Apply(s, op), op, p, id)
  {
  }

  lemma ApplyAgrees(s: State, op: Op)
    requires Agree(s)
    ensures Agree(Apply(s, op))
  {
    var s' := Apply(s, op);
    forall p: PluginId, id: CapId
      ensures (p, id) in s'.capabilities <==> id in IdsOf(s', p)
    {
      match op
      case Add(_, _) =>
      case Remove(_, _) =>
      case Replace(_, _, _) =>
      case Clear(_) =>
      case PartialRevoke(_, _, _) =>
    }
  }

  lemma StepHolds(s: State, log: seq<Op>, op: Op, p: PluginId, id: CapId, i: nat)
    requires Mirrors(s, log) && |log| < MODULUS - 2
    requires LiveSince(log + [op], i, p, id)
    ensures Holds(Apply(s, op), log + [op], i, p, id)
  {
    ApplyKey(s, op, p, id);
    if i < |log| {
      AppendFacts(log, op, i, p, id);
      assert Holds(s, log, i, p, id);
      AddsMonotone(log, i);
      CountBounded(log, i, p, id);
    }
  }

  lemma StepLive(s: State, log: seq<Op>, op: Op, p: PluginId, id: CapId) returns (i: nat)
    requires Mirrors(s, log) && |log| < MODULUS - 2
    requires (p, id) in Apply(s, op).capabilities
    ensures LiveSince(log + [op], i, p, id)
  {
    ApplyKey(s, op, p, id);
    if op.Add? && op.plugin == p && id == s.nextId {
      i := |log|;
    } else {
      i :| LiveSince(log, i, p, id);
      AppendFacts(log, op, i, p, id);
    }
  }

  lemma StepMirrors(s: State, log: seq<Op>, op: Op)
    requires Mirrors(s, log) && |log| < MODULUS - 2
    ensures Mirrors(Apply(s, op), log + [op])
  {
    var s' := Apply(s, op);
    ApplyAgrees(s, op);
    AddsMonotone(log, 0);
    forall p: PluginId, id: CapId | (p, id) in s'.capabilities
      ensures exists i: nat :: LiveSince(log + [op], i, p, id)
    {
      var i := StepLive(s, log, op, p, id);
    }
    forall p: PluginId, id: CapId, i: nat | LiveSince(log + [op], i, p, id)
      ensures Holds(s', log + [op], i, p, id)
    {
      StepHolds(s, log, op, p, id, i);
    }
  }

  /**
   * After every run the two maps agree and hold exactly the capabilities that were added and neither
   * removed nor cleared, each in its latest version, with generation one plus its updates.
   */
  lemma {:induction false} RunMirrors(log: seq<Op>)
    requires |log| < MODULUS - 1
    ensures Mirrors(Run(log), log)
  {
    if |log| > 0 {
      var pre := log[..|log| - 1];
      RunMirrors(pre);
      StepMirrors(Run(pre), pre, log[|log| - 1]);
      assert pre + [log[|log| - 1]] == log;
    }
  }

  /** The permission check succeeds exactly when a live capability of the plugin, in its latest version, permits. */
  lemma GrantsIffLive(log: seq<Op>, p: PluginId, r: Request)
    requires |log| < MODULUS - 1
    ensures Grants(Run(log), p, r) <==>
            exists i: nat, id: CapId :: LiveSince(log, i, p, id) && Permits(Version(log, i, p, id), r)
  {
    var s := Run(log);
    RunMirrors(log);
    if Grants(s, p, r) {
      var id :| id in IdsOf(s, p) && (p, id) in s.capabilities && Permits(s.capabilities[(p, id)].cap, r);
      var i: nat :| LiveSince(log, i, p, id);
      assert Holds(s, log, i, p, id);
    }
    if i: nat, id: CapId :| LiveSince(log, i, p, id) && Permits(Version(log, i, p, id), r) {
      assert Holds(s, log, i, p, id);
      assert id in IdsOf(s, p);
    }
  }
}

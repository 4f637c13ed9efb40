/** The instance pool: a queue of reusable instances and four counters that must add up. */
module InstancePool {
  import opened MachineInt
  import opened Queues

  datatype Pooled<T> = Pooled(instance: T, useCount: nat)

  datatype Stats = Stats(created: nat, recycled: nat, checkouts: nat, returned: nat)

  /** The conservation law: what was created is available, checked out, or recycled. */
  ghost predicate Conserved(stats: Stats, available: nat) {
    stats.created == available + (stats.checkouts - stats.returned) + stats.recycled
  }

  function Bound(initialInstances: nat, maxInstances: nat): int {
    Max(Max(initialInstances, maxInstances), 1)
  }

  datatype State = State(available: nat, stats: Stats)

  /** A checkout that recycles `n` instances first; every outcome of the age and health checks is allowed. */
  ghost predicate GetWith(s: State, s': State, n: nat) {
    n <= s.available &&
    if n < s.available then
      s' == State(s.available - n - 1, s.stats.(recycled := s.stats.recycled + n, checkouts := s.stats.checkouts + 1))
    else
      s' == State(0, s.stats.(recycled := s.stats.recycled + n, checkouts := s.stats.checkouts + 1,
                              created := s.stats.created + 1))
  }

  /** A return, healthy or not. */
  ghost predicate ReturnWith(s: State, s': State, maxInstances: nat, healthy: bool) {
    var drop := if s.available >= maxInstances && s.available > 0 then 1 else 0;
    s' == State(s.available - drop + (if healthy then 1 else 0),
                s.stats.(returned := s.stats.returned + 1,
                         recycled := s.stats.recycled + drop + if healthy then 0 else 1))
  }

  /** What one call can do to the counters. Only a checked-out instance can be returned: its handle gives it up once. */
  ghost predicate Step(s: State, s': State, maxInstances: nat) {
    || (exists n :: GetWith(s, s', n))
    || (s.stats.returned < s.stats.checkouts && exists healthy :: ReturnWith(s, s', maxInstances, healthy))
  }

  class Pool<T> {
    const initialInstances: nat
    const maxInstances: nat
    var instances: seq<Pooled<T>>
    var stats: Stats

    ghost predicate Valid()
      reads this
    {
      Conserved(stats, |instances|) && |instances| <= Bound(initialInstances, maxInstances)
    }

    ghost function Counters(): State
      reads this
    {
      State(|instances|, stats)
    }

    /** `new` with `initialize`. */
    constructor (initialInstances: nat, maxInstances: nat, created: seq<T>)
      requires |created| == initialInstances
      ensures Valid() && this.initialInstances == initialInstances && this.maxInstances == maxInstances
      ensures |instances| == initialInstances
      ensures forall i :: 0 <= i < initialInstances ==> instances[i] == Pooled(created[i], 0)
      ensures stats == Stats(initialInstances, 0, 0, 0)
    {
      this.initialInstances, this.maxInstances := initialInstances, maxInstances;
      instances, stats := [], Stats(0, 0, 0, 0);
      new;
      for i := 0 to initialInstances
        invariant |instances| == i && stats == Stats(i, 0, 0, 0)
        invariant forall j :: 0 <= j < i ==> instances[j] == Pooled(created[j], 0)
      {
        instances := instances + [Pooled(created[i], 0)];
        stats := stats.(created := stats.created + 1);
      }
    }

    /**
     * Pops instances, recycling those that are due or unhealthy, and checks one out; with none left
     * a new one is created. The two verdicts are separate because health is asked twice.
     */
    method GetInstance(due: Pooled<T> -> bool, healthy: T -> bool, create: T) returns (instance: T)
      requires Valid()
      modifies this
      ensures Valid()
      ensures var n := Skipped(old(instances), p => due(p) || !healthy(p.instance));
              && stats.recycled == old(stats).recycled + n
              && stats.checkouts == old(stats).checkouts + 1 && stats.returned == old(stats).returned
              && if n < |old(instances)| then
                   && instance == old(instances)[n].instance && instances == old(instances)[n + 1..]
                   && stats.created == old(stats).created
                 else
                   instance == create && instances == [] && stats.created == old(stats).created + 1
      ensures Step(old(Counters()), Counters(), maxInstances)
    {
      ghost var bad := (p: Pooled<T>) => due(p) || !healthy(p.instance);
      ghost var n := 0;
      while |instances| > 0
        invariant n <= |old(instances)| && instances == old(instances)[n..]
        invariant stats == old(stats).(recycled := old(stats).recycled + n)
        invariant Skipped(old(instances), bad) == n + Skipped(instances, bad)
        decreases |instances|
      {
        var pooled := instances[0];
        instances := instances[1..];
        n := n + 1;
        if due(pooled) {
          stats := stats.(recycled := stats.recycled + 1);
          continue;
        }
        if !healthy(pooled.instance) {
          stats := stats.(recycled := stats.recycled + 1);
          continue;
        }
        stats := stats.(checkouts := stats.checkouts + 1);
        assert GetWith(old(Counters()), Counters(), n - 1);
        return pooled.instance;
      }
      stats := stats.(created := stats.created + 1, checkouts := stats.checkouts + 1);
      assert GetWith(old(Counters()), Counters(), n);
      return create;
    }

    /** Makes room by discarding the oldest, then queues the instance if it is healthy after its reset. */
    method ReturnInstance(instance: T, healthyAfterReset: bool)
      requires Valid() && stats.returned < stats.checkouts
      modifies this
      ensures Valid()
      ensures stats.returned == old(stats).returned + 1
      ensures stats.created == old(stats).created && stats.checkouts == old(stats).checkouts
      ensures var full := |old(instances)| >= maxInstances && |old(instances)| > 0;
              var room := if full then old(instances)[1..] else old(instances);
              instances == if healthyAfterReset then room + [Pooled(instance, 2)] else room
      ensures Step(old(Counters()), Counters(), maxInstances)
    {
      stats := stats.(returned := stats.returned + 1);
      if |instances| >= maxInstances {
        if |instances| > 0 {
          instances := instances[1..];
          stats := stats.(recycled := stats.recycled + 1);
        }
      }
      if !healthyAfterReset {
        stats := stats.(recycled := stats.recycled + 1);
        assert ReturnWith(old(Counters()), Counters(), maxInstances, false);
        return;
      }
      instances := instances + [Pooled(instance, 2)];
      assert ReturnWith(old(Counters()), Counters(), maxInstances, true);
    }
  }

  // ----- runs of calls

  ghost predicate Run(states: seq<State>, initialInstances: nat, maxInstances: nat) {
    && |states| > 0
    && states[0] == State(initialInstances, Stats(initialInstances, 0, 0, 0))
    && forall i :: 0 <= i < |states| - 1 ==>
         Step(states[i], states[i + 1], maxInstances)
  }

  ghost predicate Balanced(s: State, initialInstances: nat, maxInstances: nat) {
    && Conserved(s.stats, s.available)
    && s.stats.returned <= s.stats.checkouts
    && s.available <= Bound(initialInstances, maxInstances)
  }

  lemma StepBalances(s: State, s': State, initialInstances: nat, maxInstances: nat)
    requires Balanced(s, initialInstances, maxInstances) && Step(s, s', maxInstances)
    ensures Balanced(s', initialInstances, maxInstances)
  {
    if n :| GetWith(s, s', n) {
    } else {
      var healthy :| ReturnWith(s, s', maxInstances, healthy);
    }
  }

  /** In every reachable state the counters balance and the queue is bounded. */
  lemma {:induction false} ReachableBalanced(states: seq<State>, initialInstances: nat, maxInstances: nat, i: nat)
    requires Run(states, initialInstances, maxInstances) && i < |states|
    ensures Balanced(states[i], initialInstances, maxInstances)
  {
    if i > 0 {
      ReachableBalanced(states, initialInstances, maxInstances, i - 1);
      assert Step(states[i - 1], states[i - 1 + 1], maxInstances);
      StepBalances(states[i - 1], states[i], initialInstances, maxInstances);
    }
  }
}

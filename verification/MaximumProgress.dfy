/** The lock-free maximum gets done: every execution is short, and none gets stuck before its end. */
module MaximumProgress {
  import opened AtomicMaximum

  // ----- every execution is short

  /** The atomic steps that a thread has taken: its load, its failed exchanges, and the step that ends it. */
  function StepsOf(x: Thread): nat {
    match x.phase
    case Start => 0
    case Loop(_) => 1 + x.retries
    case Done => 2 + x.retries
  }

  function StepsTaken(threads: seq<Thread>): nat {
    if |threads| == 0 then 0 else StepsOf(threads[0]) + StepsTaken(threads[1..])
  }

  lemma {:induction false} StepsUpdate(threads: seq<Thread>, t: nat, x: Thread)
    requires t < |threads|
    ensures StepsTaken(threads[t := x]) == StepsTaken(threads) + StepsOf(x) - StepsOf(threads[t])
  {
    if t > 0 {
      assert threads[t := x][1..] == threads[1..][t - 1 := x];
      StepsUpdate(threads[1..], t - 1, x);
    } else {
      assert threads[t := x][1..] == threads[1..];
    }
  }

  lemma {:induction false} StepsAtMost(threads: seq<Thread>, bound: nat)
    requires forall t :: 0 <= t < |threads| ==> StepsOf(threads[t]) <= bound
    ensures StepsTaken(threads) <= |threads| * bound
  {
    if |threads| > 0 {
      StepsAtMost(threads[1..], bound);
      OneMoreTimes(|threads| - 1, bound);
    }
  }

  lemma OneMoreTimes(n: nat, bound: nat)
    ensures n * bound + bound == (n + 1) * bound
  {
  }

  lemma {:induction false} NoStepsTaken(threads: seq<Thread>)
    requires forall t :: 0 <= t < |threads| ==> threads[t].phase.Start?
    ensures StepsTaken(threads) == 0
  {
    if |threads| > 0 {
      NoStepsTaken(threads[1..]);
    }
  }

  lemma StepCounts(s: State, s': State, t: nat, i: nat)
    requires Inv(s) && ThreadStep(s, s', t, i)
    ensures StepsTaken(s'.threads) == StepsTaken(s.threads) + 1
  {
    StepHistory(s, s', t, i);
    assert ThreadOk(s, t);
    StepsUpdate(s.threads, t, s'.threads[t]);
  }

  lemma AllButLast(run: seq<State>)
    requires Execution(run) && |run| > 1
    ensures Execution(run[..|run| - 1]) && Next(run[|run| - 2], run[|run| - 1])
  {
    var pre := run[..|run| - 1];
    assert forall i :: 0 <= i < |pre| - 1 ==> Next(run[i], run[i + 1]) ==> Next(pre[i], pre[i + 1]);
    assert Next(run[|run| - 2], run[|run| - 2 + 1]);
  }

  /** The steps of an execution are those that its threads have taken. */
  lemma {:induction false} LengthIsSteps(run: seq<State>)
    requires Execution(run)
    ensures |run| - 1 == StepsTaken(run[|run| - 1].threads)
  {
    if |run| == 1 {
      NoStepsTaken(run[0].threads);
    } else {
      ExecutionPrefix(run, |run| - 2);
      AllButLast(run);
      LengthIsSteps(run[..|run| - 1]);
      var t: nat, i: nat :| ThreadStep(run[|run| - 2], run[|run| - 1], t, i);
      StepCounts(run[|run| - 2], run[|run| - 1], t, i);
    }
  }

  /** With n threads no execution takes more than n * (n + 1) atomic steps. */
  lemma ExecutionsAreShort(run: seq<State>)
    requires Execution(run)
    ensures |run| - 1 <= |run[0].threads| * (|run[0].threads| + 1)
  {
    var s := run[|run| - 1];
    ExecutionInv(run);
    LengthIsSteps(run);
    forall t | 0 <= t < |s.threads|
      ensures StepsOf(s.threads[t]) <= |s.threads| + 1
    {
      RetriesBounded(run, t);
    }
    StepsAtMost(s.threads, |s.threads| + 1);
  }

  // ----- no thread is ever stuck

  /** Whatever the others do, a thread that is not done has a step. */
  lemma CanStep(s: State, t: nat) returns (s': State)
    requires Inv(s) && t < |s.threads| && !s.threads[t].phase.Done?
    ensures Next(s, s')
  {
    assert ThreadOk(s, t);
    var x := s.threads[t];
    var last := |s.history| - 1;
    if x.phase.Start? {
      s' := s.(threads := s.threads[t := x.(phase := Loop(last))]);
      assert ThreadStep(s, s', t, last);
    } else if x.value <= s.history[x.phase.seen] {
      s' := s.(threads := s.threads[t := x.(phase := Done)]);
      assert ThreadStep(s, s', t, 0);
    } else if s.history[x.phase.seen] == Cell(s) {
      s' := State(s.history + [x.value], s.threads[t := x.(phase := Done, wrote := true)]);
      assert ThreadStep(s, s', t, 0);
    } else {
      s' := s.(threads := s.threads[t := x.(phase := Loop(last), retries := x.retries + 1)]);
      assert ThreadStep(s, s', t, last);
    }
  }

  lemma Extend(run: seq<State>, s: State) returns (longer: seq<State>)
    requires Execution(run) && Next(run[|run| - 1], s)
    ensures longer == run + [s] && Execution(longer)
  {
    longer := run + [s];
    assert forall i :: 0 <= i < |run| - 1 ==> Next(run[i], run[i + 1]) ==> Next(longer[i], longer[i + 1]);
  }

  /** Every execution can be continued until all threads are done. */
  lemma Completes(run: seq<State>) returns (whole: seq<State>)
    requires Execution(run)
    ensures Execution(whole) && run <= whole && AllDone(whole[|whole| - 1])
    decreases |run[0].threads| * (|run[0].threads| + 1) + 1 - |run|
  {
    ExecutionsAreShort(run);
    ExecutionInv(run);
    var s := run[|run| - 1];
    if AllDone(s) {
      whole := run;
    } else {
      var t :| 0 <= t < |s.threads| && !s.threads[t].phase.Done?;
      var s' := CanStep(s, t);
      var longer := Extend(run, s');
      ExecutionsAreShort(longer);
      whole := Completes(longer);
    }
  }

  ghost predicate Stuck(s: State) {
    forall s', t: nat, i: nat :: !ThreadStep(s, s', t, i)
  }

  /** Nothing can go on exactly when all threads are done. */
  lemma StuckIffDone(run: seq<State>)
    requires Execution(run)
    ensures Stuck(run[|run| - 1]) <==> AllDone(run[|run| - 1])
  {
    ExecutionInv(run);
    var s := run[|run| - 1];
    if !AllDone(s) {
      var t :| 0 <= t < |s.threads| && !s.threads[t].phase.Done?;
      var s' := CanStep(s, t);
    }
  }

  ghost predicate IsMaximum(first: State, c: nat)
    requires |first.history| > 0
  {
    && first.history[0] <= c
    && (forall t :: 0 <= t < |first.threads| ==> first.threads[t].value <= c)
    && (c == first.history[0] || Submitted(first.threads, c))
  }

  /** From every start all threads get done, and the cell then holds the maximum. */
  lemma MaximumReached(first: State) returns (run: seq<State>)
    requires Initial(first)
    ensures Execution(run) && run[0] == first && AllDone(run[|run| - 1]) && |run[|run| - 1].history| > 0
    ensures IsMaximum(first, Cell(run[|run| - 1]))
  {
    run := Completes([first]);
    FinishedCellIsMaximum(run);
  }

  /** Whichever way an execution takes, when it can go no further the cell holds the maximum. */
  lemma StuckCellIsMaximum(run: seq<State>)
    requires Execution(run) && Stuck(run[|run| - 1])
    ensures |run[|run| - 1].history| > 0 && IsMaximum(run[0], Cell(run[|run| - 1]))
  {
    StuckIffDone(run);
    FinishedCellIsMaximum(run);
  }

  // ----- the bound on retries is attained

  /** Thread `t` submits `t + 1`; the first `k` are done, and the last has failed `k` exchanges against them. */
  function StairThread(n: nat, k: nat, t: nat): Thread {
    if t == n - 1 then Thread(n, Loop(k), k, false)
    else if t < k then Thread(t + 1, Done, 0, true)
    else Thread(t + 1, Start, 0, false)
  }

  function Stair(n: nat, k: nat): State {
    State(seq(k + 1, i requires i >= 0 => i), seq(n, t requires t >= 0 => StairThread(n, k, t)))
  }

  /** Thread `k` loads the cell and raises it, after which the exchange of the last thread fails. */
  lemma StairStep(n: nat, k: nat) returns (a: State, b: State)
    requires k < n - 1
    ensures Next(Stair(n, k), a) && Next(a, b) && Next(b, Stair(n, k + 1))
  {
    var s := Stair(n, k);
    var x := s.threads[k];
    a := s.(threads := s.threads[k := x.(phase := Loop(k))]);
    assert ThreadStep(s, a, k, k);
    var y := a.threads[k];
    b := State(a.history + [y.value], a.threads[k := y.(phase := Done, wrote := true)]);
    assert ThreadStep(a, b, k, 0);
    var z := b.threads[n - 1];
    var c := b.(threads := b.threads[n - 1 := z.(phase := Loop(k + 1), retries := z.retries + 1)]);
    assert ThreadStep(b, c, n - 1, k + 1);
    assert c.history == Stair(n, k + 1).history;
    assert c.threads == Stair(n, k + 1).threads;
  }

  lemma {:induction false} Climb(n: nat, k: nat) returns (run: seq<State>)
    requires 0 < n && k <= n - 1
    ensures Execution(run) && run[|run| - 1] == Stair(n, k) && |run[0].threads| == n
  {
    if k == 0 {
      var threads := seq(n, t requires t >= 0 => Thread(t + 1, Start, 0, false));
      var first := State([0], threads);
      run := [first];
      var s := first.(threads := threads[n - 1 := threads[n - 1].(phase := Loop(0))]);
      assert ThreadStep(first, s, n - 1, 0);
      assert s.history == Stair(n, 0).history && s.threads == Stair(n, 0).threads;
      run := Extend(run, s);
    } else {
      run := Climb(n, k - 1);
      var a, b := StairStep(n, k - 1);
      run := Extend(run, a);
      run := Extend(run, b);
      run := Extend(run, Stair(n, k));
    }
  }

  /** For every number of threads some thread fails once against each of the others. */
  lemma RetriesAttained(n: nat) returns (run: seq<State>)
    requires n > 0
    ensures Execution(run) && |run[0].threads| == n == |run[|run| - 1].threads|
    ensures run[|run| - 1].threads[n - 1].retries == n - 1
  {
    run := Climb(n, n - 1);
  }

  /** A load can read a value that the cell no longer has. */
  lemma StaleLoad() returns (run: seq<State>)
    ensures Execution(run)
    ensures var s := run[|run| - 1];
            && |s.threads| == |s.history| == 2
            && s.threads[1].phase == Loop(0) && s.history[0] < Cell(s)
  {
    var x, y := Thread(5, Start, 0, false), Thread(3, Start, 0, false);
    var s0 := State([0], [x, y]);
    var s1 := State([0], [x.(phase := Loop(0)), y]);
    var s2 := State([0, 5], [x.(phase := Done, wrote := true), y]);
    var s3 := State([0, 5], [x.(phase := Done, wrote := true), y.(phase := Loop(0))]);
    assert ThreadStep(s0, s1, 0, 0) by { assert LoadStep(s0, s1, 0, 0); }
    assert ThreadStep(s1, s2, 0, 0) by { assert SwapStep(s1, s2, 0); }
    assert ThreadStep(s2, s3, 1, 0) by { assert LoadStep(s2, s3, 1, 0); }
    run := [s0];
    run := Extend(run, s1);
    run := Extend(run, s2);
    run := Extend(run, s3);
  }
}

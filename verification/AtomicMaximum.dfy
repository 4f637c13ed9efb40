/** The lock-free maximum: threads that load a cell and compare-and-swap. */
module AtomicMaximum {

  /** Where a thread is: before its load, holding the value it last read (by position), or done. */
  datatype Phase =
    | Start
    | Loop(seen: nat)
    | Done

  /** `value` is what the thread submits, `retries` counts its failed exchanges. */
  datatype Thread = Thread(value: nat, phase: Phase, retries: nat, wrote: bool)

  /** The cell is its modification order, so that a relaxed load may read an old value. */
  datatype State = State(history: seq<nat>, threads: seq<Thread>)

  ghost predicate Initial(s: State) {
    && |s.history| == 1
    && forall t :: 0 <= t < |s.threads| ==>
         s.threads[t].phase == Start && s.threads[t].retries == 0 && !s.threads[t].wrote
  }

  /** The value of the cell. */
  function Cell(s: State): nat
    requires |s.history| > 0
  {
    s.history[|s.history| - 1]
  }

  /** The load may read any earlier value of the cell. */
  ghost predicate LoadStep(s: State, s': State, t: nat, i: nat) {
    && t < |s.threads| && i < |s.history| && s.threads[t].phase == Start
    && s' == s.(threads := s.threads[t := s.threads[t].(phase := Loop(i))])
  }

  /** The loop condition fails: the value read is at least the submitted one. */
  ghost predicate LeaveStep(s: State, s': State, t: nat) {
    && t < |s.threads| && s.threads[t].phase.Loop? && s.threads[t].phase.seen < |s.history|
    && s.threads[t].value <= s.history[s.threads[t].phase.seen]
    && s' == s.(threads := s.threads[t := s.threads[t].(phase := Done)])
  }

  /** The exchange succeeds: it compares with the last value in modification order. */
  ghost predicate SwapStep(s: State, s': State, t: nat) {
    && t < |s.threads| && s.threads[t].phase.Loop? && s.threads[t].phase.seen < |s.history|
    && s.threads[t].value > s.history[s.threads[t].phase.seen]
    && s.history[s.threads[t].phase.seen] == Cell(s)
    && s' == State(s.history + [s.threads[t].value], s.threads[t := s.threads[t].(phase := Done, wrote := true)])
  }

  /** The exchange fails and reads a different value, not an older one than before. */
  ghost predicate RetryStep(s: State, s': State, t: nat, i: nat) {
    && t < |s.threads| && s.threads[t].phase.Loop? && s.threads[t].phase.seen < |s.history|
    && s.threads[t].value > s.history[s.threads[t].phase.seen]
    && s.threads[t].phase.seen <= i < |s.history|
    && s.history[i] != s.history[s.threads[t].phase.seen]
    && s' == s.(threads := s.threads[t := s.threads[t].(phase := Loop(i), retries := s.threads[t].retries + 1)])
  }

  ghost predicate ThreadStep(s: State, s': State, t: nat, i: nat) {
    LoadStep(s, s', t, i) || LeaveStep(s, s', t) || SwapStep(s, s', t) || RetryStep(s, s', t, i)
  }

  /** Some thread takes its next atomic step. */
  ghost predicate Next(s: State, s': State) {
    exists t: nat, i: nat :: ThreadStep(s, s', t, i)
  }

  ghost predicate Execution(run: seq<State>) {
    |run| > 0 && Initial(run[0]) && forall i :: 0 <= i < |run| - 1 ==> Next(run[i], run[i + 1])
  }

  ghost function Writers(threads: seq<Thread>): nat {
    if |threads| == 0 then 0 else Writers(threads[1..]) + if threads[0].wrote then 1 else 0
  }

  lemma {:induction false} WritersUpdate(threads: seq<Thread>, t: nat, x: Thread)
    requires t < |threads|
    ensures Writers(threads[t := x]) ==
            Writers(threads) + (if x.wrote then 1 else 0) - (if threads[t].wrote then 1 else 0)
  {
    if t > 0 {
      assert threads[t := x][1..] == threads[1..][t - 1 := x];
      WritersUpdate(threads[1..], t - 1, x);
    } else {
      assert threads[t := x][1..] == threads[1..];
    }
  }

  lemma {:induction false} WritersBound(threads: seq<Thread>, t: nat)
    requires t < |threads| && !threads[t].wrote
    ensures Writers(threads) <= |threads| - 1
  {
    if t > 0 {
      WritersBound(threads[1..], t - 1);
    } else {
      WritersAtMost(threads[1..]);
    }
  }

  lemma {:induction false} WritersAtMost(threads: seq<Thread>)
    ensures Writers(threads) <= |threads|
  {
    if |threads| > 0 {
      WritersAtMost(threads[1..]);
    }
  }

  ghost predicate Rising(h: seq<nat>) {
    forall i, j :: 0 <= i < j < |h| ==> h[i] < h[j]
  }

  /** A value in the cell beyond the first was submitted by some thread. */
  ghost predicate Submitted(threads: seq<Thread>, v: nat) {
    exists t :: 0 <= t < |threads| && threads[t].value == v
  }

  /** What holds of one thread. */
  ghost predicate ThreadOk(s: State, t: nat)
    requires t < |s.threads| && |s.history| > 0
  {
    var x := s.threads[t];
    && (x.wrote ==> x.phase.Done?)
    && (x.phase.Start? ==> x.retries == 0)
    && (x.phase.Loop? ==> x.phase.seen < |s.history| && x.retries <= x.phase.seen)
    && (x.phase.Done? ==> x.value <= Cell(s) && x.retries <= |s.history| - if x.wrote then 2 else 1)
  }

  ghost predicate Inv(s: State) {
    && |s.history| > 0
    && Rising(s.history)
    && |s.history| == 1 + Writers(s.threads)
    && (forall i :: 0 < i < |s.history| ==> Submitted(s.threads, s.history[i]))
    && (forall t :: 0 <= t < |s.threads| ==> ThreadOk(s, t))
  }

  lemma {:induction false} NoWriters(threads: seq<Thread>)
    requires forall t :: 0 <= t < |threads| ==> !threads[t].wrote
    ensures Writers(threads) == 0
  {
    if |threads| > 0 {
      NoWriters(threads[1..]);
    }
  }

  lemma SubmittedStays(threads: seq<Thread>, t: nat, x: Thread, v: nat)
    requires t < |threads| && x.value == threads[t].value
    ensures Submitted(threads, v) ==> Submitted(threads[t := x], v)
  {
    if Submitted(threads, v) {
      var u :| 0 <= u < |threads| && threads[u].value == v;
      assert threads[t := x][u].value == v;
    }
  }

  /** The history only grows, rises, and grows by submitted values. */
  lemma StepHistory(s: State, s': State, t: nat, i: nat)
    requires Inv(s) && ThreadStep(s, s', t, i)
    ensures s'.threads == s.threads[t := s'.threads[t]] && s'.threads[t].value == s.threads[t].value
    ensures Rising(s'.history) && s.history <= s'.history && Cell(s) <= Cell(s')
    ensures |s'.history| == 1 + Writers(s'.threads)
    ensures s'.history != s.history ==> SwapStep(s, s', t) && s'.history == s.history + [s.threads[t].value]
  {
    assert ThreadOk(s, t);
    WritersUpdate(s.threads, t, s'.threads[t]);
  }

  lemma StepThread(s: State, s': State, t: nat, i: nat, u: nat)
    requires Inv(s) && ThreadStep(s, s', t, i) && u < |s.threads|
    ensures |s'.threads| == |s.threads| && |s'.history| > 0 && ThreadOk(s', u)
  {
    StepHistory(s, s', t, i);
    assert ThreadOk(s, t) && ThreadOk(s, u);
  }

  lemma StepSubmitted(s: State, s': State, t: nat, i: nat, k: nat)
    requires Inv(s) && ThreadStep(s, s', t, i) && 0 < k < |s'.history|
    ensures Submitted(s'.threads, s'.history[k])
  {
    StepHistory(s, s', t, i);
    if k < |s.history| {
      assert Submitted(s.threads, s.history[k]);
      SubmittedStays(s.threads, t, s'.threads[t], s.history[k]);
    } else {
      assert s'.threads[t].value == s'.history[k];
    }
  }

  lemma StepKeepsInv(s: State, s': State)
    requires Inv(s) && Next(s, s')
    ensures Inv(s')
    ensures s.history <= s'.history && Cell(s) <= Cell(s')
    ensures |s'.threads| == |s.threads|
    ensures forall t :: 0 <= t < |s.threads| ==> s'.threads[t].value == s.threads[t].value
  {
    var t: nat, i: nat :| ThreadStep(s, s', t, i);
    StepHistory(s, s', t, i);
    forall k | 0 < k < |s'.history|
      ensures Submitted(s'.threads, s'.history[k])
    {
      StepSubmitted(s, s', t, i, k);
    }
    forall u | 0 <= u < |s'.threads|
      ensures ThreadOk(s', u)
    {
      StepThread(s, s', t, i, u);
    }
  }

  lemma {:induction false} ExecutionInv(run: seq<State>)
    requires Execution(run)
    ensures var s := run[|run| - 1]; Inv(s) && |s.threads| == |run[0].threads| && s.history[0] == run[0].history[0]
    ensures forall t :: 0 <= t < |run[0].threads| ==> run[|run| - 1].threads[t].value == run[0].threads[t].value
  {
    if |run| == 1 {
      NoWriters(run[0].threads);
    } else {
      var pre := run[..|run| - 1];
      assert forall i :: 0 <= i < |pre| - 1 ==> Next(run[i], run[i + 1]) ==> Next(pre[i], pre[i + 1]);
      ExecutionInv(pre);
      assert Next(run[|run| - 2], run[|run| - 2 + 1]);
      StepKeepsInv(run[|run| - 2], run[|run| - 1]);
    }
  }

  /** In every execution the cell holds the initial or a submitted value. */
  lemma CellIsSubmitted(run: seq<State>)
    requires Execution(run)
    ensures |run[|run| - 1].history| > 0
    ensures var c := Cell(run[|run| - 1]); c == run[0].history[0] || Submitted(run[0].threads, c)
  {
    ExecutionInv(run);
    var s := run[|run| - 1];
    if |s.history| > 1 {
      assert Submitted(s.threads, s.history[|s.history| - 1]);
      var t :| 0 <= t < |s.threads| && s.threads[t].value == Cell(s);
      assert run[0].threads[t].value == Cell(s);
    }
  }

  /** Along every execution the cell never decreases. */
  lemma CellNeverDecreases(run: seq<State>, i: nat, j: nat)
    requires Execution(run) && i <= j < |run|
    ensures |run[i].history| > 0 && |run[j].history| > 0 && Cell(run[i]) <= Cell(run[j])
    decreases j - i
  {
    ExecutionPrefix(run, i);
    if i < j {
      assert Next(run[i], run[i + 1]);
      StepKeepsInv(run[i], run[i + 1]);
      CellNeverDecreases(run, i + 1, j);
    }
  }

  lemma ExecutionPrefix(run: seq<State>, i: nat)
    requires Execution(run) && i < |run|
    ensures Inv(run[i])
  {
    var pre := run[..i + 1];
    assert forall k :: 0 <= k < |pre| - 1 ==> Next(run[k], run[k + 1]) ==> Next(pre[k], pre[k + 1]);
    ExecutionInv(pre);
  }

  ghost predicate AllDone(s: State) {
    forall t :: 0 <= t < |s.threads| ==> s.threads[t].phase.Done?
  }

  /** When all threads are done the cell is the maximum of the initial value and everything submitted. */
  lemma FinishedCellIsMaximum(run: seq<State>)
    requires Execution(run)
    requires AllDone(run[|run| - 1])
    ensures |run[|run| - 1].history| > 0
    ensures var c := Cell(run[|run| - 1]);
            && run[0].history[0] <= c
            && (forall t :: 0 <= t < |run[0].threads| ==> run[0].threads[t].value <= c)
            && (c == run[0].history[0] || Submitted(run[0].threads, c))
  {
    ExecutionInv(run);
    CellIsSubmitted(run);
    CellNeverDecreases(run, 0, |run| - 1);
    var s := run[|run| - 1];
    forall t | 0 <= t < |run[0].threads|
      ensures run[0].threads[t].value <= Cell(s)
    {
      assert ThreadOk(s, t);
    }
  }

  /** A thread retries at most once for each other thread. */
  lemma RetriesBounded(run: seq<State>, t: nat)
    requires Execution(run) && t < |run[0].threads|
    ensures |run[|run| - 1].threads| == |run[0].threads|
    ensures run[|run| - 1].threads[t].retries <= |run[0].threads| - 1
  {
    ExecutionInv(run);
    var s := run[|run| - 1];
    assert ThreadOk(s, t);
    if s.threads[t].wrote {
      WritersAtMost(s.threads);
    } else {
      WritersBound(s.threads, t);
    }
  }
}

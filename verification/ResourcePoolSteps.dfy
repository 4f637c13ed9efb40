/** The resource pool under concurrency, one step per lock acquisition. */
module ResourcePoolSteps {
  import opened Wrappers
  import opened MachineInt

  /** Where a thread is. `wait` tells `acquire_with_timeout` from `try_acquire`. */
  datatype Pc =
    | Idle
    | Trying(wait: bool)        // passed the shutdown check of the acquire call
    | Getting(wait: bool)       // in get_resource, waiting for the queue lock
    | Popping(wait: bool)       // holds the queue lock, at the head of the pop loop
    | Dropping(wait: bool)      // closed a popped resource, still has to decrement the size
    | Missed(wait: bool)        // get_resource returned nothing
    | MayCreate                 // read a size below the maximum
    | Created                   // has a new resource that is not counted yet
    | Returning                 // return_resource, waiting for the queue lock
    | DroppingReturned          // closed an invalid returned resource, still has to decrement
    | Maintaining               // holds the queue lock in maintenance
    | DroppingIdle              // removed a resource in maintenance, still has to decrement
    | Draining                  // shutdown has set the flag and waits for the locks

  /**
   * The size is checked and incremented under separate acquisitions of its lock. `closed` counts resources
   * closed on return after shutdown, whose count is never given back.
   */
  datatype State = State(
    queued: nat,
    size: int,
    shutdown: bool,
    lock: Option<nat>,
    handles: nat,
    closed: nat,
    pcs: seq<Pc>)

  ghost predicate Initial(s: State, initialSize: nat) {
    && s.queued == s.size <= initialSize && !s.shutdown && s.lock == None
    && s.handles == 0 && s.closed == 0
    && forall t :: 0 <= t < |s.pcs| ==> s.pcs[t] == Idle
  }

  function Move(s: State, t: nat, pc: Pc): State
    requires t < |s.pcs|
  {
    s.(pcs := s.pcs[t := pc])
  }

  // ----- acquiring

  ghost predicate AcquireStep(s: State, s': State, t: nat, maxSize: nat)
    requires t < |s.pcs|
  {
    match s.pcs[t]
    case Idle => !s.shutdown && exists w :: s' == Move(s, t, Trying(w))
    case Trying(w) =>
      || (w && s' == Move(s, t, Idle))
      || (s' == Move(s, t, if s.shutdown then Missed(w) else Getting(w)))
    case Getting(w) => s.lock == None && s' == Move(s, t, Popping(w)).(lock := Some(t))
    case Popping(w) =>
      if s.queued == 0 then s' == Move(s, t, Missed(w)).(lock := None)
      else
        || s' == Move(s, t, Idle).(queued := s.queued - 1, handles := s.handles + 1, lock := None)
        || s' == Move(s, t, Dropping(w)).(queued := s.queued - 1)
    case Dropping(w) => s' == Move(s, t, Popping(w)).(size := s.size - 1)
    case Missed(w) => s' == Move(s, t, if s.size < maxSize then MayCreate else if w then Trying(w) else Idle)
    case MayCreate => s' == Move(s, t, Idle) || s' == Move(s, t, Created)
    case Created => s' == Move(s, t, Idle).(size := s.size + 1, handles := s.handles + 1)
    case _ => false
  }

  // ----- returning, maintenance, shutdown

  ghost predicate ReturnStep(s: State, s': State, t: nat)
    requires t < |s.pcs|
  {
    match s.pcs[t]
    case Idle => s.handles > 0 &&
      if s.shutdown then s' == s.(handles := s.handles - 1, closed := s.closed + 1)
      else s' == Move(s, t, Returning).(handles := s.handles - 1)
    case Returning => s.lock == None &&
      (s' == Move(s, t, Idle).(queued := s.queued + 1) || s' == Move(s, t, DroppingReturned).(lock := Some(t)))
    case DroppingReturned => s' == Move(s, t, Idle).(size := s.size - 1, lock := None)
    case _ => false
  }

  ghost predicate MaintenanceStep(s: State, s': State, t: nat)
    requires t < |s.pcs|
  {
    match s.pcs[t]
    case Idle => s.lock == None && s' == Move(s, t, Maintaining).(lock := Some(t))
    case Maintaining =>
      || s' == Move(s, t, Idle).(lock := None)
      || (s.queued > 0 && s' == Move(s, t, DroppingIdle).(queued := s.queued - 1))
    case DroppingIdle => s' == Move(s, t, Maintaining).(size := s.size - 1)
    case _ => false
  }

  /** Draining holds both locks throughout, so it is one step. */
  ghost predicate ShutdownStep(s: State, s': State, t: nat)
    requires t < |s.pcs|
  {
    match s.pcs[t]
    case Idle => s' == Move(s, t, Draining).(shutdown := true)
    case Draining => s.lock == None && s' == Move(s, t, Idle).(size := s.size - s.queued, queued := 0)
    case _ => false
  }

  ghost predicate ThreadStep(s: State, s': State, t: nat, maxSize: nat) {
    && t < |s.pcs|
    && (AcquireStep(s, s', t, maxSize) || ReturnStep(s, s', t) || MaintenanceStep(s, s', t) || ShutdownStep(s, s', t))
  }

  ghost predicate Next(s: State, s': State, maxSize: nat) {
    exists t: nat :: ThreadStep(s, s', t, maxSize)
  }

  ghost predicate Execution(run: seq<State>, initialSize: nat, maxSize: nat) {
    && |run| > 0 && Initial(run[0], initialSize)
    && forall i :: 0 <= i < |run| - 1 ==> Next(run[i], run[i + 1], maxSize)
  }

  // ----- counting threads

  /** Counted resources in the hands of a thread rather than in the queue or a handle. */
  function InHand(pc: Pc): nat {
    if pc.Dropping? || pc.Returning? || pc.DroppingReturned? || pc.DroppingIdle? then 1 else 0
  }

  /** Increments of the size that a thread is already entitled to. */
  function Claim(pc: Pc): nat {
    if pc.MayCreate? || pc.Created? then 1 else 0
  }

  predicate HoldsLock(pc: Pc) {
    pc.Popping? || pc.Dropping? || pc.DroppingReturned? || pc.Maintaining? || pc.DroppingIdle?
  }

  function TotalInHand(pcs: seq<Pc>): nat {
    if |pcs| == 0 then 0 else InHand(pcs[0]) + TotalInHand(pcs[1..])
  }

  function TotalClaims(pcs: seq<Pc>): nat {
    if |pcs| == 0 then 0 else Claim(pcs[0]) + TotalClaims(pcs[1..])
  }

  lemma {:induction false} TotalsUpdate(pcs: seq<Pc>, t: nat, pc: Pc)
    requires t < |pcs|
    ensures TotalInHand(pcs[t := pc]) == TotalInHand(pcs) - InHand(pcs[t]) + InHand(pc)
    ensures TotalClaims(pcs[t := pc]) == TotalClaims(pcs) - Claim(pcs[t]) + Claim(pc)
    ensures TotalInHand(pcs) >= InHand(pcs[t])
  {
    if t == 0 {
      assert pcs[t := pc][1..] == pcs[1..];
    } else {
      assert pcs[t := pc][1..] == pcs[1..][t - 1 := pc];
      TotalsUpdate(pcs[1..], t - 1, pc);
    }
  }

  lemma {:induction false} ClaimsBound(pcs: seq<Pc>)
    ensures TotalClaims(pcs) <= |pcs|
  {
    if |pcs| > 0 {
      ClaimsBound(pcs[1..]);
    }
  }

  lemma {:induction false} ClaimsBelow(pcs: seq<Pc>, t: nat)
    requires t < |pcs| && Claim(pcs[t]) == 0
    ensures TotalClaims(pcs) <= |pcs| - 1
  {
    if t == 0 {
      ClaimsBound(pcs[1..]);
    } else {
      ClaimsBelow(pcs[1..], t - 1);
    }
  }

  lemma {:induction false} IdleTotals(pcs: seq<Pc>)
    requires forall t :: 0 <= t < |pcs| ==> pcs[t] == Idle
    ensures TotalInHand(pcs) == 0 && TotalClaims(pcs) == 0
  {
    if |pcs| > 0 {
      IdleTotals(pcs[1..]);
    }
  }

  // ----- the invariant

  /** With a maximum of zero nothing is ever created on demand. */
  function Bound(initialSize: nat, maxSize: nat, threads: nat): int {
    if maxSize == 0 then initialSize else Max(initialSize, maxSize - 1 + threads)
  }

  /** Every counted resource is queued, in a handle, in the hands of a thread, or closed after shutdown. */
  ghost predicate Conserved(s: State) {
    && s.size == s.queued + s.handles + TotalInHand(s.pcs) + s.closed
    && (s.closed > 0 ==> s.shutdown)
  }

  ghost predicate Bounded(s: State, initialSize: nat, maxSize: nat) {
    s.size + TotalClaims(s.pcs) <= Bound(initialSize, maxSize, |s.pcs|)
  }

  /** The queue lock is held by exactly the thread it names. */
  ghost predicate LockOk(s: State) {
    forall t :: 0 <= t < |s.pcs| ==> (HoldsLock(s.pcs[t]) <==> s.lock == Some(t))
  }

  ghost predicate Inv(s: State, initialSize: nat, maxSize: nat) {
    Conserved(s) && Bounded(s, initialSize, maxSize) && LockOk(s)
  }

  /** A step changes the program counter of its thread only. */
  lemma StepFrame(s: State, s': State, t: nat, maxSize: nat)
    requires ThreadStep(s, s', t, maxSize)
    ensures |s'.pcs| == |s.pcs| && s'.pcs == s.pcs[t := s'.pcs[t]]
  {
  }

  lemma StepConserves(s: State, s': State, t: nat, maxSize: nat)
    requires Conserved(s) && ThreadStep(s, s', t, maxSize)
    ensures Conserved(s') && s'.size >= 0
  {
    StepFrame(s, s', t, maxSize);
    TotalsUpdate(s.pcs, t, s'.pcs[t]);
    if AcquireStep(s, s', t, maxSize) {
      AcquireConserves(s, s', t, maxSize);
    } else if ReturnStep(s, s', t) {
      assert Conserved(s');
    } else if MaintenanceStep(s, s', t) {
      assert Conserved(s');
    }
  }

  lemma AcquireConserves(s: State, s': State, t: nat, maxSize: nat)
    requires Conserved(s) && t < |s.pcs| && AcquireStep(s, s', t, maxSize)
    requires |s'.pcs| == |s.pcs|
    requires TotalInHand(s'.pcs) == TotalInHand(s.pcs) - InHand(s.pcs[t]) + InHand(s'.pcs[t])
    requires TotalInHand(s.pcs) >= InHand(s.pcs[t])
    ensures Conserved(s')
  {
  }

  lemma StepBounds(s: State, s': State, t: nat, initialSize: nat, maxSize: nat)
    requires Conserved(s) && Bounded(s, initialSize, maxSize) && ThreadStep(s, s', t, maxSize)
    ensures Bounded(s', initialSize, maxSize)
  {
    StepFrame(s, s', t, maxSize);
    TotalsUpdate(s.pcs, t, s'.pcs[t]);
    if Claim(s.pcs[t]) == 0 {
      ClaimsBelow(s.pcs, t);
    }
    if AcquireStep(s, s', t, maxSize) {
      AcquireBounds(s, s', t, initialSize, maxSize);
    }
  }

  lemma AcquireBounds(s: State, s': State, t: nat, initialSize: nat, maxSize: nat)
    requires Conserved(s) && Bounded(s, initialSize, maxSize) && t < |s.pcs| && AcquireStep(s, s', t, maxSize)
    requires |s'.pcs| == |s.pcs|
    requires TotalClaims(s'.pcs) == TotalClaims(s.pcs) - Claim(s.pcs[t]) + Claim(s'.pcs[t])
    requires Claim(s.pcs[t]) == 0 ==> TotalClaims(s.pcs) <= |s.pcs| - 1
    ensures Bounded(s', initialSize, maxSize)
  {
  }

  lemma StepLock(s: State, s': State, t: nat, maxSize: nat)
    requires LockOk(s) && ThreadStep(s, s', t, maxSize)
    ensures LockOk(s')
  {
    StepFrame(s, s', t, maxSize);
    assert HoldsLock(s.pcs[t]) <==> s.lock == Some(t);
  }

  lemma {:induction false} ExecutionInv(run: seq<State>, initialSize: nat, maxSize: nat)
    requires Execution(run, initialSize, maxSize) && |run[0].pcs| > 0
    ensures Inv(run[|run| - 1], initialSize, maxSize)
    ensures |run[|run| - 1].pcs| == |run[0].pcs|
  {
    if |run| == 1 {
      IdleTotals(run[0].pcs);
    } else {
      var pre := run[..|run| - 1];
      forall i | 0 <= i < |pre| - 1
        ensures Next(pre[i], pre[i + 1], maxSize)
      {
        assert Next(run[i], run[i + 1], maxSize);
      }
      ExecutionInv(pre, initialSize, maxSize);
      var s, s' := run[|run| - 2], run[|run| - 1];
      assert Next(run[|run| - 2], run[|run| - 2 + 1], maxSize);
      var t: nat :| ThreadStep(s, s', t, maxSize);
      StepFrame(s, s', t, maxSize);
      StepConserves(s, s', t, maxSize);
      StepBounds(s, s', t, initialSize, maxSize);
      StepLock(s, s', t, maxSize);
    }
  }

  /** With `T` threads the total count never exceeds the larger of the initial size and `maxSize - 1 + T`. */
  lemma TotalCountBounded(run: seq<State>, initialSize: nat, maxSize: nat)
    requires Execution(run, initialSize, maxSize) && |run[0].pcs| > 0
    ensures 0 <= run[|run| - 1].size <= Bound(initialSize, maxSize, |run[0].pcs|)
    ensures |run[0].pcs| == 1 ==> run[|run| - 1].size <= Max(initialSize, maxSize)
  {
    ExecutionInv(run, initialSize, maxSize);
  }

  /** Before shutdown nothing is lost: the size counts the queue, the handles and what threads hold. */
  lemma CountedResourcesExist(run: seq<State>, initialSize: nat, maxSize: nat)
    requires Execution(run, initialSize, maxSize) && |run[0].pcs| > 0
    ensures var s := run[|run| - 1];
            && (!s.shutdown ==> s.size == s.queued + s.handles + TotalInHand(s.pcs))
            && (s.shutdown ==> s.size >= s.queued + s.handles + TotalInHand(s.pcs))
  {
    ExecutionInv(run, initialSize, maxSize);
  }

  /** A step that lowers the size, before or after shutdown. */
  ghost predicate Decrements(s: State, s': State) {
    s'.size < s.size
  }

  /** No decrement underflows, and at most one thread is inside the queue lock. */
  lemma DecrementsAreSafe(run: seq<State>, initialSize: nat, maxSize: nat, next: State)
    requires Execution(run, initialSize, maxSize) && |run[0].pcs| > 0
    requires Next(run[|run| - 1], next, maxSize)
    ensures Decrements(run[|run| - 1], next) ==> next.size >= 0
    ensures forall t, u :: 0 <= t < u < |next.pcs| && HoldsLock(next.pcs[t]) ==> !HoldsLock(next.pcs[u])
  {
    ExecutionInv(run, initialSize, maxSize);
    var t: nat :| ThreadStep(run[|run| - 1], next, t, maxSize);
    StepConserves(run[|run| - 1], next, t, maxSize);
    StepLock(run[|run| - 1], next, t, maxSize);
  }

  // ----- the bound is attained

  ghost predicate Reaches(s: State, s': State, maxSize: nat) {
    exists run: seq<State> :: Path(run, s, s', maxSize)
  }

  ghost predicate Path(run: seq<State>, s: State, s': State, maxSize: nat) {
    && |run| > 0 && run[0] == s && run[|run| - 1] == s'
    && forall i :: 0 <= i < |run| - 1 ==> Next(run[i], run[i + 1], maxSize)
  }

  lemma ReachStep(s: State, mid: State, s': State, t: nat, maxSize: nat)
    requires Reaches(s, mid, maxSize) && ThreadStep(mid, s', t, maxSize)
    ensures Reaches(s, s', maxSize)
  {
    var run :| Path(run, s, mid, maxSize);
    var longer := run + [s'];
    forall i | 0 <= i < |longer| - 1
      ensures Next(longer[i], longer[i + 1], maxSize)
    {
      if i < |run| - 1 {
        assert Next(run[i], run[i + 1], maxSize);
      }
    }
    assert Path(longer, s, s', maxSize);
  }

  lemma ReachSelf(s: State, maxSize: nat)
    ensures Reaches(s, s, maxSize)
  {
    assert Path([s], s, s, maxSize);
  }

  /** An open pool with an empty queue, `n` counted resources in handles and the given threads. */
  function Busy(n: nat, pcs: seq<Pc>): State {
    State(0, n, false, None, n, 0, pcs)
  }

  /** An idle thread can come to be entitled to create while the size is below the maximum. */
  lemma ReachClaim(s: State, n: nat, pcs: seq<Pc>, t: nat, maxSize: nat)
    requires Reaches(s, Busy(n, pcs), maxSize) && t < |pcs| && pcs[t] == Idle && n < maxSize
    ensures Reaches(s, Busy(n, pcs[t := MayCreate]), maxSize)
  {
    var s0 := Busy(n, pcs);
    var s1 := Move(s0, t, Trying(false));
    var s2 := Move(s1, t, Getting(false));
    var s3 := Move(s2, t, Popping(false)).(lock := Some(t));
    var s4 := Move(s3, t, Missed(false)).(lock := None);
    var s5 := Move(s4, t, MayCreate);
    ReachStep(s, s0, s1, t, maxSize);
    ReachStep(s, s1, s2, t, maxSize);
    ReachStep(s, s2, s3, t, maxSize);
    ReachStep(s, s3, s4, t, maxSize);
    ReachStep(s, s4, s5, t, maxSize);
    assert s5 == Busy(n, pcs[t := MayCreate]);
  }

  lemma ReachCreate(s: State, n: nat, pcs: seq<Pc>, t: nat, maxSize: nat)
    requires Reaches(s, Busy(n, pcs), maxSize) && t < |pcs| && pcs[t] == MayCreate
    ensures Reaches(s, Busy(n + 1, pcs[t := Idle]), maxSize)
  {
    var s0 := Busy(n, pcs);
    var s1 := Move(s0, t, Created);
    var s2 := Move(s1, t, Idle).(size := s1.size + 1, handles := s1.handles + 1);
    ReachStep(s, s0, s1, t, maxSize);
    ReachStep(s, s1, s2, t, maxSize);
    assert s2 == Busy(n + 1, pcs[t := Idle]);
  }

  function Pcs(claiming: nat, threads: nat): seq<Pc>
    requires claiming <= threads
  {
    seq(threads, i => if i < claiming then MayCreate else Idle)
  }

  /** An open pool that still has all its `n` initial resources in the queue. */
  function Filled(n: nat, threads: nat): State {
    State(n, n, false, None, 0, 0, Pcs(0, threads))
  }

  /** Thread 0 is in the pop loop and has dropped all but `k` resources. */
  function Emptying(k: nat, threads: nat): State
    requires threads > 0
  {
    State(k, k, false, Some(0), 0, 0, Pcs(0, threads)[0 := Popping(false)])
  }

  lemma {:induction false} ReachEmptying(n: nat, k: nat, threads: nat, maxSize: nat)
    requires threads > 0 && k <= n
    ensures Reaches(Filled(n, threads), Emptying(k, threads), maxSize)
    decreases n - k
  {
    var s := Filled(n, threads);
    if k == n {
      var s1 := Move(s, 0, Trying(false));
      var s2 := Move(s1, 0, Getting(false));
      ReachSelf(s, maxSize);
      ReachStep(s, s, s1, 0, maxSize);
      ReachStep(s, s1, s2, 0, maxSize);
      ReachStep(s, s2, Emptying(n, threads), 0, maxSize);
    } else {
      ReachEmptying(n, k + 1, threads, maxSize);
      var s0 := Emptying(k + 1, threads);
      var s1 := Move(s0, 0, Dropping(false)).(queued := k);
      ReachStep(s, s0, s1, 0, maxSize);
      ReachStep(s, s1, Emptying(k, threads), 0, maxSize);
    }
  }

  /** One thread can find all initial resources unusable and then fail to create one. */
  lemma ReachEmpty(n: nat, threads: nat, maxSize: nat)
    requires threads > 0 && maxSize > 0
    ensures Reaches(Filled(n, threads), Busy(0, Pcs(0, threads)), maxSize)
  {
    var s := Filled(n, threads);
    ReachEmptying(n, 0, threads, maxSize);
    var s0 := Emptying(0, threads);
    var s1 := Move(s0, 0, Missed(false)).(lock := None);
    var s2 := Move(s1, 0, MayCreate);
    ReachStep(s, s0, s1, 0, maxSize);
    ReachStep(s, s1, s2, 0, maxSize);
    ReachStep(s, s2, Busy(0, Pcs(0, threads)), 0, maxSize);
  }

  /** One thread at a time fills an empty pool up to any size within the maximum. */
  lemma {:induction false} ReachFull(s: State, threads: nat, n: nat, maxSize: nat)
    requires threads > 0 && n <= maxSize && Reaches(s, Busy(0, Pcs(0, threads)), maxSize)
    ensures Reaches(s, Busy(n, Pcs(0, threads)), maxSize)
  {
    if n > 0 {
      ReachFull(s, threads, n - 1, maxSize);
      ReachClaim(s, n - 1, Pcs(0, threads), 0, maxSize);
      ReachCreate(s, n - 1, Pcs(0, threads)[0 := MayCreate], 0, maxSize);
      assert Pcs(0, threads)[0 := MayCreate][0 := Idle] == Pcs(0, threads);
    }
  }

  /** All threads can pass the size check before any of them increments. */
  lemma {:induction false} ReachAllClaim(s: State, threads: nat, k: nat, maxSize: nat)
    requires threads > 0 && k <= threads && maxSize > 0 && Reaches(s, Busy(0, Pcs(0, threads)), maxSize)
    ensures Reaches(s, Busy(maxSize - 1, Pcs(k, threads)), maxSize)
    decreases k
  {
    if k == 0 {
      ReachFull(s, threads, maxSize - 1, maxSize);
    } else {
      ReachAllClaim(s, threads, k - 1, maxSize);
      ReachClaim(s, maxSize - 1, Pcs(k - 1, threads), k - 1, maxSize);
      assert Pcs(k - 1, threads)[k - 1 := MayCreate] == Pcs(k, threads);
    }
  }

  lemma {:induction false} ReachAllCreate(s: State, threads: nat, k: nat, maxSize: nat)
    requires threads > 0 && k <= threads && maxSize > 0 && Reaches(s, Busy(0, Pcs(0, threads)), maxSize)
    ensures Reaches(s, Busy(maxSize - 1 + threads - k, Pcs(k, threads)), maxSize)
    decreases threads - k
  {
    if k == threads {
      ReachAllClaim(s, threads, threads, maxSize);
    } else {
      ReachAllCreate(s, threads, k + 1, maxSize);
      ReachCreate(s, maxSize - 1 + threads - (k + 1), Pcs(k + 1, threads), k, maxSize);
      assert Pcs(k + 1, threads)[k := Idle] == Pcs(k, threads);
    }
  }

  /** For every initial size, maximum and number of threads, some execution from a filled pool reaches the bound. */
  lemma BoundAttained(initialSize: nat, maxSize: nat, threads: nat) returns (run: seq<State>)
    requires threads > 0
    ensures Execution(run, initialSize, maxSize) && run[0] == Filled(initialSize, threads)
    ensures |run[0].pcs| == threads && run[|run| - 1].size == Bound(initialSize, maxSize, threads)
  {
    var s := Filled(initialSize, threads);
    if maxSize == 0 || initialSize >= maxSize - 1 + threads {
      run := [s];
    } else {
      ReachEmpty(initialSize, threads, maxSize);
      ReachAllCreate(s, threads, 0, maxSize);
      run :| Path(run, s, Busy(maxSize - 1 + threads, Pcs(0, threads)), maxSize);
    }
  }

  ghost predicate KeepsMaximum(initialSize: nat, maxSize: nat, threads: nat) {
    forall run: seq<State> :: Execution(run, initialSize, maxSize) && |run[0].pcs| == threads ==>
      run[|run| - 1].size <= Max(initialSize, maxSize)
  }

  /** When the configured sizes really bound the pool. */
  lemma KeepsMaximumIff(initialSize: nat, maxSize: nat, threads: nat)
    requires threads > 0
    ensures KeepsMaximum(initialSize, maxSize, threads) <==>
            threads == 1 || maxSize == 0 || initialSize >= maxSize - 1 + threads
  {
    if threads == 1 || maxSize == 0 || initialSize >= maxSize - 1 + threads {
      forall run: seq<State> | Execution(run, initialSize, maxSize) && |run[0].pcs| == threads
        ensures run[|run| - 1].size <= Max(initialSize, maxSize)
      {
        TotalCountBounded(run, initialSize, maxSize);
      }
    } else {
      var run := BoundAttained(initialSize, maxSize, threads);
    }
  }
}

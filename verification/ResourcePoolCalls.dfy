/** What the calls of the resource pool can come to, and that none of them gets stuck. */
module ResourcePoolCalls {
  import opened Wrappers
  import opened ResourcePoolSteps

  /** One thread goes on from state to state while the others wait. */
  ghost predicate PathBy(run: seq<State>, s: State, s': State, t: nat, maxSize: nat) {
    && |run| > 0 && run[0] == s && run[|run| - 1] == s'
    && forall i :: 0 <= i < |run| - 1 ==> ThreadStep(run[i], run[i + 1], t, maxSize)
  }

  ghost predicate Leads(s: State, s': State, t: nat, maxSize: nat) {
    exists run: seq<State> :: PathBy(run, s, s', t, maxSize)
  }

  lemma LeadsSelf(s: State, t: nat, maxSize: nat)
    ensures Leads(s, s, t, maxSize)
  {
    assert PathBy([s], s, s, t, maxSize);
  }

  lemma LeadsOn(s: State, mid: State, s': State, t: nat, maxSize: nat)
    requires Leads(s, mid, t, maxSize) && ThreadStep(mid, s', t, maxSize)
    ensures Leads(s, s', t, maxSize)
  {
    var run :| PathBy(run, s, mid, t, maxSize);
    assert PathBy(run + [s'], s, s', t, maxSize);
  }

  /** The pool is open and its queue lock free, and the thread is between calls. */
  predicate Ready(s: State, t: nat) {
    t < |s.pcs| && s.pcs[t] == Idle && s.lock == None && !s.shutdown
  }

  /** The thread holds the queue lock and has dropped `d` resources from the front of the queue. */
  function Popped(s: State, t: nat, w: bool, d: nat): State
    requires t < |s.pcs| && d <= s.queued
  {
    Move(s, t, Popping(w)).(lock := Some(t), queued := s.queued - d, size := s.size - d)
  }

  lemma {:induction false} LeadsToPopped(s: State, t: nat, w: bool, d: nat, maxSize: nat)
    requires Ready(s, t) && d <= s.queued
    ensures Leads(s, Popped(s, t, w, d), t, maxSize)
  {
    if d == 0 {
      var s1 := Move(s, t, Trying(w));
      var s2 := Move(s1, t, Getting(w));
      LeadsSelf(s, t, maxSize);
      LeadsOn(s, s, s1, t, maxSize);
      LeadsOn(s, s1, s2, t, maxSize);
      LeadsOn(s, s2, Popped(s, t, w, 0), t, maxSize);
    } else {
      LeadsToPopped(s, t, w, d - 1, maxSize);
      var p := Popped(s, t, w, d - 1);
      var q := Move(p, t, Dropping(w)).(queued := p.queued - 1);
      LeadsOn(s, p, q, t, maxSize);
      LeadsOn(s, q, Popped(s, t, w, d), t, maxSize);
    }
  }

  lemma BackToIdle(s: State, pcs: seq<Pc>, t: nat)
    requires t < |s.pcs| == |pcs| && s.pcs[t] == Idle && pcs == s.pcs[t := pcs[t]]
    ensures pcs[t := Idle] == s.pcs
  {
  }

  /** An acquire can find `d` unusable resources at the front and hand out the next one. */
  lemma AcquireReuses(s: State, t: nat, w: bool, d: nat, maxSize: nat)
    requires Ready(s, t) && d < s.queued
    ensures Leads(s, s.(queued := s.queued - d - 1, size := s.size - d, handles := s.handles + 1), t, maxSize)
  {
    LeadsToPopped(s, t, w, d, maxSize);
    var p := Popped(s, t, w, d);
    BackToIdle(s, p.pcs, t);
    LeadsOn(s, p, s.(queued := s.queued - d - 1, size := s.size - d, handles := s.handles + 1), t, maxSize);
  }

  /** With the whole queue dropped, it goes on to what the size allows. */
  lemma LeadsToMissed(s: State, t: nat, w: bool, maxSize: nat)
    requires Ready(s, t)
    ensures Leads(s, Move(s, t, Missed(w)).(queued := 0, size := s.size - s.queued), t, maxSize)
  {
    LeadsToPopped(s, t, w, s.queued, maxSize);
    LeadsOn(s, Popped(s, t, w, s.queued), Move(s, t, Missed(w)).(queued := 0, size := s.size - s.queued), t, maxSize);
  }

  /** An acquire can find nothing usable and create a resource if that leaves the size below the maximum. */
  lemma AcquireCreates(s: State, t: nat, w: bool, maxSize: nat)
    requires Ready(s, t) && s.size - s.queued < maxSize
    ensures Leads(s, s.(queued := 0, size := s.size - s.queued + 1, handles := s.handles + 1), t, maxSize)
    ensures Leads(s, s.(queued := 0, size := s.size - s.queued), t, maxSize)
  {
    LeadsToMissed(s, t, w, maxSize);
    var m := Move(s, t, Missed(w)).(queued := 0, size := s.size - s.queued);
    var may := Move(m, t, MayCreate);
    var made := Move(may, t, Created);
    BackToIdle(s, may.pcs, t);
    BackToIdle(s, made.pcs, t);
    LeadsOn(s, m, may, t, maxSize);
    LeadsOn(s, may, s.(queued := 0, size := s.size - s.queued), t, maxSize);
    LeadsOn(s, may, made, t, maxSize);
    LeadsOn(s, made, s.(queued := 0, size := s.size - s.queued + 1, handles := s.handles + 1), t, maxSize);
  }

  /** Otherwise it gives up, at once or after waiting. */
  lemma AcquireGivesUp(s: State, t: nat, w: bool, maxSize: nat)
    requires Ready(s, t) && s.size - s.queued >= maxSize
    ensures Leads(s, s.(queued := 0, size := s.size - s.queued), t, maxSize)
  {
    LeadsToMissed(s, t, w, maxSize);
    var m := Move(s, t, Missed(w)).(queued := 0, size := s.size - s.queued);
    var next := if w then Move(m, t, Trying(w)) else Move(m, t, Idle);
    LeadsOn(s, m, next, t, maxSize);
    if w {
      BackToIdle(s, next.pcs, t);
      LeadsOn(s, next, s.(queued := 0, size := s.size - s.queued), t, maxSize);
    } else {
      BackToIdle(s, m.pcs, t);
    }
  }

  /** A returned resource can go back into the queue, or be dropped with its count. */
  lemma ReturnQueuesOrDrops(s: State, t: nat, maxSize: nat)
    requires Ready(s, t) && s.handles > 0
    ensures Leads(s, s.(queued := s.queued + 1, handles := s.handles - 1), t, maxSize)
    ensures Leads(s, s.(size := s.size - 1, handles := s.handles - 1), t, maxSize)
  {
    var r := Move(s, t, Returning).(handles := s.handles - 1);
    var d := Move(r, t, DroppingReturned).(lock := Some(t));
    BackToIdle(s, r.pcs, t);
    BackToIdle(s, d.pcs, t);
    LeadsSelf(s, t, maxSize);
    LeadsOn(s, s, r, t, maxSize);
    LeadsOn(s, r, s.(queued := s.queued + 1, handles := s.handles - 1), t, maxSize);
    LeadsOn(s, r, d, t, maxSize);
    LeadsOn(s, d, s.(size := s.size - 1, handles := s.handles - 1), t, maxSize);
  }

  /** After shutdown a returned resource is closed and keeps its count. */
  lemma ReturnCloses(s: State, t: nat, maxSize: nat)
    requires t < |s.pcs| && s.pcs[t] == Idle && s.shutdown && s.handles > 0
    ensures Leads(s, s.(handles := s.handles - 1, closed := s.closed + 1), t, maxSize)
  {
    LeadsSelf(s, t, maxSize);
    LeadsOn(s, s, s.(handles := s.handles - 1, closed := s.closed + 1), t, maxSize);
  }

  lemma {:induction false} LeadsToMaintaining(s: State, t: nat, d: nat, maxSize: nat)
    requires t < |s.pcs| && s.pcs[t] == Idle && s.lock == None && d <= s.queued
    ensures Leads(s, Move(s, t, Maintaining).(lock := Some(t), queued := s.queued - d, size := s.size - d), t, maxSize)
  {
    if d == 0 {
      LeadsSelf(s, t, maxSize);
      LeadsOn(s, s, Move(s, t, Maintaining).(lock := Some(t)), t, maxSize);
    } else {
      LeadsToMaintaining(s, t, d - 1, maxSize);
      var m := Move(s, t, Maintaining).(lock := Some(t), queued := s.queued - d + 1, size := s.size - d + 1);
      var q := Move(m, t, DroppingIdle).(queued := m.queued - 1);
      LeadsOn(s, m, q, t, maxSize);
      LeadsOn(s, q, Move(s, t, Maintaining).(lock := Some(t), queued := s.queued - d, size := s.size - d), t, maxSize);
    }
  }

  /** Maintenance can drop any number of queued resources with their count. */
  lemma MaintenanceDrops(s: State, t: nat, d: nat, maxSize: nat)
    requires t < |s.pcs| && s.pcs[t] == Idle && s.lock == None && d <= s.queued
    ensures Leads(s, s.(queued := s.queued - d, size := s.size - d), t, maxSize)
  {
    LeadsToMaintaining(s, t, d, maxSize);
    var m := Move(s, t, Maintaining).(lock := Some(t), queued := s.queued - d, size := s.size - d);
    BackToIdle(s, m.pcs, t);
    LeadsOn(s, m, s.(queued := s.queued - d, size := s.size - d), t, maxSize);
  }

  /** Shutdown empties the queue and gives back its count. */
  lemma ShutdownDrains(s: State, t: nat, maxSize: nat)
    requires t < |s.pcs| && s.pcs[t] == Idle && s.lock == None
    ensures Leads(s, s.(shutdown := true, queued := 0, size := s.size - s.queued), t, maxSize)
  {
    var d := Move(s, t, Draining).(shutdown := true);
    BackToIdle(s, d.pcs, t);
    LeadsSelf(s, t, maxSize);
    LeadsOn(s, s, d, t, maxSize);
    LeadsOn(s, d, s.(shutdown := true, queued := 0, size := s.size - s.queued), t, maxSize);
  }

  // ----- no call gets stuck

  /** The thread is between calls again, and the other threads are where they were. */
  predicate Ended(s: State, s': State, t: nat) {
    t < |s.pcs| && s'.pcs == s.pcs[t := Idle] && s'.lock == None
  }

  ghost predicate CanEnd(s: State, t: nat, maxSize: nat) {
    exists s' :: Leads(s, s', t, maxSize) && Ended(s, s', t)
  }

  lemma EndNow(s: State, mid: State, s': State, t: nat, maxSize: nat)
    requires Leads(s, mid, t, maxSize) && ThreadStep(mid, s', t, maxSize) && Ended(s, s', t)
    ensures CanEnd(s, t, maxSize)
  {
    LeadsOn(s, mid, s', t, maxSize);
  }

  /** From a free lock, or with the lock in its hands, a thread can end its call. */
  lemma EndFromMissed(s: State, m: State, t: nat, w: bool, maxSize: nat)
    requires t < |s.pcs| == |m.pcs| && Leads(s, m, t, maxSize)
    requires m.pcs == s.pcs[t := Missed(w)] && m.lock == None
    ensures CanEnd(s, t, maxSize)
  {
    assert m.pcs[t := Idle] == s.pcs[t := Idle];
    if m.size < maxSize {
      var may := Move(m, t, MayCreate);
      assert may.pcs[t := Idle] == s.pcs[t := Idle];
      LeadsOn(s, m, may, t, maxSize);
      EndNow(s, may, Move(may, t, Idle), t, maxSize);
    } else if w {
      var again := Move(m, t, Trying(w));
      assert again.pcs[t := Idle] == s.pcs[t := Idle];
      LeadsOn(s, m, again, t, maxSize);
      EndNow(s, again, Move(again, t, Idle), t, maxSize);
    } else {
      EndNow(s, m, Move(m, t, Idle), t, maxSize);
    }
  }

  lemma EndFromPopping(s: State, p: State, t: nat, w: bool, maxSize: nat)
    requires t < |s.pcs| == |p.pcs| && Leads(s, p, t, maxSize)
    requires p.pcs == s.pcs[t := Popping(w)] && p.lock == Some(t)
    ensures CanEnd(s, t, maxSize)
  {
    if p.queued == 0 {
      var m := Move(p, t, Missed(w)).(lock := None);
      LeadsOn(s, p, m, t, maxSize);
      EndFromMissed(s, m, t, w, maxSize);
    } else {
      EndNow(s, p, Move(p, t, Idle).(queued := p.queued - 1, handles := p.handles + 1, lock := None), t, maxSize);
    }
  }

  lemma EndFromGetting(s: State, g: State, t: nat, w: bool, maxSize: nat)
    requires t < |s.pcs| == |g.pcs| && Leads(s, g, t, maxSize)
    requires g.pcs == s.pcs[t := Getting(w)] && g.lock == None
    ensures CanEnd(s, t, maxSize)
  {
    var p := Move(g, t, Popping(w)).(lock := Some(t));
    LeadsOn(s, g, p, t, maxSize);
    EndFromPopping(s, p, t, w, maxSize);
  }

  lemma EndAcquire(s: State, t: nat, maxSize: nat)
    requires t < |s.pcs| && s.lock == (if HoldsLock(s.pcs[t]) then Some(t) else None)
    requires s.pcs[t].Trying? || s.pcs[t].Getting? || s.pcs[t].Popping? || s.pcs[t].Dropping? || s.pcs[t].Missed?
    ensures CanEnd(s, t, maxSize)
  {
    LeadsSelf(s, t, maxSize);
    match s.pcs[t]
    case Trying(w) =>
      if s.shutdown {
        var m := Move(s, t, Missed(w));
        LeadsOn(s, s, m, t, maxSize);
        EndFromMissed(s, m, t, w, maxSize);
      } else {
        var g := Move(s, t, Getting(w));
        LeadsOn(s, s, g, t, maxSize);
        EndFromGetting(s, g, t, w, maxSize);
      }
    case Getting(w) => EndFromGetting(s, s, t, w, maxSize);
    case Popping(w) => EndFromPopping(s, s, t, w, maxSize);
    case Dropping(w) =>
      var p := Move(s, t, Popping(w)).(size := s.size - 1);
      LeadsOn(s, s, p, t, maxSize);
      EndFromPopping(s, p, t, w, maxSize);
    case Missed(w) => EndFromMissed(s, s, t, w, maxSize);
    case _ =>
  }

  /** A thread that holds the queue lock, or finds it free, can end its call. */
  lemma CallEnds(s: State, t: nat, maxSize: nat)
    requires t < |s.pcs| && s.lock == if HoldsLock(s.pcs[t]) then Some(t) else None
    ensures CanEnd(s, t, maxSize)
  {
    LeadsSelf(s, t, maxSize);
    match s.pcs[t]
    case Idle => assert Ended(s, s, t);
    case MayCreate => EndNow(s, s, Move(s, t, Idle), t, maxSize);
    case Created => EndNow(s, s, Move(s, t, Idle).(size := s.size + 1, handles := s.handles + 1), t, maxSize);
    case Returning => EndNow(s, s, Move(s, t, Idle).(queued := s.queued + 1), t, maxSize);
    case DroppingReturned => EndNow(s, s, Move(s, t, Idle).(size := s.size - 1, lock := None), t, maxSize);
    case Maintaining => EndNow(s, s, Move(s, t, Idle).(lock := None), t, maxSize);
    case DroppingIdle =>
      var m := Move(s, t, Maintaining).(size := s.size - 1);
      LeadsOn(s, s, m, t, maxSize);
      EndNow(s, m, Move(m, t, Idle).(lock := None), t, maxSize);
    case Draining => EndNow(s, s, Move(s, t, Idle).(size := s.size - s.queued, queued := 0), t, maxSize);
    case _ => EndAcquire(s, t, maxSize);
  }

  // ----- all threads

  predicate AllIdle(s: State) {
    forall t :: 0 <= t < |s.pcs| ==> s.pcs[t] == Idle
  }

  lemma LeadsReaches(first: State, s: State, s': State, t: nat, maxSize: nat)
    requires Reaches(first, s, maxSize) && Leads(s, s', t, maxSize)
    ensures Reaches(first, s', maxSize)
  {
    var run :| PathBy(run, s, s', t, maxSize);
    ReachesAlong(first, run, t, maxSize);
  }

  lemma {:induction false} ReachesAlong(first: State, run: seq<State>, t: nat, maxSize: nat)
    requires |run| > 0 && Reaches(first, run[0], maxSize)
    requires forall i :: 0 <= i < |run| - 1 ==> ThreadStep(run[i], run[i + 1], t, maxSize)
    ensures Reaches(first, run[|run| - 1], maxSize)
    decreases |run|
  {
    if |run| > 1 {
      ReachesAlong(first, run[..|run| - 1], t, maxSize);
      assert ThreadStep(run[|run| - 2], run[|run| - 2 + 1], t, maxSize);
      ReachStep(first, run[|run| - 2], run[|run| - 1], t, maxSize);
    }
  }

  /** With the lock free, the threads below `n` can all end their calls. */
  lemma {:induction false} BelowEnd(first: State, s: State, n: nat, maxSize: nat) returns (last: State)
    requires Reaches(first, s, maxSize) && s.lock == None && n <= |s.pcs|
    requires forall t :: 0 <= t < |s.pcs| ==> !HoldsLock(s.pcs[t])
    ensures Reaches(first, last, maxSize) && last.lock == None && |last.pcs| == |s.pcs|
    ensures forall t :: 0 <= t < |s.pcs| ==> last.pcs[t] == if t < n then Idle else s.pcs[t]
  {
    if n == 0 {
      last := s;
    } else {
      var mid := BelowEnd(first, s, n - 1, maxSize);
      CallEnds(mid, n - 1, maxSize);
      last :| Leads(mid, last, n - 1, maxSize) && Ended(mid, last, n - 1);
      LeadsReaches(first, mid, last, n - 1, maxSize);
    }
  }

  /** The lock names a thread of the pool. */
  lemma {:induction false} LockInRange(run: seq<State>, initialSize: nat, maxSize: nat)
    requires Execution(run, initialSize, maxSize)
    ensures var s := run[|run| - 1]; s.lock.Some? ==> s.lock.value < |s.pcs|
  {
    if |run| > 1 {
      var pre := run[..|run| - 1];
      forall i | 0 <= i < |pre| - 1
        ensures Next(pre[i], pre[i + 1], maxSize)
      {
        assert Next(run[i], run[i + 1], maxSize);
      }
      LockInRange(pre, initialSize, maxSize);
      var s, s' := run[|run| - 2], run[|run| - 1];
      assert Next(run[|run| - 2], run[|run| - 2 + 1], maxSize);
      var t: nat :| ThreadStep(s, s', t, maxSize);
      StepFrame(s, s', t, maxSize);
    }
  }

  /** From every reachable state all threads can end their calls: there is no deadlock. */
  lemma NoDeadlock(run: seq<State>, initialSize: nat, maxSize: nat) returns (last: State)
    requires Execution(run, initialSize, maxSize) && |run[0].pcs| > 0
    ensures Reaches(run[|run| - 1], last, maxSize) && AllIdle(last) && last.lock == None
  {
    ExecutionInv(run, initialSize, maxSize);
    LockInRange(run, initialSize, maxSize);
    var s := run[|run| - 1];
    ReachSelf(s, maxSize);
    var free := s;
    if t :| 0 <= t < |s.pcs| && HoldsLock(s.pcs[t]) {
      CallEnds(s, t, maxSize);
      free :| Leads(s, free, t, maxSize) && Ended(s, free, t);
      LeadsReaches(s, s, free, t, maxSize);
      assert forall u :: 0 <= u < |s.pcs| && HoldsLock(s.pcs[u]) ==> u == t;
    }
    last := BelowEnd(s, free, |free.pcs|, maxSize);
  }

  // ----- after shutdown

  /** In an acquire call. */
  predicate Acquiring(pc: Pc) {
    PastCheck(pc) || pc.Trying? || pc.Missed? || pc.MayCreate? || pc.Created?
  }

  /** Past the last look at the shutdown flag before the queue. */
  predicate PastCheck(pc: Pc) {
    pc.Getting? || pc.Popping? || pc.Dropping?
  }

  predicate NonePastCheck(s: State) {
    forall t :: 0 <= t < |s.pcs| ==> !PastCheck(s.pcs[t])
  }

  predicate NoneAcquiring(s: State) {
    forall t :: 0 <= t < |s.pcs| ==> !Acquiring(s.pcs[t])
  }

  ghost predicate Path(run: seq<State>, maxSize: nat) {
    |run| > 0 && forall i :: 0 <= i < |run| - 1 ==> Next(run[i], run[i + 1], maxSize)
  }

  lemma StepAfterShutdown(s: State, s': State, t: nat, maxSize: nat)
    requires s.shutdown && ThreadStep(s, s', t, maxSize)
    ensures s'.shutdown
    ensures s'.handles > s.handles ==> PastCheck(s.pcs[t]) || s.pcs[t] == Created
    ensures PastCheck(s'.pcs[t]) ==> PastCheck(s.pcs[t])
    ensures Acquiring(s'.pcs[t]) ==> Acquiring(s.pcs[t])
  {
  }

  /**
   * Once the pool is shut down and no acquire is past the check, none gets past it any more, so that only resources
   * just created are handed out; with no acquire under way at all, none is handed out.
   */
  lemma {:induction false} AfterShutdown(run: seq<State>, maxSize: nat)
    requires Path(run, maxSize) && run[0].shutdown
    ensures run[|run| - 1].shutdown
    ensures NonePastCheck(run[0]) ==> NonePastCheck(run[|run| - 1])
    ensures NoneAcquiring(run[0]) ==> NoneAcquiring(run[|run| - 1]) && run[|run| - 1].handles <= run[0].handles
  {
    if |run| > 1 {
      var pre := run[..|run| - 1];
      forall i | 0 <= i < |pre| - 1
        ensures Next(pre[i], pre[i + 1], maxSize)
      {
        assert Next(run[i], run[i + 1], maxSize);
      }
      AfterShutdown(pre, maxSize);
      var s, s' := run[|run| - 2], run[|run| - 1];
      assert Next(run[|run| - 2], run[|run| - 2 + 1], maxSize);
      var t: nat :| ThreadStep(s, s', t, maxSize);
      StepAfterShutdown(s, s', t, maxSize);
      StepFrame(s, s', t, maxSize);
    }
  }
}

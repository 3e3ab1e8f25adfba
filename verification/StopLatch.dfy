/**
  service-sample.c: the stop request latch. Any number of threads call svc_request_stop,
  svc_stop_requested and svc_wait_for_stop; their steps on the lock, the flag and the
  condition variable interleave freely.
 */
module StopLatch {
  import opened Types

  /** Where a thread is. `late` notes that the wait began after some request had completed. */
  datatype Pc =
    | Idle
    // svc_request_stop
    | ReqLock
    | ReqSet
    | ReqUnlock
    | ReqBroadcast
    // svc_stop_requested
    | AskLock(late: bool)
    | AskRead(late: bool)
    | AskUnlock(late: bool, seen: bool)
    // svc_wait_for_stop
    | WaitLock(late: bool)
    | WaitTest(late: bool)
    | Blocked(late: bool)
    | WaitRelock(late: bool)
    | WaitRead(late: bool)
    | WaitUnlock(late: bool, seen: bool)
    // the answer of either query
    | Returned(late: bool, answer: bool)

  datatype State = State(flag: bool, completed: bool, holder: Option<nat>, threads: seq<Pc>)

  /** What one step of one thread does to everything it can see. */
  datatype Action =
    | BeginRequest
    | BeginAsk
    | BeginWait
    | Run
    | WakeUp
    | Finish

  predicate HoldsLock(pc: Pc) {
    pc.ReqSet? || pc.ReqUnlock? || pc.AskRead? || pc.AskUnlock? || pc.WaitTest? || pc.WaitRead? || pc.WaitUnlock?
  }

  predicate WantsLock(pc: Pc) {
    pc.ReqLock? || pc.AskLock? || pc.WaitLock? || pc.WaitRelock?
  }

  /** A broadcast moves every blocked waiter on to taking the lock again. */
  function Wake(pc: Pc): Pc {
    if pc.Blocked? then WaitRelock(pc.late) else pc
  }

  /** The step thread `t` takes, or `None` when it cannot take it now. */
  function Step(s: State, t: nat, a: Action): Option<State>
    requires t < |s.threads|
  {
    var pc := s.threads[t];
    match a
    case BeginRequest => if pc.Idle? then Some(s.(threads := s.threads[t := ReqLock])) else None
    case BeginAsk => if pc.Idle? then Some(s.(threads := s.threads[t := AskLock(s.completed)])) else None
    case BeginWait => if pc.Idle? then Some(s.(threads := s.threads[t := WaitLock(s.completed)])) else None
    case Finish => if pc.Returned? then Some(s.(threads := s.threads[t := Idle])) else None
    case WakeUp =>
      // a time-out or a spurious wake-up
      if pc.Blocked? then Some(s.(threads := s.threads[t := WaitRelock(pc.late)])) else None
    case Run =>
      if WantsLock(pc) && s.holder.Some? then None
      else
        match pc
        case ReqLock => Some(s.(holder := Some(t), threads := s.threads[t := ReqSet]))
        case ReqSet => Some(s.(flag := true, threads := s.threads[t := ReqUnlock]))
        case ReqUnlock => Some(s.(holder := None, threads := s.threads[t := ReqBroadcast]))
        case ReqBroadcast =>
          Some(s.(completed := true,
                  threads := seq(|s.threads|, i requires 0 <= i < |s.threads| =>
                                 if i == t then Idle else Wake(s.threads[i]))))
        case AskLock(late) => Some(s.(holder := Some(t), threads := s.threads[t := AskRead(late)]))
        case AskRead(late) => Some(s.(threads := s.threads[t := AskUnlock(late, s.flag)]))
        case AskUnlock(late, seen) => Some(s.(holder := None, threads := s.threads[t := Returned(late, seen)]))
        case WaitLock(late) => Some(s.(holder := Some(t), threads := s.threads[t := WaitTest(late)]))
        case WaitTest(late) =>
          // the wait releases the lock and blocks in one step
          if s.flag then Some(s.(threads := s.threads[t := WaitRead(late)]))
          else Some(s.(holder := None, threads := s.threads[t := Blocked(late)]))
        case WaitRelock(late) => Some(s.(holder := Some(t), threads := s.threads[t := WaitRead(late)]))
        case WaitRead(late) => Some(s.(threads := s.threads[t := WaitUnlock(late, s.flag)]))
        case WaitUnlock(late, seen) => Some(s.(holder := None, threads := s.threads[t := Returned(late, seen)]))
        case _ => None
  }

  predicate Initial(s: State) {
    !s.flag && !s.completed && s.holder.None? && forall t :: 0 <= t < |s.threads| ==> s.threads[t] == Idle
  }

  /** A run: each state follows from the one before by some step of some thread. */
  ghost predicate IsRun(run: seq<State>) {
    run != [] && Initial(run[0]) && forall i :: 0 <= i < |run| - 1 ==> Next(run[i], run[i + 1])
  }

  ghost predicate Next(s: State, after: State) {
    exists t, a :: 0 <= t < |s.threads| && Step(s, t, a) == Some(after)
  }

  // ---- What every reachable state satisfies ----

  /** A requester that has set the flag and not yet broadcast. */
  predicate AboutToBroadcast(pc: Pc) {
    pc.ReqUnlock? || pc.ReqBroadcast?
  }

  /** The lock is held by exactly the thread that is inside. */
  ghost predicate LockExact(s: State) {
    forall t :: 0 <= t < |s.threads| ==> LockExactAt(s, t)
  }

  predicate LockExactAt(s: State, t: nat)
    requires t < |s.threads|
  {
    HoldsLock(s.threads[t]) <==> s.holder == Some(t)
  }

  /** No stop request is lost: a waiter blocked under a set flag has a broadcast coming. */
  ghost predicate NoLostStop(s: State) {
    s.flag && (exists t :: 0 <= t < |s.threads| && s.threads[t].Blocked?) ==>
      exists r :: 0 <= r < |s.threads| && AboutToBroadcast(s.threads[r])
  }

  predicate IsLate(pc: Pc) {
    (pc.AskLock? || pc.AskRead? || pc.AskUnlock? || pc.WaitLock? || pc.WaitTest? || pc.Blocked? || pc.WaitRelock?
     || pc.WaitRead? || pc.WaitUnlock? || pc.Returned?) && pc.late
  }

  predicate Answered(pc: Pc) {
    (pc.AskUnlock? || pc.WaitUnlock? ==> pc.seen) && (pc.Returned? ==> pc.answer)
  }

  /** The flag is set once a request has completed or is about to broadcast, and late queries see it. */
  ghost predicate FlagSeen(s: State) {
    && (s.completed ==> s.flag)
    && (forall t :: 0 <= t < |s.threads| ==>
          && (AboutToBroadcast(s.threads[t]) ==> s.flag)
          && (IsLate(s.threads[t]) ==> s.flag && Answered(s.threads[t]) && !s.threads[t].Blocked?))
  }

  ghost predicate Inv(s: State) {
    LockExact(s) && NoLostStop(s) && FlagSeen(s)
  }

  lemma StepKeepsLock(s: State, t: nat, a: Action)
    requires t < |s.threads| && Step(s, t, a).Some? && LockExact(s)
    ensures LockExact(Step(s, t, a).value)
  {
    var after := Step(s, t, a).value;
    assert LockExactAt(s, t) && LockExactAt(after, t);
    forall u | 0 <= u < |after.threads| && u != t ensures LockExactAt(after, u) {
      assert LockExactAt(s, u);
    }
  }

  lemma StepKeepsFlag(s: State, t: nat, a: Action)
    requires t < |s.threads| && Step(s, t, a).Some? && FlagSeen(s)
    ensures FlagSeen(Step(s, t, a).value) && (s.flag ==> Step(s, t, a).value.flag)
    ensures |Step(s, t, a).value.threads| == |s.threads|
  {
  }

  lemma StepKeepsStops(s: State, t: nat, a: Action)
    requires t < |s.threads| && Step(s, t, a).Some? && NoLostStop(s)
    ensures NoLostStop(Step(s, t, a).value)
  {
    var after := Step(s, t, a).value;
    if after.flag && exists b :: 0 <= b < |after.threads| && after.threads[b].Blocked? {
      var b :| 0 <= b < |after.threads| && after.threads[b].Blocked?;
      if s.flag {
        assert s.threads[b].Blocked?;
        var r :| 0 <= r < |s.threads| && AboutToBroadcast(s.threads[r]);
        assert AboutToBroadcast(after.threads[r]);
      } else {
        assert AboutToBroadcast(after.threads[t]);
      }
    }
  }

  /** In every state of every run the lock is exact, no stop is lost, and late queries answer 1. */
  lemma {:induction false} RunsKeepInvariant(run: seq<State>, i: nat)
    requires IsRun(run) && i < |run|
    ensures Inv(run[i])
    decreases i
  {
    if i > 0 {
      RunsKeepInvariant(run, i - 1);
      assert Next(run[i - 1], run[i]);
      var t, a :| 0 <= t < |run[i - 1].threads| && Step(run[i - 1], t, a) == Some(run[i]);
      StepKeepsLock(run[i - 1], t, a);
      StepKeepsFlag(run[i - 1], t, a);
      StepKeepsStops(run[i - 1], t, a);
    }
  }

  /** No step clears the flag. */
  lemma NextKeepsFlag(s: State, after: State)
    requires Next(s, after) && s.flag
    ensures after.flag
  {
  }

  /** The flag never clears. */
  lemma {:induction false} FlagIsSticky(run: seq<State>, i: nat, j: nat)
    requires IsRun(run) && i <= j < |run| && run[i].flag
    ensures run[j].flag
    decreases j
  {
    if i < j {
      FlagIsSticky(run, i, j - 1);
      NextKeepsFlag(run[j - 1], run[j]);
    }
  }

  /** A waiter that is blocked although a stop was requested will be woken: the broadcast is still to come. */
  lemma NoWaiterIsForgotten(run: seq<State>, i: nat, t: nat)
    requires IsRun(run) && i < |run| && t < |run[i].threads| && run[i].threads[t].Blocked? && run[i].flag
    ensures exists r :: 0 <= r < |run[i].threads| && AboutToBroadcast(run[i].threads[r])
  {
    RunsKeepInvariant(run, i);
  }

  /** A requester past the flag can always go on, and its broadcast leaves nobody blocked. */
  lemma BroadcastWakesEveryone(s: State, r: nat)
    requires r < |s.threads| && AboutToBroadcast(s.threads[r])
    ensures Step(s, r, Run).Some?
    ensures var after := Step(s, r, Run).value;
            if s.threads[r].ReqUnlock? then |after.threads| == |s.threads| && after.threads[r].ReqBroadcast?
            else after.completed && forall t :: 0 <= t < |after.threads| ==> !after.threads[t].Blocked?
  {
  }

  /** A query or wait begun after a completed request never blocks and answers 1. */
  lemma LateCallsAnswerOne(run: seq<State>, i: nat, t: nat)
    requires IsRun(run) && i < |run| && t < |run[i].threads| && IsLate(run[i].threads[t])
    ensures !run[i].threads[t].Blocked?
    ensures run[i].threads[t].Returned? ==> run[i].threads[t].answer
  {
    RunsKeepInvariant(run, i);
  }

  // ---- What a call answers ----

  /** What a query has seen, once it has read the flag. */
  function Seen(pc: Pc): Option<bool> {
    match pc
    case AskUnlock(_, seen) => Some(seen)
    case WaitUnlock(_, seen) => Some(seen)
    case Returned(_, answer) => Some(answer)
    case _ => None
  }

  /** Thread `t` is reading the flag at moment `j`, and from then to moment `i` it is in the same call. */
  ghost predicate ReadAt(run: seq<State>, j: nat, i: nat, t: nat) {
    && j < i < |run| && t < |run[j].threads|
    && (run[j].threads[t].AskRead? || run[j].threads[t].WaitRead?)
    && forall m :: j < m <= i ==> t < |run[m].threads| && Seen(run[m].threads[t]) == Some(run[j].flag)
  }

  lemma SeenStep(s: State, after: State, t: nat)
    requires Next(s, after) && t < |after.threads| && Seen(after.threads[t]).Some?
    ensures t < |s.threads|
    ensures Seen(s.threads[t]) == Seen(after.threads[t])
            || ((s.threads[t].AskRead? || s.threads[t].WaitRead?) && Seen(after.threads[t]) == Some(s.flag))
  {
  }

  /** The answer of a query or wait is what the flag was at one moment within that call, when it held the lock. */
  lemma {:induction false} AnswerIsTheFlagRead(run: seq<State>, i: nat, t: nat) returns (j: nat)
    requires IsRun(run) && i < |run| && t < |run[i].threads| && Seen(run[i].threads[t]).Some?
    ensures ReadAt(run, j, i, t) && run[j].holder == Some(t)
    decreases i
  {
    assert Next(run[i - 1], run[i]);
    SeenStep(run[i - 1], run[i], t);
    if Seen(run[i - 1].threads[t]) == Seen(run[i].threads[t]) {
      j := AnswerIsTheFlagRead(run, i - 1, t);
    } else {
      j := i - 1;
      RunsKeepInvariant(run, j);
      assert LockExactAt(run[j], t);
    }
  }

  /** Some request has completed or is about to broadcast. */
  ghost predicate Requested(s: State) {
    s.completed || exists r :: 0 <= r < |s.threads| && AboutToBroadcast(s.threads[r])
  }

  lemma RequestRemains(s: State, t: nat, a: Action)
    requires t < |s.threads| && Step(s, t, a).Some? && (s.flag ==> Requested(s))
    ensures Step(s, t, a).value.flag ==> Requested(Step(s, t, a).value)
  {
    var after := Step(s, t, a).value;
    if s.flag && !s.completed {
      var r :| 0 <= r < |s.threads| && AboutToBroadcast(s.threads[r]);
      assert after.completed || AboutToBroadcast(after.threads[r]);
    } else if after.flag && !s.flag {
      assert AboutToBroadcast(after.threads[t]);
    }
  }

  /** The flag is set exactly from the moment some request has set it. */
  lemma {:induction false} FlagMeansRequested(run: seq<State>, i: nat)
    requires IsRun(run) && i < |run|
    ensures run[i].flag <==> Requested(run[i])
    decreases i
  {
    RunsKeepInvariant(run, i);
    if i > 0 {
      FlagMeansRequested(run, i - 1);
      assert Next(run[i - 1], run[i]);
      var t, a :| 0 <= t < |run[i - 1].threads| && Step(run[i - 1], t, a) == Some(run[i]);
      RequestRemains(run[i - 1], t, a);
    }
  }

  /** As long as no stop was requested, no query and no wait answers 1. */
  lemma NoRequestNoAnswer(run: seq<State>, i: nat, t: nat)
    requires IsRun(run) && i < |run| && t < |run[i].threads| && run[i].threads[t].Returned?
    ensures !Requested(run[i]) ==> !run[i].threads[t].answer
  {
    var j := AnswerIsTheFlagRead(run, i, t);
    FlagMeansRequested(run, i);
    if run[j].flag {
      FlagIsSticky(run, j, i);
    }
  }

  /** Two threads are never inside the lock together. */
  lemma MutualExclusion(run: seq<State>, i: nat, t: nat, u: nat)
    requires IsRun(run) && i < |run| && t < |run[i].threads| && u < |run[i].threads|
    requires HoldsLock(run[i].threads[t]) && HoldsLock(run[i].threads[u])
    ensures t == u
  {
    RunsKeepInvariant(run, i);
    assert LockExactAt(run[i], t) && LockExactAt(run[i], u);
  }
}

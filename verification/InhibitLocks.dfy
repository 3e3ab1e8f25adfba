/**
  service-sample_linux_events.c: the delay inhibitor locks of the monitor thread, from
  setup over any signals to thread exit.
 */
module InhibitLocks {
  import opened Types

  /** A logind signal as its handler reads it; `acquired` is the lock a re-acquisition would get. */
  datatype Signal =
    | Unreadable
    | PrepareForSleep(starting: bool, acquired: Option<nat>)
    | PrepareForShutdown(starting: bool, acquired: Option<nat>)

  datatype Event = Suspend | Resume | PreShutdown

  datatype Lock = SleepLock | ShutdownLock

  /** What an outside observer sees, in order. */
  datatype Entry = Dispatched(event: Event) | Taken(lock: Lock, fd: nat) | Released(lock: Lock, fd: nat)

  /** The two lock fields, the lock descriptors that are open, and what has happened so far. */
  datatype Ledger = Ledger(sleep: Option<nat>, shutdown: Option<nat>, open: set<nat>, log: seq<Entry>)

  function FdSet(o: Option<nat>): set<nat> {
    if o.Some? then {o.value} else {}
  }

  /** Descriptors in the lock fields. */
  function Held(l: Ledger): set<nat> {
    FdSet(l.sleep) + FdSet(l.shutdown)
  }

  /** The open lock descriptors are exactly the non-negative lock fields. */
  predicate Exact(l: Ledger) {
    l.open == Held(l) && (l.sleep.Some? ==> l.sleep != l.shutdown)
  }

  /** Open lock descriptors that no field holds any more. */
  function Lost(l: Ledger): set<nat> {
    l.open - Held(l)
  }

  // ---- What the handlers do ----

  function Dispatch(l: Ledger, e: Event): Ledger {
    l.(log := l.log + [Dispatched(e)])
  }

  function TakeSleep(l: Ledger, fd: Option<nat>): Ledger {
    match fd
    case None => l.(sleep := None)
    case Some(n) => l.(sleep := fd, open := l.open + {n}, log := l.log + [Taken(SleepLock, n)])
  }

  function TakeShutdown(l: Ledger, fd: Option<nat>): Ledger {
    match fd
    case None => l.(shutdown := None)
    case Some(n) => l.(shutdown := fd, open := l.open + {n}, log := l.log + [Taken(ShutdownLock, n)])
  }

  function ReleaseSleep(l: Ledger): Ledger {
    match l.sleep
    case None => l
    case Some(n) => l.(sleep := None, open := l.open - {n}, log := l.log + [Released(SleepLock, n)])
  }

  function ReleaseShutdown(l: Ledger): Ledger {
    match l.shutdown
    case None => l
    case Some(n) => l.(shutdown := None, open := l.open - {n}, log := l.log + [Released(ShutdownLock, n)])
  }

  /** `on_prepare_for_sleep` and `on_prepare_for_shutdown`. */
  function Handle(l: Ledger, s: Signal): Ledger {
    match s
    case Unreadable => l
    case PrepareForSleep(starting, fd) =>
      if starting then ReleaseSleep(Dispatch(l, Suspend)) else TakeSleep(Dispatch(l, Resume), fd)
    case PrepareForShutdown(starting, fd) =>
      if starting then ReleaseShutdown(Dispatch(l, PreShutdown))
      else if l.shutdown.None? then TakeShutdown(l, fd) else l
  }

  /** The ledger with these fields and open locks, after these further entries. */
  predicate Becomes(l: Ledger, after: Ledger, sleep: Option<nat>, shutdown: Option<nat>, open: set<nat>,
                    entries: seq<Entry>) {
    after.sleep == sleep && after.shutdown == shutdown && after.open == open && after.log == l.log + entries
  }

  /** A suspend is announced and then the sleep lock released; a resume is announced and then a lock taken again. */
  lemma SleepSignals(l: Ledger, starting: bool, fd: Option<nat>)
    ensures var after := Handle(l, PrepareForSleep(starting, fd));
            if starting then
              match l.sleep
              case None => Becomes(l, after, None, l.shutdown, l.open, [Dispatched(Suspend)])
              case Some(n) =>
                Becomes(l, after, None, l.shutdown, l.open - {n}, [Dispatched(Suspend), Released(SleepLock, n)])
            else
              match fd
              case None => Becomes(l, after, None, l.shutdown, l.open, [Dispatched(Resume)])
              case Some(n) =>
                Becomes(l, after, fd, l.shutdown, l.open + {n}, [Dispatched(Resume), Taken(SleepLock, n)])
  {
  }

  /**
    A shutdown is announced and then its lock released; a cancelled one is not announced, and
    takes a lock only where none is held. An unreadable signal changes nothing.
   */
  lemma ShutdownSignals(l: Ledger, starting: bool, fd: Option<nat>)
    ensures Handle(l, Unreadable) == l
    ensures var after := Handle(l, PrepareForShutdown(starting, fd));
            if starting then
              match l.shutdown
              case None => Becomes(l, after, l.sleep, None, l.open, [Dispatched(PreShutdown)])
              case Some(n) =>
                Becomes(l, after, l.sleep, None, l.open - {n}, [Dispatched(PreShutdown), Released(ShutdownLock, n)])
            else if l.shutdown.Some? || fd.None? then after == l
            else Becomes(l, after, l.sleep, fd, l.open + {fd.value}, [Taken(ShutdownLock, fd.value)])
  {
  }

  /** The two acquisitions of `setup_bus_monitoring`. */
  function Setup(sleep: Option<nat>, shutdown: Option<nat>): Ledger {
    TakeShutdown(TakeSleep(Ledger(None, None, {}, []), sleep), shutdown)
  }

  /** Each acquisition that succeeds fills its field and is open; the fields are otherwise empty. */
  lemma SetupTakes(sleep: Option<nat>, shutdown: Option<nat>)
    ensures var l := Setup(sleep, shutdown);
            && l.sleep == sleep && l.shutdown == shutdown
            && forall fd :: fd in l.open <==> sleep == Some(fd) || shutdown == Some(fd)
  {
  }

  /** The ledger after the first `n` signals. */
  function After(l: Ledger, signals: seq<Signal>, n: nat): Ledger
    requires n <= |signals|
  {
    if n == 0 then l else Handle(After(l, signals, n - 1), signals[n - 1])
  }

  /** `release_inhibit_locks`, at thread exit or when the bus cannot be attached. */
  function ReleaseAll(l: Ledger): Ledger {
    ReleaseShutdown(ReleaseSleep(l))
  }

  // ---- Assumptions about the system ----

  function Offered(s: Signal): Option<nat> {
    match s
    case Unreadable => None
    case PrepareForSleep(_, fd) => fd
    case PrepareForShutdown(_, fd) => fd
  }

  /** A new lock descriptor is never one that is still open. */
  predicate FreshOffer(l: Ledger, s: Signal) {
    Offered(s).Some? ==> Offered(s).value !in l.open
  }

  predicate FreshOffers(l: Ledger, signals: seq<Signal>, n: nat)
    requires n <= |signals|
  {
    forall i :: 0 <= i < n ==> FreshOffer(After(l, signals, i), signals[i])
  }

  /** A resume arrives while the sleep lock is still held, and a new lock replaces or empties the field. */
  predicate Overwrites(l: Ledger, s: Signal) {
    s.PrepareForSleep? && !s.starting && l.sleep.Some?
  }

  // ---- The ledger over whole runs ----

  lemma HandleExact(l: Ledger, s: Signal)
    requires Exact(l) && FreshOffer(l, s)
    ensures Exact(Handle(l, s)) <==> !Overwrites(l, s)
    ensures Held(Handle(l, s)) <= Handle(l, s).open
  {
  }

  /** Once a descriptor has dropped out of the fields it stays open for ever. */
  lemma LostStaysLost(l: Ledger, s: Signal, fd: nat)
    requires FreshOffer(l, s) && fd in l.open && fd !in Held(l)
    ensures fd in Handle(l, s).open && fd !in Held(Handle(l, s))
  {
  }

  predicate NeverOverwrites(l: Ledger, signals: seq<Signal>, n: nat)
    requires n <= |signals|
  {
    forall i :: 0 <= i < n ==> !Overwrites(After(l, signals, i), signals[i])
  }

  /**
    Over any run of signals, with acquisitions failing arbitrarily, the open locks are
    exactly the lock fields if and only if no resume ever arrived while the sleep lock
    was held; and only then does thread exit leave no lock open.
   */
  lemma {:induction false} LedgerExactIff(l: Ledger, signals: seq<Signal>, n: nat)
    requires n <= |signals| && Exact(l) && FreshOffers(l, signals, n)
    ensures Exact(After(l, signals, n)) <==> NeverOverwrites(l, signals, n)
    ensures Exact(After(l, signals, n)) || Lost(After(l, signals, n)) != {}
    ensures ReleaseAll(After(l, signals, n)).open == {} <==> NeverOverwrites(l, signals, n)
    decreases n
  {
    if n > 0 {
      LedgerExactIff(l, signals, n - 1);
      var before, s := After(l, signals, n - 1), signals[n - 1];
      assert FreshOffer(before, s);
      NeverOverwritesStep(l, signals, n);
      if Exact(before) {
        NextSignal(before, s);
      } else {
        LeakSurvives(before, s);
      }
    }
    ExitLeavesTheLost(After(l, signals, n));
  }

  lemma NeverOverwritesStep(l: Ledger, signals: seq<Signal>, n: nat)
    requires 0 < n <= |signals|
    ensures NeverOverwrites(l, signals, n)
            <==> NeverOverwrites(l, signals, n - 1) && !Overwrites(After(l, signals, n - 1), signals[n - 1])
  {
  }

  /** One signal on an exact ledger: still exact, or a lock has been dropped. */
  lemma NextSignal(l: Ledger, s: Signal)
    requires Exact(l) && FreshOffer(l, s)
    ensures if Overwrites(l, s) then Lost(Handle(l, s)) != {} else Exact(Handle(l, s))
  {
    HandleExact(l, s);
    if Overwrites(l, s) {
      assert l.sleep.value in Lost(Handle(l, s));
    }
  }

  lemma LeakSurvives(l: Ledger, s: Signal)
    requires FreshOffer(l, s) && Lost(l) != {}
    ensures Lost(Handle(l, s)) != {}
  {
    var fd :| fd in Lost(l);
    LostStaysLost(l, s, fd);
    assert fd in Lost(Handle(l, s));
  }

  /** What thread exit leaves open is exactly what was dropped. */
  lemma ExitLeavesTheLost(l: Ledger)
    ensures ReleaseAll(l).open == Lost(l)
  {
  }

  // ---- Alternating signals ----

  /** What the next successfully read PrepareForSleep must say. */
  function ExpectStart(signals: seq<Signal>, n: nat): bool
    requires n <= |signals|
  {
    if n == 0 then true
    else if signals[n - 1].PrepareForSleep? then !signals[n - 1].starting
    else ExpectStart(signals, n - 1)
  }

  /** Read PrepareForSleep signals alternate, the first one announcing a suspend. */
  predicate Alternates(signals: seq<Signal>) {
    forall i :: 0 <= i < |signals| && signals[i].PrepareForSleep? ==> signals[i].starting == ExpectStart(signals, i)
  }

  lemma {:induction false} NoLockWhileSuspended(l: Ledger, signals: seq<Signal>, n: nat)
    requires n <= |signals| && Alternates(signals) && !ExpectStart(signals, n)
    ensures After(l, signals, n).sleep.None?
    decreases n
  {
    if n > 0 && !signals[n - 1].PrepareForSleep? {
      NoLockWhileSuspended(l, signals, n - 1);
    }
  }

  /** With alternating suspend signals nothing leaks; shutdown signals may come in any order. */
  lemma AlternationKeepsLedger(sleep: Option<nat>, shutdown: Option<nat>, signals: seq<Signal>)
    requires sleep.Some? ==> sleep != shutdown
    requires Alternates(signals) && FreshOffers(Setup(sleep, shutdown), signals, |signals|)
    ensures var l := Setup(sleep, shutdown);
            && (forall n :: 0 <= n <= |signals| ==> Exact(After(l, signals, n)))
            && ReleaseAll(After(l, signals, |signals|)).open == {}
  {
    var l := Setup(sleep, shutdown);
    forall i | 0 <= i < |signals| ensures !Overwrites(After(l, signals, i), signals[i]) {
      if !ExpectStart(signals, i) {
        NoLockWhileSuspended(l, signals, i);
      }
    }
    forall n | 0 <= n <= |signals| ensures Exact(After(l, signals, n)) {
      assert FreshOffers(l, signals, n) && NeverOverwrites(l, signals, n);
      LedgerExactIff(l, signals, n);
    }
    LedgerExactIff(l, signals, |signals|);
  }

  /** One resume with a new lock while the first is held: the first lock outlives the thread. */
  lemma StrayResumeLeaks()
    ensures var l, signals := Setup(Some(3), Some(4)), [PrepareForSleep(false, Some(5))];
            FreshOffers(l, signals, 1) && ReleaseAll(After(l, signals, 1)).open == {3}
  {
    var l, signals := Setup(Some(3), Some(4)), [PrepareForSleep(false, Some(5))];
    assert After(l, signals, 0) == l && l.open == {3, 4};
    var after := Handle(l, signals[0]);
    assert After(l, signals, 1) == after && after.open == {3, 4, 5} && Held(after) == {4, 5};
    ExitLeavesTheLost(after);
  }

  // ---- Every announcement is dispatched ----

  /** The events dispatched so far. */
  function Events(log: seq<Entry>): seq<Event> {
    if log == [] then []
    else Events(log[..|log| - 1]) + if log[|log| - 1].Dispatched? then [log[|log| - 1].event] else []
  }

  /** What a signal announces: suspends, resumes and shutdowns, but not that a shutdown was cancelled. */
  function Announces(s: Signal): seq<Event> {
    match s
    case PrepareForSleep(true, _) => [Suspend]
    case PrepareForSleep(false, _) => [Resume]
    case PrepareForShutdown(true, _) => [PreShutdown]
    case _ => []
  }

  function Announced(signals: seq<Signal>, n: nat): seq<Event>
    requires n <= |signals|
  {
    if n == 0 then [] else Announced(signals, n - 1) + Announces(signals[n - 1])
  }

  lemma EventsOfOne(log: seq<Entry>, e: Entry)
    ensures Events(log + [e]) == Events(log) + if e.Dispatched? then [e.event] else []
  {
    assert (log + [e])[..|log|] == log;
  }

  lemma SleepDispatches(l: Ledger, starting: bool, fd: Option<nat>)
    ensures Events(Handle(l, PrepareForSleep(starting, fd)).log)
            == Events(l.log) + [if starting then Suspend else Resume]
  {
    var e := Dispatched(if starting then Suspend else Resume);
    SleepSignals(l, starting, fd);
    EventsOfOne(l.log, e);
    if starting && l.sleep.Some? {
      EventsOfOne(l.log + [e], Released(SleepLock, l.sleep.value));
    } else if !starting && fd.Some? {
      EventsOfOne(l.log + [e], Taken(SleepLock, fd.value));
    }
  }

  lemma ShutdownDispatches(l: Ledger, starting: bool, fd: Option<nat>)
    ensures Events(Handle(l, PrepareForShutdown(starting, fd)).log)
            == Events(l.log) + if starting then [PreShutdown] else []
  {
    var e := Dispatched(PreShutdown);
    ShutdownSignals(l, starting, fd);
    EventsOfOne(l.log, e);
    if starting && l.shutdown.Some? {
      EventsOfOne(l.log + [e], Released(ShutdownLock, l.shutdown.value));
    } else if !starting && fd.Some? {
      EventsOfOne(l.log, Taken(ShutdownLock, fd.value));
    }
  }

  lemma SignalDispatches(l: Ledger, s: Signal)
    ensures Events(Handle(l, s).log) == Events(l.log) + Announces(s)
  {
    match s
    case Unreadable =>
    case PrepareForSleep(starting, fd) => SleepDispatches(l, starting, fd);
    case PrepareForShutdown(starting, fd) => ShutdownDispatches(l, starting, fd);
  }

  lemma NextEvents(l: Ledger, s: Signal, first: seq<Event>, rest: seq<Event>)
    requires Events(l.log) == first + rest
    ensures Events(Handle(l, s).log) == first + (rest + Announces(s))
  {
    SignalDispatches(l, s);
  }

  /** Over any run the application is told of every suspend, resume and shutdown, in order and once each. */
  lemma {:induction false} EventsFollowSignals(l: Ledger, signals: seq<Signal>, n: nat)
    requires n <= |signals|
    ensures Events(After(l, signals, n).log) == Events(l.log) + Announced(signals, n)
    decreases n
  {
    assert Events(l.log) + [] == Events(l.log);
    if n > 0 {
      EventsFollowSignals(l, signals, n - 1);
      NextEvents(After(l, signals, n - 1), signals[n - 1], Events(l.log), Announced(signals, n - 1));
    }
  }

  /** No field holds a closed descriptor, and the two fields hold different ones. */
  predicate Backed(l: Ledger) {
    Held(l) <= l.open && (l.sleep.Some? ==> l.sleep != l.shutdown)
  }

  lemma SignalKeepsBacked(l: Ledger, s: Signal)
    requires Backed(l) && FreshOffer(l, s)
    ensures Backed(Handle(l, s))
  {
  }

  lemma {:induction false} FieldsStayBacked(l: Ledger, signals: seq<Signal>, n: nat)
    requires n <= |signals| && Backed(l) && FreshOffers(l, signals, n)
    ensures Backed(After(l, signals, n))
    decreases n
  {
    if n > 0 {
      FieldsStayBacked(l, signals, n - 1);
      SignalKeepsBacked(After(l, signals, n - 1), signals[n - 1]);
    }
  }

  /** A lock taken again at a resume is held, open, until the next signal about sleep. */
  lemma {:induction false} LockHeldWhileAwake(l: Ledger, signals: seq<Signal>, i: nat, n: nat, fd: nat)
    requires i < n <= |signals| && Backed(l) && FreshOffers(l, signals, n)
    requires signals[i] == PrepareForSleep(false, Some(fd))
    requires forall j :: i < j < n ==> !signals[j].PrepareForSleep?
    ensures After(l, signals, n).sleep == Some(fd) && fd in After(l, signals, n).open
    decreases n
  {
    FieldsStayBacked(l, signals, n);
    if n > i + 1 {
      LockHeldWhileAwake(l, signals, i, n - 1, fd);
    }
  }

  // ---- Dispatch comes before release ----

  /** Entry `k` is a release right after the dispatch of the event that calls for it. */
  predicate ReleasedAfterDispatch(log: seq<Entry>, k: nat)
    requires k < |log|
  {
    match log[k]
    case Released(SleepLock, _) => k > 0 && log[k - 1] == Dispatched(Suspend)
    case Released(ShutdownLock, _) => k > 0 && log[k - 1] == Dispatched(PreShutdown)
    case _ => true
  }

  /** While signals are handled, a lock is released only right after its event was dispatched. */
  lemma {:induction false} ReleaseFollowsDispatch(l: Ledger, signals: seq<Signal>, n: nat, k: nat)
    requires n <= |signals| && |l.log| <= k < |After(l, signals, n).log|
    ensures ReleasedAfterDispatch(After(l, signals, n).log, k)
    decreases n
  {
    if n > 0 {
      var before := After(l, signals, n - 1);
      assert before.log <= After(l, signals, n).log;
      if k < |before.log| {
        ReleaseFollowsDispatch(l, signals, n - 1, k);
      }
    }
  }

  // ---- The handlers as they run ----

  /** The lock half of the monitor thread's context; a field of -1 holds no lock. */
  class LockFields {
    var sleepFd: int
    var shutdownFd: int
    var open: set<nat>
    var log: seq<Entry>

    function View(): Ledger
      reads this
    {
      Ledger(if sleepFd >= 0 then Some(sleepFd as nat) else None,
             if shutdownFd >= 0 then Some(shutdownFd as nat) else None, open, log)
    }

    constructor ()
      ensures View() == Ledger(None, None, {}, [])
    {
      sleepFd, shutdownFd, open, log := -1, -1, {}, [];
    }

    method DispatchEvent(e: Event)
      modifies this`log
      ensures log == old(log) + [Dispatched(e)]
    {
      log := log + [Dispatched(e)];
    }

    /** `acquire_inhibit_lock`: -1 on any failure. */
    method Acquire(what: Lock, answer: Option<nat>) returns (fd: int)
      modifies this`open, this`log
      ensures fd == if answer.Some? then answer.value else -1
      ensures open == old(open) + FdSet(answer)
      ensures log == if answer.Some? then old(log) + [Taken(what, answer.value)] else old(log)
    {
      if answer.None? {
        return -1;
      }
      open := open + {answer.value};
      log := log + [Taken(what, answer.value)];
      return answer.value;
    }

    method Close(what: Lock, fd: nat)
      modifies this`open, this`log
      ensures open == old(open) - {fd} && log == old(log) + [Released(what, fd)]
    {
      open := open - {fd};
      log := log + [Released(what, fd)];
    }

    /** `release_inhibit_locks`. */
    method ReleaseInhibitLocks()
      modifies this
      ensures View() == ReleaseAll(old(View()))
    {
      if sleepFd >= 0 {
        Close(SleepLock, sleepFd as nat);
        sleepFd := -1;
      }
      if shutdownFd >= 0 {
        Close(ShutdownLock, shutdownFd as nat);
        shutdownFd := -1;
      }
    }

    method OnPrepareForSleep(starting: bool, answer: Option<nat>)
      modifies this
      ensures View() == Handle(old(View()), PrepareForSleep(starting, answer))
    {
      if starting {
        DispatchEvent(Suspend);
        if sleepFd >= 0 {
          Close(SleepLock, sleepFd as nat);
          sleepFd := -1;
        }
      } else {
        DispatchEvent(Resume);
        sleepFd := Acquire(SleepLock, answer);
      }
    }

    method OnPrepareForShutdown(starting: bool, answer: Option<nat>)
      modifies this
      ensures View() == Handle(old(View()), PrepareForShutdown(starting, answer))
    {
      if starting {
        DispatchEvent(PreShutdown);
        if shutdownFd >= 0 {
          Close(ShutdownLock, shutdownFd as nat);
          shutdownFd := -1;
        }
      } else if shutdownFd < 0 {
        shutdownFd := Acquire(ShutdownLock, answer);
      }
    }

    /** The event loop, as far as it calls the two handlers. */
    method HandleSignals(signals: seq<Signal>)
      modifies this
      ensures View() == After(old(View()), signals, |signals|)
    {
      for i := 0 to |signals|
        invariant View() == After(old(View()), signals, i)
      {
        match signals[i] {
          case Unreadable =>
          case PrepareForSleep(starting, answer) => OnPrepareForSleep(starting, answer);
          case PrepareForShutdown(starting, answer) => OnPrepareForShutdown(starting, answer);
        }
      }
    }

    /**
      The life of the locks in `events_thread_func`: setup if the bus opens, the signals
      if it can be attached, and the release at thread exit.
     */
    method MonitorThread(busOpens: bool, attaches: bool, sleep: Option<nat>, shutdown: Option<nat>,
                         signals: seq<Signal>)
      requires View() == Ledger(None, None, {}, [])
      requires sleep.Some? ==> sleep != shutdown
      requires FreshOffers(Setup(sleep, shutdown), signals, |signals|)
      modifies this
      ensures View().sleep.None? && View().shutdown.None?
      ensures View().open == {} <==>
                !busOpens || !attaches || NeverOverwrites(Setup(sleep, shutdown), signals, |signals|)
      ensures Alternates(signals) ==> View().open == {}
      ensures busOpens && attaches ==> View() == ReleaseAll(After(Setup(sleep, shutdown), signals, |signals|))
      ensures busOpens && !attaches ==> View() == ReleaseAll(Setup(sleep, shutdown))
    {
      ghost var l := Setup(sleep, shutdown);
      if Alternates(signals) {
        AlternationKeepsLedger(sleep, shutdown, signals);
      }
      LedgerExactIff(l, signals, |signals|);
      if busOpens {
        sleepFd := Acquire(SleepLock, sleep);
        shutdownFd := Acquire(ShutdownLock, shutdown);
        assert View() == l;
        if !attaches {
          ReleaseInhibitLocks();
        } else {
          HandleSignals(signals);
        }
      }
      ReleaseInhibitLocks();
      assert Exact(After(l, signals, 0));
    }
  }
}

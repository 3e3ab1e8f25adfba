/**
  service-sample_linux_events.c: starting and stopping the event monitor, and the life of
  its descriptors and of the SIGHUP handler.
 */
module LinuxEvents {
  import opened Types

  /** The process's SIGHUP disposition: the monitor's handler, or whatever was there before. */
  datatype Handler = Forwarder | Other(id: nat)

  /** What a SIGHUP delivered at some moment would meet. */
  datatype Moment = Moment(handler: Handler, reloadFd: int, open: set<nat>)

  /** The signal handler, if it runs, finds no descriptor or an open one. */
  predicate SafeForSignal(m: Moment) {
    m.handler.Forwarder? ==> m.reloadFd < 0 || (m.reloadFd as nat) in m.open
  }

  /** A service definition, as far as the monitor's start looks at it. */
  datatype Definition = Definition(hasReload: bool)

  /** Which of the system calls of one start succeed. */
  datatype Outcome = Outcome(stopFd: bool, reloadFd: bool, sigaction: bool, thread: bool)

  datatype Call = Start(def: Option<Definition>, outcome: Outcome) | Stop

  /** Some descriptor is always free. */
  lemma {:induction false} FreeDescriptor(open: set<nat>) returns (fd: nat)
    ensures forall n <- open :: n < fd
  {
    if open == {} {
      fd := 0;
    } else {
      var n :| n in open;
      var rest := FreeDescriptor(open - {n});
      fd := if rest <= n then n + 1 else rest;
      assert forall m :: m in open ==> m == n || m in open - {n};
    }
  }

  class EventMonitor {
    // the static state of the file
    var def: Option<Definition>
    var thread: bool
    var stopFd: int
    var reloadFd: int
    var sighupInstalled: bool
    var oldAction: Handler

    // the process around it
    var open: set<nat>
    var handler: Handler

    /** Every moment at which a signal could have been delivered, in order. */
    ghost var moments: seq<Moment>

    /** The disposition before the monitor ever ran, and the descriptors it does not own. */
    ghost const original: Handler
    ghost const others: set<nat>

    /** Descriptors in the monitor's fields. */
    ghost function Owned(): set<nat>
      reads this
    {
      (if stopFd >= 0 then {stopFd as nat} else {}) + (if reloadFd >= 0 then {reloadFd as nat} else {})
    }

    /** The open descriptors are exactly those of others and the non-negative fields. */
    ghost predicate Ledger()
      reads this
    {
      && -1 <= stopFd && -1 <= reloadFd && (stopFd >= 0 ==> stopFd != reloadFd)
      && open == others + Owned() && Owned() !! others
    }

    ghost predicate HandlerKnown()
      reads this
    {
      && original.Other?
      && if sighupInstalled then handler.Forwarder? && oldAction == original && reloadFd >= 0 else handler == original
    }

    /** The state between API calls. */
    ghost predicate Boundary()
      reads this
    {
      && Ledger() && HandlerKnown()
      && (thread ==> stopFd >= 0 && def.Some?)
      && (!thread ==> stopFd == -1 && reloadFd == -1 && !sighupInstalled && def.None?)
      && (reloadFd >= 0 ==> sighupInstalled)
    }

    ghost predicate AlwaysSafe()
      reads this
    {
      forall m <- moments :: SafeForSignal(m)
    }

    constructor (before: nat, others: set<nat>)
      ensures Boundary() && AlwaysSafe() && !thread && this.others == others && original == Other(before)
    {
      def, thread, stopFd, reloadFd, sighupInstalled, oldAction := None, false, -1, -1, false, Other(before);
      open, handler := others, Other(before);
      this.others, original := others, Other(before);
      moments := [];
    }

    /** A signal may arrive here. */
    ghost method Observe()
      modifies this`moments
      ensures moments == old(moments) + [Moment(handler, reloadFd, open)]
    {
      moments := moments + [Moment(handler, reloadFd, open)];
    }

    /** `eventfd`: any descriptor that is not open, or -1. */
    method Eventfd(succeeds: bool) returns (fd: int)
      modifies this`open, this`moments
      ensures if succeeds then fd >= 0 && (fd as nat) !in old(open) && open == old(open) + {fd as nat}
              else fd == -1 && open == old(open)
      ensures moments == old(moments) + [Moment(handler, reloadFd, open)]
    {
      fd := -1;
      if succeeds {
        ghost var free := FreeDescriptor(open);
        assert free !in open;
        var n: nat :| n !in open;
        open := open + {n};
        fd := n;
      }
      Observe();
    }

    method Close(fd: nat)
      modifies this`open, this`moments
      ensures open == old(open) - {fd}
      ensures moments == old(moments) + [Moment(handler, reloadFd, open)]
    {
      open := open - {fd};
      Observe();
    }

    /** `sigaction`: installs a disposition and reports the one it replaced. */
    method Sigaction(action: Handler) returns (previous: Handler)
      modifies this`handler, this`moments
      ensures previous == old(handler) && handler == action
      ensures moments == old(moments) + [Moment(handler, reloadFd, open)]
    {
      previous, handler := handler, action;
      Observe();
    }

    method SetReloadFd(fd: int)
      modifies this`reloadFd, this`moments
      ensures reloadFd == fd && moments == old(moments) + [Moment(handler, reloadFd, open)]
    {
      reloadFd := fd;
      Observe();
    }

    /** `release_local_resources`: the handler goes back before the descriptors close. */
    method ReleaseLocalResources()
      requires !thread && AlwaysSafe() && Ledger() && HandlerKnown()
      modifies this
      ensures Boundary() && AlwaysSafe() && !thread && open == others && old(moments) <= moments
    {
      if sighupInstalled {
        var replaced := Sigaction(oldAction);
        sighupInstalled := false;
      }
      if reloadFd >= 0 {
        Close(reloadFd as nat);
        SetReloadFd(-1);
      }
      if stopFd >= 0 {
        Close(stopFd as nat);
        stopFd := -1;
      }
      def := None;
    }

    /** The reload half of `svc_linux_events_start`: its descriptor, then the handler. */
    method InstallReload(o: Outcome)
      requires AlwaysSafe() && Ledger() && HandlerKnown() && !sighupInstalled && reloadFd == -1
      modifies this
      ensures AlwaysSafe() && Ledger() && HandlerKnown() && old(moments) <= moments
      ensures (sighupInstalled <==> o.reloadFd && o.sigaction) && (sighupInstalled <==> reloadFd >= 0)
      ensures def == old(def) && stopFd == old(stopFd) && thread == old(thread)
    {
      var fd := Eventfd(o.reloadFd);
      SetReloadFd(fd);
      if reloadFd >= 0 {
        if !o.sigaction {
          Close(reloadFd as nat);
          SetReloadFd(-1);
        } else {
          oldAction := Sigaction(Forwarder);
          sighupInstalled := true;
        }
      }
    }

    /** `svc_linux_events_start`. */
    method StartMonitor(d: Option<Definition>, o: Outcome) returns (ok: bool)
      requires Boundary() && AlwaysSafe()
      modifies this
      ensures Boundary() && AlwaysSafe() && old(moments) <= moments
      ensures ok <==> d.Some? && (old(thread) || (o.stopFd && o.thread))
      ensures thread == (old(thread) || ok)
      ensures d.Some? && !old(thread) && ok ==>
                def == d && (sighupInstalled <==> d.value.hasReload && o.reloadFd && o.sigaction)
      ensures d.None? || old(thread) ==>
                && def == old(def) && stopFd == old(stopFd) && reloadFd == old(reloadFd)
                && open == old(open) && handler == old(handler) && sighupInstalled == old(sighupInstalled)
    {
      if d.None? {
        return false;
      }
      if thread {
        return true;
      }
      def := d;
      stopFd := Eventfd(o.stopFd);
      if stopFd < 0 {
        ReleaseLocalResources();
        return false;
      }
      if d.value.hasReload {
        InstallReload(o);
      }
      if !o.thread {
        ReleaseLocalResources();
        return false;
      }
      thread := true;
      return true;
    }

    /** `svc_linux_events_stop`, with the join succeeding. */
    method StopMonitor()
      requires Boundary() && AlwaysSafe()
      modifies this
      ensures Boundary() && AlwaysSafe() && !thread && old(moments) <= moments
    {
      thread := false;
      ReleaseLocalResources();
    }

    /**
      Any sequence of calls with any failures: between calls the open descriptors are
      exactly the fields, with no thread everything is released and the handler is back,
      and at every moment on the way a SIGHUP meets no descriptor or an open one.
     */
    method Serve(calls: seq<Call>)
      requires Boundary() && AlwaysSafe()
      modifies this
      ensures Boundary() && AlwaysSafe() && old(moments) <= moments
      ensures !thread ==> open == others && handler == original
      ensures calls != [] && calls[|calls| - 1].Stop? ==> !thread
    {
      for i := 0 to |calls|
        invariant Boundary() && AlwaysSafe() && old(moments) <= moments
        invariant i > 0 && calls[i - 1].Stop? ==> !thread
      {
        match calls[i] {
          case Start(d, o) =>
            var ok := StartMonitor(d, o);
          case Stop =>
            StopMonitor();
        }
      }
    }
  }
}

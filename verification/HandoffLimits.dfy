/** Each assumption behind the handoff results is needed: without it some run breaks them, whatever
    the other settings. Together with the positive results this gives exact conditions. */
module HandoffLimits {
  import opened Machine
  import opened Handoff
  import opened HandoffCounting
  import opened HandoffFlows

  lemma Extend(c: Config, p: State, a: Action)
    requires Reachable(c, p) && Enabled(c, p, a)
    ensures Reachable(c, Next(c, p, a))
  {
    var n: nat :| ReachableIn(c, p, n);
    assert ReachableIn(c, Next(c, p, a), n + 1);
  }

  lemma ShapeOfReachable(c: Config, s: State)
    requires ValidConfig(c) && Reachable(c, s)
    ensures ShapeOk(c, s)
  {
    var n: nat :| ReachableIn(c, s, n);
    ShapeAlways(c, s, n);
  }

  /** The initial state with connections 0 .. flows - 1. */
  function Start(c: Config, flows: nat): State
    requires ValidConfig(c) && flows < TWO32
  {
    State(seq(MAX_THREADS, i => Slot(if i < c.threads then Idle else Invalid, EventInfo(0, 0))),
          seq(c.threads, _ => AtPop), Ready, 0, flows, Range(flows), Range(flows), {}, flows,
          seq(c.threads, _ => []), seq(c.threads, _ => []))
  }

  lemma StartReachable(c: Config, flows: nat)
    requires ValidConfig(c) && flows < TWO32
    ensures Reachable(c, Start(c, flows))
  {
    var s := Start(c, flows);
    assert |s.slots| == MAX_THREADS && |s.workers| == |s.pushed| == |s.popped| == c.threads;
    assert ReachableIn(c, Start(c, flows), 0);
  }

  /** Where an undisturbed scan ends. */
  function AfterScan(s: State): State
    requires s.dispatcher.Scanning?
  {
    var f := FirstIdle(s.slots);
    s.(dispatcher := if f < |s.slots| then Chosen(s.dispatcher.event, f) else Exited)
  }

  lemma {:induction false} ScanCompletes(c: Config, s: State)
    requires Reachable(c, s) && s.dispatcher.Scanning? && s.dispatcher.i <= FirstIdle(s.slots)
    ensures Reachable(c, AfterScan(s))
    decreases FirstIdle(s.slots) - s.dispatcher.i
  {
    Extend(c, s, Scan);
    var s' := Next(c, s, Scan);
    if s.dispatcher.i < FirstIdle(s.slots) {
      ScanCompletes(c, s');
      assert AfterScan(s') == AfterScan(s);
    } else {
      assert s' == AfterScan(s);
    }
  }

  /** The admitted flow is stored in the first idle slot, with nobody else moving. */
  lemma ScanAndStore(c: Config, p: State) returns (s: State)
    requires ValidConfig(c) && Reachable(c, p) && p.dispatcher.Scanning? && p.dispatcher.i <= FirstIdle(p.slots)
    requires FirstIdle(p.slots) < |p.slots| && FirstIdle(p.slots) < |p.pushed|
    ensures var f := FirstIdle(p.slots); var e := p.dispatcher.event;
      var stored := p.(slots := p.slots[f := Slot(Busy, e)], pushed := p.pushed[f := p.pushed[f] + [e]]);
      && Reachable(c, s)
      && s == if c.atomicSignal then stored.(workers := Wake(p.workers, f), dispatcher := Ready)
              else stored.(dispatcher := Signalling(f))
  {
    ScanCompletes(c, p);
    Extend(c, AfterScan(p), Store);
    s := Next(c, AfterScan(p), Store);
  }

  lemma AdmitOne(c: Config, s: State, fd: nat, modified: bool) returns (s': State)
    requires Reachable(c, s) && Enabled(c, s, Admit(fd, 1, modified)) && fd !in s.timed
    ensures Reachable(c, s')
    ensures s' == s.(dispatcher := Scanning(EventInfo(fd, 1), 0), active := Add32(s.active, 1),
                     armed := if modified then s.armed - {fd} else s.armed, timed := s.timed + {fd})
  {
    Extend(c, s, Admit(fd, 1, modified));
    s' := Next(c, s, Admit(fd, 1, modified));
  }

  /** One flow is admitted and stored. */
  lemma AdmitAndStore(c: Config, s: State, fd: nat, modified: bool) returns (s': State)
    requires ValidConfig(c) && Reachable(c, s) && Enabled(c, s, Admit(fd, 1, modified)) && fd !in s.timed
    requires FirstIdle(s.slots) < |s.slots| && FirstIdle(s.slots) < |s.pushed|
    ensures var f := FirstIdle(s.slots); var e := EventInfo(fd, 1);
      var stored := s.(slots := s.slots[f := Slot(Busy, e)], pushed := s.pushed[f := s.pushed[f] + [e]],
                       active := Add32(s.active, 1), armed := if modified then s.armed - {fd} else s.armed,
                       timed := s.timed + {fd});
      && Reachable(c, s')
      && s' == if c.atomicSignal then stored.(workers := Wake(s.workers, f))
               else stored.(dispatcher := Signalling(f))
  {
    var p := AdmitOne(c, s, fd, modified);
    hide Reachable, Next, Enabled, FirstIdle;
    s' := ScanAndStore(c, p);
  }

  /** A serving worker's state after Finish, when no assertion fails. */
  function AfterFinish(c: Config, s: State, w: nat, response: Response): State
    requires IsWorker(s, w) && s.workers[w].Serving?
  {
    var s' := Uncount(CloseFlow(s, s.workers[w].event.fd, response), w);
    if c.atomicCompletion then SetIdle(s', w) else s'
  }

  lemma FinishServing(c: Config, s: State, w: nat, response: Response) returns (s': State)
    requires Reachable(c, s) && IsWorker(s, w) && s.workers[w].Serving?
    requires response == Complete ==> s.workers[w].event.fd in s.timed
    ensures Reachable(c, s')
    ensures s' == AfterFinish(c, s, w, response)
  {
    Extend(c, s, Finish(w, response));
    s' := Next(c, s, Finish(w, response));
  }

  /** Worker w, about to pop a busy slot, serves it and updates the counters. */
  lemma PopAndFinish(c: Config, s: State, w: nat, response: Response) returns (s': State)
    requires Reachable(c, s) && IsWorker(s, w) && s.workers[w] == AtPop && s.slots[w].flag == Busy
    requires response == Complete ==> s.slots[w].event.fd in s.timed
    ensures Reachable(c, s')
    ensures s' == AfterFinish(c, Take(s, w), w, response)
  {
    var p := Take(s, w);
    assert p == Next(c, s, Pop(w));
    Extend(c, s, Pop(w));
    hide Next, Enabled, Reachable, SetIdle, CloseFlow, Uncount;
    s' := FinishServing(c, p, w, response);
  }

  /** The dispatcher is between events and worker 0 about to pop its idle slot. */
  predicate Resting(s: State) {
    && s.dispatcher == Ready && |s.slots| > 0 && |s.workers| > 0 && |s.pushed| > 0 && |s.popped| > 0
    && s.slots[0].flag == Idle && s.workers[0] == AtPop && s.active == 0
  }

  /** From p, worker 0 alone has served connection fd, before the signal if that is a step. */
  ghost predicate Served(c: Config, p: State, fd: nat, modified: bool, response: Response, s: State)
    requires Resting(p)
  {
    && |s.pushed| == |p.pushed| && |s.popped| == |p.popped|
    && s.pushed[0] == p.pushed[0] + [EventInfo(fd, 1)] && s.popped[0] == p.popped[0] + [EventInfo(fd, 1)]
    && |s.slots| > 0 && s.slots[0] == Slot(Idle, EventInfo(fd, 1))
    && |s.workers| > 0 && s.workers[0] == AtPop
    && s.dispatcher == (if c.atomicSignal then Ready else Signalling(0))
    && s.active == 0 && s.left == ToU32(p.left - 1) && s.flows == p.flows
    && s.armed == (if modified || response != Error then p.armed - {fd} else p.armed)
    && s.timed == if response == Complete then p.timed + {fd} else p.timed
  }

  lemma ServeOne(c: Config, p: State, fd: nat, modified: bool, response: Response) returns (s: State)
    requires ValidConfig(c) && Reachable(c, p) && Resting(p) && c.concurrent != 0
    requires fd in p.armed && fd !in p.timed && (modified || c.modifyMayFail)
    ensures Reachable(c, s) && Served(c, p, fd, modified, response, s)
  {
    hide Reachable, Next, Enabled, FirstIdle;
    s := AdmitResting(c, p, fd, modified);
    s := PopAndFinish(c, s, 0, response);
    s := ReleaseCounted(c, s);
  }

  /** Worker 0 of a resting state is not waiting, so the store's signal changes nothing. */
  lemma AdmitResting(c: Config, p: State, fd: nat, modified: bool) returns (s: State)
    requires ValidConfig(c) && Reachable(c, p) && Resting(p) && c.concurrent != 0
    requires fd in p.armed && fd !in p.timed && (modified || c.modifyMayFail)
    ensures Reachable(c, s)
    ensures s == p.(slots := p.slots[0 := Slot(Busy, EventInfo(fd, 1))],
                    pushed := p.pushed[0 := p.pushed[0] + [EventInfo(fd, 1)]],
                    active := 1, armed := if modified then p.armed - {fd} else p.armed, timed := p.timed + {fd},
                    dispatcher := if c.atomicSignal then Ready else Signalling(0))
  {
    FirstIdleIs(p.slots, 0);
    s := AdmitAndStore(c, p, fd, modified);
  }

  lemma ReleaseCounted(c: Config, p: State) returns (s: State)
    requires Reachable(c, p) && IsWorker(p, 0) && (c.atomicCompletion || p.workers[0] == Counted)
    ensures Reachable(c, s) && s == if c.atomicCompletion then p else SetIdle(p, 0)
  {
    s := p;
    if !c.atomicCompletion {
      Extend(c, p, Release(0));
      s := Next(c, p, Release(0));
    }
  }

  /** A signal that finds no waiting worker. */
  lemma SignalNobody(c: Config, p: State, i: nat) returns (s: State)
    requires Reachable(c, p)
    requires p.dispatcher == (if c.atomicSignal then Ready else Signalling(i))
    requires i < |p.workers| && p.workers[i] != Waiting
    ensures Reachable(c, s) && s == p.(dispatcher := Ready)
  {
    s := p;
    if !c.atomicSignal {
      Extend(c, p, Signal);
      s := Next(c, p, Signal);
    }
  }

  // The late signal.

  /** The worker waits at its idle slot before the signal comes, and serves the same event again. */
  lemma ServeAgain(c: Config, p: State, w: nat) returns (s: State)
    requires Reachable(c, p) && IsWorker(p, w) && p.dispatcher == Signalling(w)
    requires p.workers[w] == AtPop && p.slots[w].flag == Idle
    ensures Reachable(c, s)
    ensures s == Take(p, w).(dispatcher := Ready)
  {
    Extend(c, p, Pop(w));
    s := Next(c, p, Pop(w));
    Extend(c, s, Signal);
    s := Next(c, s, Signal);
    Extend(c, s, Resume(w));
    s := Next(c, s, Resume(w));
  }

  lemma RestAtStart(c: Config, flows: nat) returns (s: State)
    requires ValidConfig(c) && 0 < flows < TWO32
    ensures Reachable(c, s) && Resting(s) && s.pushed[0] == s.popped[0] == []
    ensures 0 in s.armed && 0 in s.open && s.armed == Range(flows) && s.timed == {} && s.left == flows
  {
    StartReachable(c, flows);
    s := Start(c, flows);
  }

  /** Worker 0 of an initial state serves connection 0, with a failed response. */
  lemma ServeFirst(c: Config, flows: nat) returns (s: State)
    requires ValidConfig(c) && !c.atomicSignal && c.concurrent != 0 && 0 < flows < TWO32
    ensures Reachable(c, s) && |s.pushed| > 0 && s.pushed[0] == [EventInfo(0, 1)]
    ensures s.dispatcher == Signalling(0) && s.active == 0 && s.left == flows - 1
    ensures IsWorker(s, 0) && s.workers[0] == AtPop && s.slots[0] == Slot(Idle, EventInfo(0, 1))
    ensures s.popped[0] == [EventInfo(0, 1)]
    ensures s.armed == Range(flows) - {0} && s.timed == {}
  {
    hide Reachable, Range, ToU32;
    ToU32OfSmall(flows - 1);
    s := RestAtStart(c, flows);
    s := ServeOne(c, s, 0, true, Error);
  }

  /** Then it does so again. */
  lemma ServedTwice(c: Config, flows: nat) returns (s: State)
    requires ValidConfig(c) && !c.atomicSignal && c.concurrent != 0 && 0 < flows < TWO32
    ensures Reachable(c, s) && ShapeOk(c, s) && s.dispatcher == Ready
    ensures |s.pushed| > 0 && IsWorker(s, 0)
    ensures s.workers[0] == Serving(EventInfo(0, 1)) && s.slots[0].flag == Idle
    ensures s.pushed[0] == [EventInfo(0, 1)] && s.popped[0] == [EventInfo(0, 1), EventInfo(0, 1)]
    ensures s.active == 0 && s.left == flows - 1 && s.armed == Range(flows) - {0} && s.timed == {}
  {
    hide Reachable, Next, Enabled, Range;
    var p := ServeFirst(c, flows);
    s := ServeAgain(c, p, 0);
    ShapeOfReachable(c, s);
  }

  /** When unlock and signal are separate steps, a signal that comes late wakes the worker on its
      idle slot, and the same event is popped twice. */
  lemma LateSignalRepeats(c: Config) returns (s: State)
    requires ValidConfig(c) && !c.atomicSignal && c.concurrent != 0
    ensures Reachable(c, s) && !ExactlyOnce(s)
    ensures |s.pushed| > 0 && |s.popped| > 0
    ensures s.pushed[0] == [EventInfo(0, 1)] && s.popped[0] == [EventInfo(0, 1), EventInfo(0, 1)]
  {
    s := ServedTwice(c, 1);
  }

  /** Delivery is exactly once in every run if and only if the signal is part of the store. */
  lemma ExactlyOnceIffAtomicSignal(c: Config)
    requires ValidConfig(c) && c.concurrent != 0
    ensures (forall s :: Reachable(c, s) ==> ExactlyOnce(s)) <==> c.atomicSignal
  {
    if c.atomicSignal {
      forall s | Reachable(c, s)
        ensures ExactlyOnce(s)
      {
        DeliveredExactlyOnce(c, s);
      }
    } else {
      var s := LateSignalRepeats(c);
    }
  }

  /** A worker whose time entry went with the first, failed response. */
  lemma LateSignalFailsAssertion(c: Config) returns (s: State)
    requires ValidConfig(c) && !c.atomicSignal && c.concurrent != 0
    ensures Reachable(c, s) && |s.workers| > 0 && s.workers[0] == AssertFailed
  {
    var p := ServedTwice(c, 1);
    Extend(c, p, Finish(0, Complete));
    s := Next(c, p, Finish(0, Complete));
  }

  /** The connection hangs up while its worker reads a response that turns out complete. */
  lemma HangupFailsAssertion(c: Config) returns (s: State)
    requires ValidConfig(c) && c.atomicSignal && c.hangups && c.concurrent != 0
    ensures Reachable(c, s) && |s.workers| > 0 && s.workers[0] == AssertFailed
  {
    s := RestAtStart(c, 1);
    s := AdmitResting(c, s, 0, true);
    Extend(c, s, Pop(0));
    s := Next(c, s, Pop(0));
    Extend(c, s, Hangup(0));
    s := Next(c, s, Hangup(0));
    Extend(c, s, Finish(0, Complete));
    s := Next(c, s, Finish(0, Complete));
  }

  /** Every complete response finds its time entry if and only if the signal is part of the store and
      nothing hangs up. */
  lemma ResponsesTimedIff(c: Config)
    requires ValidConfig(c) && c.concurrent != 0
    ensures (forall s, w: nat :: Reachable(c, s) && w < |s.workers| ==> s.workers[w] != AssertFailed) <==>
              c.atomicSignal && !c.hangups
  {
    if !c.atomicSignal {
      var s := LateSignalFailsAssertion(c);
    } else if c.hangups {
      var s := HangupFailsAssertion(c);
    } else {
      forall s, w: nat | Reachable(c, s) && w < |s.workers|
        ensures s.workers[w] != AssertFailed
      {
        EntriesAreKept(c, s);
      }
    }
  }

  /** No connection is lost, in any run, if and only if nothing hangs up. */
  lemma NoneLostIff(c: Config)
    requires ValidConfig(c) && c.atomicSignal && !c.modifyMayFail
    ensures (forall s :: Reachable(c, s) ==> Lost(s) == 0) <==> !c.hangups
  {
    if c.hangups {
      StartReachable(c, 1);
      var p := Start(c, 1);
      Extend(c, p, Hangup(0));
      var s := Next(c, p, Hangup(0));
      LeftIsExact(c, s);
    } else {
      forall s | Reachable(c, s)
        ensures Lost(s) == 0
      {
        LeftIsExact(c, s);
      }
    }
  }

  // The failing modify_epoll_event.

  /** A connection that stays registered for writing is admitted again after a failed response. With
      two connections the client then stops while the other one has never been admitted. */
  lemma AdmittedAgain(c: Config) returns (s: State)
    requires ValidConfig(c) && c.modifyMayFail && c.concurrent != 0
    ensures Reachable(c, s) && s.left == 0 && 1 in s.armed
    ensures |s.pushed| > 0 && |s.popped| > 0
    ensures s.pushed[0] == s.popped[0] == [EventInfo(0, 1), EventInfo(0, 1)]
  {
    var p := Start(c, 2);
    StartReachable(c, 2);
    var p1 := ServeOne(c, p, 0, false, Error);
    var p2 := SignalNobody(c, p1, 0);
    s := ServeOne(c, p2, 0, true, Complete);
  }

  /** No connection is handed over twice, in any run, if and only if modify_epoll_event never fails. */
  lemma HandedOverOnceIff(c: Config)
    requires ValidConfig(c) && c.concurrent != 0
    ensures (forall s :: Reachable(c, s) ==> AllDistinct(s.pushed)) <==> !c.modifyMayFail
  {
    if c.modifyMayFail {
      var s := AdmittedAgain(c);
      assert s.pushed[0][0].fd == s.pushed[0][1].fd;
    } else {
      forall s | Reachable(c, s)
        ensures AllDistinct(s.pushed)
      {
        HandedOverOnce(c, s);
      }
    }
  }

  /** No connection is served twice if and only if the signal is part of the store as well. */
  lemma ServedOnceIff(c: Config)
    requires ValidConfig(c) && c.concurrent != 0
    ensures (forall s :: Reachable(c, s) ==> AllDistinct(s.popped)) <==> c.atomicSignal && !c.modifyMayFail
  {
    if c.modifyMayFail {
      var s := AdmittedAgain(c);
      assert s.popped[0][0].fd == s.popped[0][1].fd;
    } else if !c.atomicSignal {
      var s := LateSignalRepeats(c);
      assert s.popped[0][0].fd == s.popped[0][1].fd;
    } else {
      forall s | Reachable(c, s)
        ensures AllDistinct(s.popped)
      {
        ServedOnce(c, s);
      }
    }
  }

  /** Serving twice takes left_flows down twice. */
  lemma LateSignalStopsEarly(c: Config) returns (s: State)
    requires ValidConfig(c) && !c.atomicSignal && c.concurrent != 0
    ensures Reachable(c, s) && s.left == 0 && 1 in s.armed
  {
    hide Reachable, Next, Enabled, ShapeOk;
    var p := ServedTwice(c, 2);
    s := FinishServing(c, p, 0, Error);
  }

  /** A client that stops has served all connections, in any run, under the same two conditions. */
  lemma StopsServedIff(c: Config)
    requires ValidConfig(c) && c.concurrent != 0
    ensures (forall s :: Reachable(c, s) && s.left == 0 ==> AllServed(s)) <==> c.atomicSignal && !c.modifyMayFail
  {
    if c.modifyMayFail {
      var s := AdmittedAgain(c);
    } else if !c.atomicSignal {
      var s := LateSignalStopsEarly(c);
    } else {
      forall s | Reachable(c, s) && s.left == 0
        ensures AllServed(s)
      {
        AllServedWhenNoneLeft(c, s);
      }
    }
  }

  /** With two flows at a time, a connection is admitted again before its first response. */
  lemma AdmittedWhileActive(c: Config) returns (s: State)
    requires ValidConfig(c) && c.modifyMayFail && c.concurrent >= 2
    ensures Reachable(c, s) && s.dispatcher == Aborted
  {
    StartReachable(c, 1);
    FirstIdleIs(Start(c, 1).slots, 0);
    var p := AdmitAndStore(c, Start(c, 1), 0, false);
    p := SignalNobody(c, p, 0);
    Extend(c, p, Admit(0, 1, true));
    s := Next(c, p, Admit(0, 1, true));
  }

  /** With one flow at a time, the repeated response of a late signal makes room for it. */
  lemma AdmittedAfterLateSignal(c: Config) returns (s: State)
    requires ValidConfig(c) && c.modifyMayFail && !c.atomicSignal && c.concurrent != 0
    ensures Reachable(c, s) && s.dispatcher == Aborted
  {
    hide Reachable;
    var p := ServedTwice(c, 2);
    FirstIdleIs(p.slots, 0);
    p := AdmitAndStore(c, p, 1, false);
    p := SignalNobody(c, p, 0);
    p := FinishServing(c, p, 0, Error);
    Extend(c, p, Admit(1, 1, true));
    s := Next(c, p, Admit(1, 1, true));
  }

  /** When no connection is ever admitted whose time entry is in use, which is asserted. */
  predicate CannotAbort(c: Config) {
    !c.modifyMayFail || c.concurrent == 0 || (c.concurrent == 1 && c.atomicSignal)
  }

  lemma NeverAbortsIff(c: Config)
    requires ValidConfig(c)
    ensures (forall s :: Reachable(c, s) ==> s.dispatcher != Aborted) <==> CannotAbort(c)
  {
    if CannotAbort(c) {
      forall s | Reachable(c, s)
        ensures s.dispatcher != Aborted
      {
        if c.concurrent == 0 {
          NothingAdmitted(c, s);
        } else {
          NeverAborts(c, s);
        }
      }
    } else if c.concurrent == 1 {
      var s := AdmittedAfterLateSignal(c);
    } else {
      var s := AdmittedWhileActive(c);
    }
  }

  lemma NothingAdmitted(c: Config, s: State)
    requires ValidConfig(c) && c.concurrent == 0 && Reachable(c, s)
    ensures s.dispatcher == Ready
  {
    var n: nat :| ReachableIn(c, s, n);
    NothingAdmittedIn(c, s, n);
  }

  lemma NothingAdmittedStep(c: Config, s: State, a: Action)
    requires c.concurrent == 0 && s.dispatcher == Ready && Enabled(c, s, a)
    ensures Next(c, s, a).dispatcher == Ready
  {
  }

  lemma {:induction false} NothingAdmittedIn(c: Config, s: State, n: nat)
    requires ValidConfig(c) && c.concurrent == 0 && ReachableIn(c, s, n)
    ensures s.dispatcher == Ready
    decreases n
  {
    hide Next, Enabled;
    if n > 0 {
      var p, a :| ReachableIn(c, p, n - 1) && Enabled(c, p, a) && s == Next(c, p, a);
      NothingAdmittedIn(c, p, n - 1);
      NothingAdmittedStep(c, p, a);
    }
  }
}

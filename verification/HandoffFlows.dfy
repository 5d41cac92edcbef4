/** The handoff seen from the connections: each is handed over and served at most once, no assertion
    about the time entries fails, and when the client's loop ends all connections have been served.
    What is assumed for each of these is needed; HandoffLimits has the runs that show it. */
module HandoffFlows {
  import opened Machine
  import opened Handoff
  import opened HandoffCounting

  predicate HasEvent(d: Dispatcher) {
    d.Scanning? || d.Chosen? || d.WaitingIdle?
  }

  // Handed over once, while modify_epoll_event does not fail.

  /** Connection fd is not among the events pushed to any slot. */
  ghost predicate NotPushed(pushed: seq<seq<EventInfo>>, fd: nat) {
    forall w, i :: 0 <= w < |pushed| && 0 <= i < |pushed[w]| ==> pushed[w][i].fd != fd
  }

  /** No connection occurs at two places of the histories. */
  ghost predicate AllDistinct(pushed: seq<seq<EventInfo>>) {
    forall w, i, v, j ::
      0 <= w < |pushed| && 0 <= i < |pushed[w]| && 0 <= v < |pushed| && 0 <= j < |pushed[v]| && (w != v || i != j)
      ==> pushed[w][i].fd != pushed[v][j].fd
  }

  ghost predicate FlowsOk(s: State) {
    && AllDistinct(s.pushed)
    && (forall fd :: fd in s.armed ==> NotPushed(s.pushed, fd))
    && (HasEvent(s.dispatcher) ==>
          s.dispatcher.event.fd !in s.armed && NotPushed(s.pushed, s.dispatcher.event.fd))
    && s.armed !! s.timed && s.dispatcher != Aborted
  }

  lemma PushKeepsDistinct(pushed: seq<seq<EventInfo>>, w: nat, e: EventInfo)
    requires w < |pushed| && AllDistinct(pushed) && NotPushed(pushed, e.fd)
    ensures AllDistinct(pushed[w := pushed[w] + [e]])
    ensures forall fd :: fd != e.fd && NotPushed(pushed, fd) ==> NotPushed(pushed[w := pushed[w] + [e]], fd)
  {
  }

  lemma FlowsStep(c: Config, s: State, a: Action)
    requires !c.modifyMayFail && FlowsOk(s) && Enabled(c, s, a)
    ensures FlowsOk(Next(c, s, a))
  {
    if a.Store? {
      PushKeepsDistinct(s.pushed, s.dispatcher.i, s.dispatcher.event);
    }
    hide AllDistinct, NotPushed;
  }

  lemma {:induction false} FlowsAlways(c: Config, s: State, n: nat)
    requires ValidConfig(c) && !c.modifyMayFail && ReachableIn(c, s, n)
    ensures FlowsOk(s)
    decreases n
  {
    hide Next, Enabled;
    if n > 0 {
      hide Init, FlowsOk;
      var p, a :| ReachableIn(c, p, n - 1) && Enabled(c, p, a) && s == Next(c, p, a);
      FlowsAlways(c, p, n - 1);
      FlowsStep(c, p, a);
    }
  }

  /** While modify_epoll_event does not fail, no connection is handed over twice, to one worker or to
      two, and the connections that may still be handed over have not been. */
  lemma HandedOverOnce(c: Config, s: State)
    requires ValidConfig(c) && !c.modifyMayFail && Reachable(c, s)
    ensures AllDistinct(s.pushed)
    ensures forall fd :: fd in s.armed ==> NotPushed(s.pushed, fd)
  {
    var n: nat :| ReachableIn(c, s, n);
    FlowsAlways(c, s, n);
  }

  /** With exactly-once delivery, no connection is served twice either. */
  lemma ServedOnce(c: Config, s: State)
    requires ValidConfig(c) && c.atomicSignal && !c.modifyMayFail && Reachable(c, s)
    ensures AllDistinct(s.popped)
  {
    HandedOverOnce(c, s);
    DeliveredExactlyOnce(c, s);
    forall w, i | 0 <= w < |s.popped| && 0 <= i < |s.popped[w]|
      ensures i < |s.pushed[w]| && s.popped[w][i] == s.pushed[w][i]
    {
    }
  }

  // The time entries, when the signal is part of the store. Here modify_epoll_event may fail, and
  // connections may hang up.

  /** The connection that a slot and its worker have in hand. */
  function HeldIn(slot: Slot, worker: Worker): Option<nat> {
    if worker.Serving? then Some(worker.event.fd)
    else if slot.flag == Busy && (worker == AtPop || worker == Woken) then Some(slot.event.fd)
    else None
  }

  function HeldAt(s: State, w: nat): Option<nat> {
    if IsWorker(s, w) then HeldIn(s.slots[w], s.workers[w]) else None
  }

  function InHand(d: Dispatcher): Option<nat> {
    if HasEvent(d) then Some(d.event.fd) else None
  }

  ghost predicate InService(s: State, fd: nat) {
    InHand(s.dispatcher) == Some(fd) || exists w: nat :: HeldAt(s, w) == Some(fd)
  }

  /** An armed connection in hand has a time entry; without hang-ups every connection in hand has. */
  predicate EntryOk(c: Config, s: State, held: Option<nat>) {
    held.Some? && (held.value in s.armed || !c.hangups) ==> held.value in s.timed
  }

  /** What is in hand is one connection per place, with its time entry unless it hung up. A connection
      that is still registered for writing although it has a time entry is in hand. */
  ghost predicate ServiceOk(c: Config, s: State) {
    && (forall w: nat :: EntryOk(c, s, HeldAt(s, w)))
    && EntryOk(c, s, InHand(s.dispatcher))
    && (forall w: nat :: HeldAt(s, w).Some? ==> HeldAt(s, w) != InHand(s.dispatcher))
    && (forall w: nat, v: nat :: w != v && HeldAt(s, w).Some? ==> HeldAt(s, w) != HeldAt(s, v))
    && (!c.hangups ==> forall w: nat :: w < |s.workers| ==> s.workers[w] != AssertFailed)
    && (s.dispatcher != Exited ==> forall fd :: fd in s.armed && fd in s.timed ==> InService(s, fd))
  }

  /** Where the connections are after an action. */
  lemma HeldStep(c: Config, s: State, a: Action, w: nat)
    requires c.atomicSignal && DeliveryOk(c, s) && Enabled(c, s, a)
    ensures HeldAt(Next(c, s, a), w) ==
            if a.Store? && w == s.dispatcher.i then InHand(s.dispatcher)
            else if a.Finish? && w == a.w then None
            else HeldAt(s, w)
  {
    assert w < c.threads ==> SlotOk(s.slots[w], s.workers[w], s.pushed[w], s.popped[w]);
  }

  lemma InHandStep(c: Config, s: State, a: Action)
    requires c.atomicSignal && DeliveryOk(c, s) && Enabled(c, s, a)
    ensures var s' := Next(c, s, a);
      InHand(s'.dispatcher) ==
      if a.Admit? then (if a.fd in s.timed then None else Some(a.fd))
      else if a.Store? || s'.dispatcher == Exited then None
      else InHand(s.dispatcher)
  {
  }

  /** Without hang-ups an entry is there when a response completes, so the worker's assertion holds. */
  lemma AssertionHolds(c: Config, s: State, a: Action)
    requires ServiceOk(c, s) && Enabled(c, s, a)
    ensures a.Finish? ==> HeldAt(s, a.w) == Some(s.workers[a.w].event.fd)
    ensures !c.hangups && a.Finish? ==> Uncounts(s, a)
    ensures !c.hangups ==> forall w: nat :: w < |Next(c, s, a).workers| ==> Next(c, s, a).workers[w] != AssertFailed
  {
    assert a.Finish? ==> HeldAt(s, a.w) == Some(s.workers[a.w].event.fd) && EntryOk(c, s, HeldAt(s, a.w));
  }

  /** Where all connections are after an action. */
  ghost predicate Moved(c: Config, s: State, a: Action)
    requires Enabled(c, s, a)
  {
    && (forall w: nat ::
          HeldAt(Next(c, s, a), w) ==
          if a.Store? && w == s.dispatcher.i then InHand(s.dispatcher)
          else if a.Finish? && w == a.w then None
          else HeldAt(s, w))
    && InHand(Next(c, s, a).dispatcher) ==
       if a.Admit? then (if a.fd in s.timed then None else Some(a.fd))
       else if a.Store? || Next(c, s, a).dispatcher == Exited then None
       else InHand(s.dispatcher)
  }

  lemma AllMoved(c: Config, s: State, a: Action)
    requires c.atomicSignal && DeliveryOk(c, s) && Enabled(c, s, a)
    ensures Moved(c, s, a)
  {
    forall w: nat
      ensures HeldAt(Next(c, s, a), w) ==
              if a.Store? && w == s.dispatcher.i then InHand(s.dispatcher)
              else if a.Finish? && w == a.w then None
              else HeldAt(s, w)
    {
      HeldStep(c, s, a, w);
    }
    InHandStep(c, s, a);
  }

  lemma InServiceStep(c: Config, s: State, a: Action, fd: nat)
    requires Enabled(c, s, a) && Moved(c, s, a) && ServiceOk(c, s)
    requires Next(c, s, a).dispatcher != Exited && fd in Next(c, s, a).armed && fd in Next(c, s, a).timed
    ensures InService(Next(c, s, a), fd)
  {
    var s' := Next(c, s, a);
    AssertionHolds(c, s, a);
    hide HeldAt, InHand;
    if InHand(s.dispatcher) == Some(fd) {
      assert a.Store? ==> HeldAt(s', s.dispatcher.i) == Some(fd);
    } else if !a.Admit? || a.fd != fd {
      var w: nat :| HeldAt(s, w) == Some(fd);
      assert HeldAt(s', w) == Some(fd);
    }
  }

  lemma ServiceStep(c: Config, s: State, a: Action)
    requires c.atomicSignal && DeliveryOk(c, s) && ServiceOk(c, s) && Enabled(c, s, a)
    ensures ServiceOk(c, Next(c, s, a))
  {
    AllMoved(c, s, a);
    AssertionHolds(c, s, a);
    hide DeliveryOk, HeldAt, InHand, InService;
    var s' := Next(c, s, a);
    forall fd | s'.dispatcher != Exited && fd in s'.armed && fd in s'.timed
      ensures InService(s', fd)
    {
      InServiceStep(c, s, a, fd);
    }
  }

  lemma {:induction false} ServiceAlways(c: Config, s: State, n: nat)
    requires ValidConfig(c) && c.atomicSignal && ReachableIn(c, s, n)
    ensures DeliveryOk(c, s) && ServiceOk(c, s)
    decreases n
  {
    hide Next, Enabled, DeliveryOk;
    DeliveryAlways(c, s, n);
    if n > 0 {
      hide Init, ServiceOk;
      var p, a :| ReachableIn(c, p, n - 1) && Enabled(c, p, a) && s == Next(c, p, a);
      ServiceAlways(c, p, n - 1);
      ServiceStep(c, p, a);
    }
  }

  /** No two places ever have the same connection in hand. */
  lemma HeldInOnePlace(c: Config, s: State)
    requires ValidConfig(c) && c.atomicSignal && Reachable(c, s)
    ensures forall w: nat, v: nat :: w != v && HeldAt(s, w).Some? ==> HeldAt(s, w) != HeldAt(s, v)
    ensures forall w: nat :: HeldAt(s, w).Some? ==> HeldAt(s, w) != InHand(s.dispatcher)
  {
    var n: nat :| ReachableIn(c, s, n);
    ServiceAlways(c, s, n);
  }

  /** Without hang-ups, every connection in hand has its time entry, and no response completes
      without one. */
  lemma EntriesAreKept(c: Config, s: State)
    requires ValidConfig(c) && c.atomicSignal && !c.hangups && Reachable(c, s)
    ensures forall w: nat :: HeldAt(s, w).Some? ==> HeldAt(s, w).value in s.timed
    ensures forall w: nat :: w < |s.workers| ==> s.workers[w] != AssertFailed
  {
    var n: nat :| ReachableIn(c, s, n);
    ServiceAlways(c, s, n);
    assert forall w: nat :: EntryOk(c, s, HeldAt(s, w));
  }

  /** A connection in hand is an active flow. */
  lemma InServiceIsActive(c: Config, s: State, fd: nat)
    requires CountOk(c, s) && InService(s, fd)
    ensures s.active >= 1
  {
    if InHand(s.dispatcher) == Some(fd) {
      CountedAreBusy(c, s);
      SubsetSize(CountedSet(s), BusySet(s));
    } else {
      var w: nat :| HeldAt(s, w) == Some(fd);
      assert SlotOk(s.slots[w], s.workers[w], s.pushed[w], s.popped[w]);
      HeldIsCounted(c, s, w);
    }
  }

  lemma NotAbortedStep(c: Config, s: State, a: Action)
    requires c.concurrent <= 1 && CountOk(c, s) && ServiceOk(c, s) && s.dispatcher != Aborted && Enabled(c, s, a)
    ensures Next(c, s, a).dispatcher != Aborted
  {
    if Next(c, s, a).dispatcher == Aborted {
      InServiceIsActive(c, s, a.fd);
      assert false;
    }
  }

  lemma {:induction false} OneFlowAtATime(c: Config, s: State, n: nat)
    requires ValidConfig(c) && c.atomicSignal && c.concurrent <= 1 && ReachableIn(c, s, n)
    ensures s.dispatcher != Aborted
    decreases n
  {
    hide Next, Enabled, CountOk, ServiceOk;
    if n > 0 {
      hide Init;
      var p, a :| ReachableIn(c, p, n - 1) && Enabled(c, p, a) && s == Next(c, p, a);
      OneFlowAtATime(c, p, n - 1);
      CountAlways(c, p, n - 1);
      ServiceAlways(c, p, n - 1);
      NotAbortedStep(c, p, a);
    }
  }

  /** The dispatcher never admits a connection whose time entry is in use, if modify_epoll_event does
      not fail or one flow at a time is asked for. */
  lemma NeverAborts(c: Config, s: State)
    requires ValidConfig(c) && Reachable(c, s)
    requires !c.modifyMayFail || (c.concurrent <= 1 && c.atomicSignal)
    ensures s.dispatcher != Aborted
  {
    var n: nat :| ReachableIn(c, s, n);
    if c.modifyMayFail {
      OneFlowAtATime(c, s, n);
    } else {
      FlowsAlways(c, s, n);
    }
  }

  // The end of the client's loop.

  /** Connections that are neither registered for writing nor ever admitted. */
  function Lost(s: State): int {
    s.flows - Admissions(s) - |s.armed|
  }

  ghost predicate LostOk(s: State) {
    0 <= Lost(s) && s.flows < TWO32
  }

  /** A connection is lost exactly by a hang-up before it is admitted. */
  lemma LostStep(c: Config, s: State, a: Action)
    requires !c.modifyMayFail && ShapeOk(c, s) && ServiceOk(c, s) && FlowsOk(s) && Enabled(c, s, a)
    ensures Next(c, s, a).flows == s.flows
    ensures Lost(Next(c, s, a)) == Lost(s) + if a.Hangup? && a.fd in s.armed then 1 else 0
  {
    if a.Finish? {
      ServedIsNotArmed(c, s, a.w);
    }
    AdmissionsStep(c, s, a);
    hide ShapeOk, ServiceOk, FlowsOk, Admissions, HeldAt;
    if a.Admit? || a.Hangup? {
      SizeWithout(s.armed, a.fd);
    }
    assert a.Finish? ==> Next(c, s, a).armed == s.armed;
  }

  lemma ServedIsNotArmed(c: Config, s: State, w: nat)
    requires ServiceOk(c, s) && FlowsOk(s) && IsWorker(s, w) && s.workers[w].Serving?
    ensures s.workers[w].event.fd !in s.armed
  {
    assert EntryOk(c, s, HeldAt(s, w));
  }

  lemma StepOfReachable(c: Config, s: State, n: nat, a: Action)
    requires ValidConfig(c) && c.atomicSignal && !c.modifyMayFail && ReachableIn(c, s, n) && Enabled(c, s, a)
    ensures Next(c, s, a).flows == s.flows
    ensures Lost(Next(c, s, a)) == Lost(s) + if a.Hangup? && a.fd in s.armed then 1 else 0
  {
    hide Next, Enabled, ShapeOk, ServiceOk, FlowsOk, Lost;
    ShapeAlways(c, s, n);
    ServiceAlways(c, s, n);
    FlowsAlways(c, s, n);
    LostStep(c, s, a);
  }

  lemma {:induction false} LostAlways(c: Config, s: State, n: nat)
    requires ValidConfig(c) && c.atomicSignal && !c.modifyMayFail && ReachableIn(c, s, n)
    ensures LostOk(s) && (!c.hangups ==> Lost(s) == 0)
    decreases n
  {
    hide Next, Admissions;
    if n == 0 {
      NothingCounted(c, s);
    } else {
      hide Init, Lost;
      var p, a :| ReachableIn(c, p, n - 1) && Enabled(c, p, a) && s == Next(c, p, a);
      LostAlways(c, p, n - 1);
      StepOfReachable(c, p, n - 1, a);
    }
  }

  lemma ToU32OfSmall(x: int)
    requires 0 <= x < TWO32
    ensures ToU32(x) == x
  {
  }

  /** While modify_epoll_event does not fail, left_flows is exactly the connections still to be
      admitted, the active flows and the lost connections, and it never wraps. */
  lemma LeftIsExact(c: Config, s: State)
    requires ValidConfig(c) && c.atomicSignal && !c.modifyMayFail && Reachable(c, s)
    ensures s.left == |s.armed| + s.active + Lost(s) && Lost(s) >= 0
    ensures !c.hangups ==> Lost(s) == 0
  {
    hide ReachableIn, BusySet, CountedSet, Admissions, InFlight, ToU32;
    var n: nat :| ReachableIn(c, s, n);
    CountersAreExact(c, s);
    LostAlways(c, s, n);
    ToU32OfSmall(|s.armed| + s.active + Lost(s));
  }

  /** From s to s' in n actions. */
  ghost predicate Leads(c: Config, s: State, s': State, n: nat)
    decreases n
  {
    if n == 0 then s' == s
    else exists p, a :: Leads(c, s, p, n - 1) && Enabled(c, p, a) && s' == Next(c, p, a)
  }

  lemma {:induction false} LostRemains(c: Config, s: State, m: nat, s': State, n: nat)
    requires ValidConfig(c) && c.atomicSignal && !c.modifyMayFail && ReachableIn(c, s, m) && Leads(c, s, s', n)
    ensures ReachableIn(c, s', m + n) && Lost(s') >= Lost(s)
    decreases n
  {
    hide Next, Enabled, Lost, Init;
    if n > 0 {
      var p, a :| Leads(c, s, p, n - 1) && Enabled(c, p, a) && s' == Next(c, p, a);
      LostRemains(c, s, m, p, n - 1);
      StepOfReachable(c, p, m + n - 1, a);
    }
  }

  /** After a connection is lost, left_flows stays positive in every continuation: the client never
      stops to print its statistics. */
  lemma NeverStopsAfterLoss(c: Config, s: State, s': State, n: nat)
    requires ValidConfig(c) && c.atomicSignal && !c.modifyMayFail && Reachable(c, s) && Leads(c, s, s', n)
    requires Lost(s) > 0
    ensures s'.left >= Lost(s) > 0
  {
    hide ReachableIn, Lost;
    var m: nat :| ReachableIn(c, s, m);
    LostRemains(c, s, m, s', n);
    LeftIsExact(c, s');
  }

  /** All connections are finished and every event handed over has been popped and counted. */
  ghost predicate AllServed(s: State) {
    && s.armed == {} && s.active == 0 && s.dispatcher == Ready
    && s.pushed == s.popped
    && (forall w :: 0 <= w < |s.workers| ==> !s.workers[w].Serving?)
  }

  /** When left_flows reaches 0 and the client stops to print its statistics, it has served all. */
  lemma AllServedWhenNoneLeft(c: Config, s: State)
    requires ValidConfig(c) && c.atomicSignal && !c.modifyMayFail && Reachable(c, s) && s.left == 0
    ensures AllServed(s)
  {
    LeftIsExact(c, s);
    NoneActive(c, s);
  }

  /** With no active flow, everything handed over has been popped and counted. */
  lemma NoneActive(c: Config, s: State)
    requires ValidConfig(c) && c.atomicSignal && Reachable(c, s) && s.active == 0
    ensures s.dispatcher == Ready && s.pushed == s.popped
    ensures forall w :: 0 <= w < |s.workers| ==> !s.workers[w].Serving?
  {
    var n: nat :| ReachableIn(c, s, n);
    CountAlways(c, s, n);
    CountedAreBusy(c, s);
    SubsetSize(CountedSet(s), BusySet(s));
    forall w: nat | w < c.threads
      ensures s.pushed[w] == s.popped[w] && !s.workers[w].Serving?
    {
      assert SlotOk(s.slots[w], s.workers[w], s.pushed[w], s.popped[w]);
      if s.slots[w].flag == Busy && s.workers[w] != Counted {
        HeldIsCounted(c, s, w);
        assert false;
      }
    }
  }
}

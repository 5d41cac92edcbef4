/** When the client runs out of threads: get_valid_thread finds no idle slot and the program exits. */
module HandoffShortage {
  import opened Machine
  import opened Handoff
  import opened HandoffCounting
  import opened HandoffLimits

  // Why an idle slot is found.

  /** There is an idle slot from slot i on. */
  ghost predicate IdleFrom(c: Config, slots: seq<Slot>, i: nat) {
    exists j :: i <= j < c.threads && j < |slots| && slots[j].flag == Idle
  }

  /** Fewer busy slots than threads leave an idle one. */
  lemma IdleExists(c: Config, s: State)
    requires ShapeOk(c, s) && |BusySet(s)| < c.threads
    ensures IdleFrom(c, s.slots, 0)
  {
    var all := Range(c.threads);
    if all <= BusySet(s) {
      SubsetSize(all, BusySet(s));
    }
    var i :| i in all && i !in BusySet(s);
    assert s.slots[i].flag == Idle;
  }

  /** A scan has an idle slot ahead of it, for slots only become idle meanwhile. */
  lemma IdleAhead(c: Config, s: State, a: Action)
    requires ShapeOk(c, s) && Enabled(c, s, a) && s.dispatcher != Exited
    requires s.dispatcher.Scanning? ==> IdleFrom(c, s.slots, s.dispatcher.i)
    requires a.Admit? ==> IdleFrom(c, s.slots, 0)
    ensures var d := Next(c, s, a).dispatcher;
      d != Exited && (d.Scanning? ==> IdleFrom(c, Next(c, s, a).slots, d.i))
  {
    var s' := Next(c, s, a);
    if s'.dispatcher.Scanning? && !a.Admit? {
      var i :| s.dispatcher.i <= i < c.threads && i < |s.slots| && s.slots[i].flag == Idle;
      assert s'.slots[i].flag == Idle;
    }
  }


  /** A busy slot has been pushed to. */
  ghost predicate UsedOk(c: Config, s: State) {
    && ShapeOk(c, s)
    && forall w :: 0 <= w < c.threads && s.slots[w].flag == Busy ==> s.pushed[w] != []
  }

  lemma UsedStep(c: Config, s: State, a: Action)
    requires UsedOk(c, s) && Enabled(c, s, a)
    ensures UsedOk(c, Next(c, s, a))
  {
    ShapeStep(c, s, a);
  }

  /** No more connections are admitted and still to be admitted than there are, unless a failing
      modify_epoll_event lets them be admitted again. */
  ghost predicate SupplyOk(c: Config, s: State) {
    && |s.armed| <= s.flows < TWO32
    && (!c.modifyMayFail ==> Admissions(s) + |s.armed| <= s.flows)
  }

  lemma SupplyStep(c: Config, s: State, a: Action)
    requires ShapeOk(c, s) && SupplyOk(c, s) && Enabled(c, s, a)
    ensures SupplyOk(c, Next(c, s, a)) && Next(c, s, a).flows == s.flows
  {
    AdmissionsStep(c, s, a);
    ArmedStep(c, s, a);
    hide Admissions, ShapeOk, Next, Enabled;
  }

  lemma ArmedStep(c: Config, s: State, a: Action)
    requires Enabled(c, s, a)
    ensures var s' := Next(c, s, a);
      && s'.flows == s.flows && |s'.armed| <= |s.armed|
      && (a.Admit? && !c.modifyMayFail ==> |s'.armed| == |s.armed| - 1)
  {
    var s' := Next(c, s, a);
    if a.Admit? {
      SizeWithout(s.armed, a.fd);
    }
    assert s'.armed <= s.armed;
    SubsetSize(s'.armed, s.armed);
  }

  /** Twice the events that have left a slot, less those its worker has finished. */
  function Surplus(slot: Slot, worker: Worker, pushed: seq<EventInfo>, popped: seq<EventInfo>): int {
    2 * (|pushed| - if slot.flag == Busy then 1 else 0) - (|popped| - Unfinished(worker))
  }

  /** When a completion is one step, each push is finished at most twice: once for the store and once
      for its signal. An idle slot owes one finish more while its worker serves or is woken, or its
      signal is still to come. */
  predicate SlotLate(
    slot: Slot, worker: Worker, pushed: seq<EventInfo>, popped: seq<EventInfo>, signalling: bool) {
    var idle := slot.flag != Busy;
    && worker != Counted
    && Surplus(slot, worker, pushed, popped) >=
       (if idle && (worker.Serving? || worker == Woken || signalling) then 1 else 0)
    && (idle && signalling ==> worker == AtPop || worker == Waiting)
  }

  ghost predicate LateOk(c: Config, s: State) {
    && ShapeOk(c, s)
    && forall w :: 0 <= w < c.threads ==>
      SlotLate(s.slots[w], s.workers[w], s.pushed[w], s.popped[w], s.dispatcher == Signalling(w))
  }

  lemma LateStep(c: Config, s: State, a: Action)
    requires c.atomicCompletion && LateOk(c, s) && Enabled(c, s, a)
    ensures LateOk(c, Next(c, s, a))
  {
    ShapeStep(c, s, a);
    forall w: nat | w < c.threads
      ensures var s' := Next(c, s, a);
        SlotLate(s'.slots[w], s'.workers[w], s'.pushed[w], s'.popped[w], s'.dispatcher == Signalling(w))
    {
      if a.Pop? || a.Resume? || a.Finish? || a.Release? {
        LateWorkerStep(c, s, a, w);
      } else {
        LateDispatcherStep(c, s, a, w);
      }
    }
    hide SlotLate, Next, Enabled;
  }

  lemma LateWorkerStep(c: Config, s: State, a: Action, w: nat)
    requires c.atomicCompletion && ShapeOk(c, s) && Enabled(c, s, a) && w < c.threads
    requires a.Pop? || a.Resume? || a.Finish? || a.Release?
    requires SlotLate(s.slots[w], s.workers[w], s.pushed[w], s.popped[w], s.dispatcher == Signalling(w))
    ensures var s' := Next(c, s, a);
      && |s'.slots| == |s.slots| && |s'.workers| == |s'.pushed| == |s'.popped| == c.threads
      && SlotLate(s'.slots[w], s'.workers[w], s'.pushed[w], s'.popped[w], s'.dispatcher == Signalling(w))
  {
  }

  lemma LateDispatcherStep(c: Config, s: State, a: Action, w: nat)
    requires c.atomicCompletion && ShapeOk(c, s) && Enabled(c, s, a) && w < c.threads
    requires a.Admit? || a.Hangup? || a.Scan? || a.Store? || a.Signal?
    requires SlotLate(s.slots[w], s.workers[w], s.pushed[w], s.popped[w], s.dispatcher == Signalling(w))
    ensures var s' := Next(c, s, a);
      && |s'.slots| == |s.slots| && |s'.workers| == |s'.pushed| == |s'.popped| == c.threads
      && SlotLate(s'.slots[w], s'.workers[w], s'.pushed[w], s'.popped[w], s'.dispatcher == Signalling(w))
  {
  }

  /** What holds in every reachable state. */
  ghost predicate BoundsOk(c: Config, s: State) {
    UsedOk(c, s) && SupplyOk(c, s) && CountersOk(s) && (c.atomicCompletion ==> LateOk(c, s))
  }

  lemma BoundsAtStart(c: Config, s: State)
    requires ValidConfig(c) && Init(c, s)
    ensures UsedOk(c, s) && SupplyOk(c, s) && LateOk(c, s)
  {
    NothingCounted(c, s);
    hide Admissions;
  }

  lemma {:induction false} BoundsAlways(c: Config, s: State, n: nat)
    requires ValidConfig(c) && ReachableIn(c, s, n)
    ensures BoundsOk(c, s)
    decreases n
  {
    hide Next, Enabled, ShapeOk, UsedOk, SupplyOk, LateOk, CountersOk;
    CountersAlways(c, s, n);
    if n == 0 {
      BoundsAtStart(c, s);
    } else {
      hide Init;
      var p, a :| ReachableIn(c, p, n - 1) && Enabled(c, p, a) && s == Next(c, p, a);
      BoundsAlways(c, p, n - 1);
      ShapeAlways(c, p, n - 1);
      UsedStep(c, p, a);
      SupplyStep(c, p, a);
      if c.atomicCompletion {
        LateStep(c, p, a);
      }
    }
  }

  lemma BusySnoc(slots: seq<Slot>)
    requires slots != []
    ensures var last := |slots| - 1;
      |BusyIn(slots)| == |BusyIn(slots[..last])| + if slots[last].flag == Busy then 1 else 0
  {
    var last := |slots| - 1;
    SizeWithout(BusyIn(slots), last);
    assert BusyIn(slots) - {last} == BusyIn(slots[..last]);
  }

  /** Busy slots, pushes and finishes of a number of workers. */
  lemma {:induction false} BusyBounds(
    slots: seq<Slot>, workers: seq<Worker>, pushed: seq<seq<EventInfo>>, popped: seq<seq<EventInfo>>)
    requires |slots| == |workers| == |pushed| == |popped|
    ensures (forall w :: 0 <= w < |slots| && slots[w].flag == Busy ==> pushed[w] != []) ==>
              |BusyIn(slots)| <= Pushes(pushed)
    ensures (forall w :: 0 <= w < |slots| ==> Surplus(slots[w], workers[w], pushed[w], popped[w]) >= 0) ==>
              FinishesIn(workers, popped) <= 2 * (Pushes(pushed) - |BusyIn(slots)|)
  {
    if slots != [] {
      var last := |slots| - 1;
      BusyBounds(slots[..last], workers[..last], pushed[..last], popped[..last]);
      BusySnoc(slots);
    } else {
      assert BusyIn(slots) == {};
    }
  }

  lemma BusyOfWorkers(c: Config, s: State)
    requires ShapeOk(c, s)
    ensures BusySet(s) == BusyIn(s.slots[..c.threads])
  {
  }

  lemma BoundsOfBusy(c: Config, s: State)
    requires BoundsOk(c, s)
    ensures |BusySet(s)| <= Pushes(s.pushed)
    ensures c.atomicCompletion ==> Finishes(s) <= 2 * (Pushes(s.pushed) - |BusySet(s)|)
  {
    BusyOfWorkers(c, s);
    BusyBounds(s.slots[..c.threads], s.workers, s.pushed, s.popped);
    hide BusyIn, BusySet, Pushes, FinishesIn;
    assert c.atomicCompletion ==> forall w :: 0 <= w < c.threads ==>
      SlotLate(s.slots[w], s.workers[w], s.pushed[w], s.popped[w], s.dispatcher == Signalling(w));
  }

  /** When an idle slot is always found. With a late signal a finish may be counted twice, but only
      after as many flows have come and gone. */
  predicate EnoughThreads(c: Config, flows: nat) {
    || c.concurrent == 0 || flows == 0
    || (c.atomicSignal && c.atomicCompletion)
    || (!c.modifyMayFail
        && (flows <= c.threads || (c.atomicCompletion && flows <= 2 * c.threads - c.concurrent + 1)))
  }

  lemma NoneCounted(c: Config, s: State)
    requires c.atomicCompletion && LateOk(c, s)
    ensures CountedSet(s) == {}
  {
    forall w: nat | w < c.threads
      ensures s.workers[w] != Counted
    {
      assert SlotLate(s.slots[w], s.workers[w], s.pushed[w], s.popped[w], s.dispatcher == Signalling(w));
    }
  }

  /** Too few flows have been admitted for enough of them to be uncounted twice. */
  lemma SlowFinishes(c: Config, flows: nat, pushes: nat, finishes: nat, busy: nat)
    requires ValidConfig(c) && pushes < flows <= 2 * c.threads - c.concurrent + 1
    requires finishes <= 2 * (pushes - busy) && ToU32(pushes - finishes) < c.concurrent
    ensures busy < c.threads
  {
  }

  /** Whenever a flow is admitted, fewer slots are busy than there are threads. */
  lemma SpareAtAdmit(c: Config, s: State, n: nat, a: Action)
    requires ValidConfig(c) && EnoughThreads(c, s.flows) && ReachableIn(c, s, n)
    requires a.Admit? && Enabled(c, s, a)
    ensures |BusySet(s)| < c.threads
  {
    hide ReachableIn, BusySet, CountedSet, Pushes, Finishes, LateOk, UsedOk, ShapeOk, DeliveryOk, ToU32;
    BoundsAlways(c, s, n);
    SizeWithout(s.armed, a.fd);
    assert Admissions(s) == Pushes(s.pushed);
    if c.atomicSignal && c.atomicCompletion {
      CountAlways(c, s, n);
      NoneCounted(c, s);
    } else {
      BoundsOfBusy(c, s);
      if s.flows > c.threads {
        SlowFinishes(c, s.flows, Pushes(s.pushed), Finishes(s), |BusySet(s)|);
      }
    }
  }

  /** A scan has an idle slot ahead of it. */
  ghost predicate ScanOk(c: Config, s: State) {
    && s.dispatcher != Exited
    && (s.dispatcher.Scanning? ==> IdleFrom(c, s.slots, s.dispatcher.i))
  }

  lemma {:induction false} ScanAlways(c: Config, s: State, n: nat)
    requires ValidConfig(c) && EnoughThreads(c, s.flows) && ReachableIn(c, s, n)
    ensures ScanOk(c, s)
    decreases n
  {
    hide Next, Enabled, ShapeOk, EnoughThreads, BusySet;
    if n > 0 {
      hide Init;
      var p, a :| ReachableIn(c, p, n - 1) && Enabled(c, p, a) && s == Next(c, p, a);
      FlowsConstant(c, p, a);
      ScanAlways(c, p, n - 1);
      ShapeAlways(c, p, n - 1);
      if a.Admit? {
        SpareAtAdmit(c, p, n - 1, a);
        IdleExists(c, p);
      }
      IdleAhead(c, p, a);
    }
  }

  lemma FlowsConstant(c: Config, s: State, a: Action)
    requires Enabled(c, s, a)
    ensures Next(c, s, a).flows == s.flows
  {
  }

  /** With completions as one step and a signal that is part of the store, never more slots are busy
      than the concurrency asked for, and get_valid_thread always finds a thread. */
  lemma ThreadAlwaysFound(c: Config, s: State)
    requires ValidConfig(c) && c.atomicSignal && c.atomicCompletion && Reachable(c, s)
    ensures s.dispatcher != Exited
    ensures |BusySet(s)| + InFlight(s) == s.active <= c.concurrent
  {
    var n: nat :| ReachableIn(c, s, n);
    CountAlways(c, s, n);
    BoundsAlways(c, s, n);
    NoneCounted(c, s);
    ScanAlways(c, s, n);
  }

  // Runs that use up the threads.

  /** The connection to admit next: a new one each time, or always the same one if it stays armed. */
  function NextFd(c: Config, used: nat): nat {
    if c.modifyMayFail then 0 else used
  }

  /** From the given number on, connections can be admitted. */
  ghost predicate Supplied(c: Config, s: State, used: nat) {
    if c.modifyMayFail then 0 in s.armed && 0 !in s.timed
    else forall fd :: used <= fd < s.flows ==> fd in s.armed && fd !in s.timed
  }

  /** The first n slots are busy, the others idle with their workers about to pop. */
  ghost predicate Filled(c: Config, s: State, n: nat, active: nat, used: nat) {
    && ShapeOk(c, s) && n <= c.threads && s.dispatcher == Ready
    && (forall w :: 0 <= w < n ==> s.slots[w].flag == Busy)
    && (forall w :: n <= w < c.threads ==> s.slots[w].flag == Idle && s.workers[w] == AtPop)
    && s.active == active && Supplied(c, s, used)
  }

  lemma FilledFirstIdle(c: Config, s: State, n: nat, active: nat, used: nat)
    requires Filled(c, s, n, active, used)
    ensures FirstIdle(s.slots) == if n < c.threads then n else MAX_THREADS
  {
    FirstIdleIs(s.slots, if n < c.threads then n else MAX_THREADS);
  }

  lemma FillStart(c: Config, flows: nat)
    requires ValidConfig(c) && 0 < flows < TWO32
    ensures Reachable(c, Start(c, flows)) && Filled(c, Start(c, flows), 0, 0, 0)
  {
    StartReachable(c, flows);
    hide Reachable;
  }

  /** What is the same after one more slot is filled, whatever happened on the way. */
  ghost predicate FilledOneMore(c: Config, s: State, n: nat, used: nat, s': State) {
    && ShapeOk(c, s) && ShapeOk(c, s') && n < c.threads
    && s'.dispatcher == Ready && s'.flows == s.flows
    && s'.slots[n].flag == Busy
    && (forall w :: 0 <= w < c.threads && w != n ==> s'.slots[w] == s.slots[w] && s'.workers[w] == s.workers[w])
    && Supplied(c, s', used)
  }

  lemma FilledNext(c: Config, s: State, n: nat, active: nat, used: nat, s': State, used': nat)
    requires Filled(c, s, n, active, used) && n < c.threads && FilledOneMore(c, s, n, used', s')
    ensures Filled(c, s', n + 1, s'.active, used')
  {
  }

  /** The state after a flow is admitted and stored in slot n, whose worker is about to pop. */
  function Stored(c: Config, s: State, n: nat, fd: nat): State
    requires n < |s.slots| && n < |s.pushed|
  {
    s.(slots := s.slots[n := Slot(Busy, EventInfo(fd, 1))],
       pushed := s.pushed[n := s.pushed[n] + [EventInfo(fd, 1)]],
       active := Add32(s.active, 1),
       armed := if c.modifyMayFail then s.armed else s.armed - {fd},
       timed := s.timed + {fd},
       dispatcher := if c.atomicSignal then Ready else Signalling(n))
  }

  lemma StoreNext(c: Config, s: State, n: nat, active: nat, used: nat) returns (s': State)
    requires ValidConfig(c) && Reachable(c, s) && Filled(c, s, n, active, used) && n < c.threads
    requires active < c.concurrent && (c.modifyMayFail || used < s.flows)
    ensures Reachable(c, s') && ShapeOk(c, s')
    ensures s' == Stored(c, s, n, NextFd(c, used))
  {
    CanAdmitNext(c, s, n, active, used);
    hide Reachable, FirstIdle, Filled, Enabled, ShapeOk, NextFd;
    s' := AdmitAndStore(c, s, NextFd(c, used), !c.modifyMayFail);
    ShapeOfReachable(c, s');
  }

  lemma CanAdmitNext(c: Config, s: State, n: nat, active: nat, used: nat)
    requires ValidConfig(c) && Filled(c, s, n, active, used)
    requires active < c.concurrent && (c.modifyMayFail || used < s.flows)
    ensures Enabled(c, s, Admit(NextFd(c, used), 1, !c.modifyMayFail)) && NextFd(c, used) !in s.timed
    ensures |s.slots| == MAX_THREADS && |s.workers| == |s.pushed| == c.threads && s.active == active
    ensures n < c.threads ==> FirstIdle(s.slots) == n && Wake(s.workers, n) == s.workers
  {
    FilledFirstIdle(c, s, n, active, used);
  }

  /** A flow that stays in its slot. */
  lemma FillPush(c: Config, s: State, n: nat, active: nat, used: nat) returns (s': State)
    requires ValidConfig(c) && !c.modifyMayFail && Reachable(c, s) && Filled(c, s, n, active, used)
    requires n < c.threads && active < c.concurrent && used < s.flows
    ensures Reachable(c, s') && Filled(c, s', n + 1, active + 1, used + 1) && s'.flows == s.flows
  {
    hide Reachable;
    s' := StoreNext(c, s, n, active, used);
    s' := SignalNobody(c, s', n);
    FilledNext(c, s, n, active, used, s', used + 1);
  }

  /** A flow that has been uncounted while its slot is still busy. */
  lemma FillCounted(c: Config, s: State, n: nat, used: nat) returns (s': State)
    requires ValidConfig(c) && !c.atomicCompletion && c.concurrent != 0
    requires Reachable(c, s) && Filled(c, s, n, 0, used) && n < c.threads && (c.modifyMayFail || used < s.flows)
    ensures Reachable(c, s') && Filled(c, s', n + 1, 0, used + 1) && s'.flows == s.flows
  {
    hide Reachable, Next, Enabled;
    s' := StoreNext(c, s, n, 0, used);
    s' := SignalNobody(c, s', n);
    s' := PopAndFinish(c, s', n, Error);
    ShapeOfReachable(c, s');
    FilledNext(c, s, n, 0, used, s', used + 1);
  }

  /** A flow served in slot n, and about to be served there again after a late signal. */
  lemma ServeTwiceAt(c: Config, s: State, n: nat, used: nat) returns (s': State)
    requires ValidConfig(c) && c.atomicCompletion && !c.atomicSignal && c.concurrent != 0
    requires Reachable(c, s) && Filled(c, s, n, 0, used) && n < c.threads && (c.modifyMayFail || used < s.flows)
    ensures Reachable(c, s') && ShapeOk(c, s')
    ensures var fd := NextFd(c, used);
      s' == s.(slots := s.slots[n := Slot(Idle, EventInfo(fd, 1))],
               workers := s.workers[n := Serving(EventInfo(fd, 1))],
               pushed := s'.pushed, popped := s'.popped, left := s'.left,
               armed := if c.modifyMayFail then s.armed else s.armed - {fd},
               timed := s.timed - {fd})
  {
    hide Reachable, Next, Enabled;
    s' := StoreNext(c, s, n, 0, used);
    s' := PopAndFinish(c, s', n, Error);
    s' := ServeAgain(c, s', n);
    ShapeOfReachable(c, s');
  }

  /** The next flow is admitted; before it is stored the repeated response is counted. */
  lemma UncountInFlight(c: Config, s: State, n: nat, fd: nat, e: EventInfo) returns (s': State)
    requires ValidConfig(c) && c.atomicCompletion && !c.atomicSignal && c.concurrent != 0
    requires Reachable(c, s) && ShapeOk(c, s) && n < c.threads && FirstIdle(s.slots) == n
    requires s.workers[n] == Serving(e) && s.dispatcher == Ready && s.active == 0
    requires fd in s.armed && fd !in s.timed
    ensures Reachable(c, s') && ShapeOk(c, s')
    ensures s' == s.(slots := s.slots[n := Slot(Busy, EventInfo(fd, 1))],
                     workers := s.workers[n := AtPop],
                     pushed := s'.pushed, left := s'.left,
                     armed := if c.modifyMayFail then s.armed else s.armed - {fd},
                     timed := s.timed + {fd} - {e.fd})
  {
    s' := AdmitAndUncount(c, s, n, fd, e);
    FirstIdleIs(s'.slots, n);
    hide Reachable, Next, Enabled, FirstIdle;
    s' := ScanAndStore(c, s');
    s' := SignalNobody(c, s', n);
    ShapeOfReachable(c, s');
  }

  /** The state after a flow is admitted and then worker n, at its idle slot, uncounts event e. */
  function Uncounted(c: Config, s: State, n: nat, fd: nat, e: EventInfo): State
    requires n < |s.workers|
  {
    s.(workers := s.workers[n := AtPop],
       dispatcher := Scanning(EventInfo(fd, 1), 0),
       left := ToU32(s.left - 1),
       armed := if c.modifyMayFail then s.armed else s.armed - {fd},
       timed := s.timed + {fd} - {e.fd})
  }

  lemma AdmitAndUncount(c: Config, s: State, n: nat, fd: nat, e: EventInfo) returns (s': State)
    requires ValidConfig(c) && c.atomicCompletion && c.concurrent != 0
    requires Reachable(c, s) && IsWorker(s, n) && fd in s.armed && fd !in s.timed
    requires s.slots[n].flag == Idle && s.workers[n] == Serving(e) && s.dispatcher == Ready && s.active == 0
    ensures Reachable(c, s') && s' == Uncounted(c, s, n, fd, e)
  {
    hide Reachable, Next;
    var p := AdmitOne(c, s, fd, !c.modifyMayFail);
    hide Enabled;
    s' := FinishServing(c, p, n, Error);
    assert s.slots[n := s.slots[n].(flag := Idle)] == s.slots;
    assert p.workers[n := Counted][n := AtPop] == s.workers[n := AtPop];
  }

  /** Two flows that leave one slot busy and no flow counted. */
  lemma FillTwice(c: Config, s: State, n: nat, used: nat) returns (s': State)
    requires ValidConfig(c) && c.atomicCompletion && !c.atomicSignal && c.concurrent != 0
    requires Reachable(c, s) && Filled(c, s, n, 0, used) && n < c.threads
    requires c.modifyMayFail || used + 1 < s.flows
    ensures Reachable(c, s') && Filled(c, s', n + 1, 0, used + 2) && s'.flows == s.flows
  {
    hide Reachable, Next, Enabled;
    var p := ServeTwiceAt(c, s, n, used);
    FirstIdleIs(p.slots, n);
    var fd := NextFd(c, used + 1);
    s' := UncountInFlight(c, p, n, fd, EventInfo(NextFd(c, used), 1));
    FilledNext(c, s, n, 0, used, s', used + 2);
  }

  /** Where the exit is reached from: all slots busy, and one more flow to admit. */
  lemma ExitFromFilled(c: Config, s: State, active: nat, used: nat) returns (s': State)
    requires ValidConfig(c) && Reachable(c, s) && Filled(c, s, c.threads, active, used)
    requires active < c.concurrent && (c.modifyMayFail || used < s.flows)
    ensures Reachable(c, s') && s'.dispatcher == Exited && s'.flows == s.flows
  {
    FilledFirstIdle(c, s, c.threads, active, used);
    var a := Admit(NextFd(c, used), 1, !c.modifyMayFail);
    Extend(c, s, a);
    s' := Next(c, s, a);
    hide Reachable, Next, Enabled;
    ScanCompletes(c, s');
    s' := AfterScan(s');
  }

  lemma {:induction false} FillAllCounted(c: Config, flows: nat, n: nat) returns (s: State)
    requires ValidConfig(c) && !c.atomicCompletion && c.concurrent != 0 && 0 < flows < TWO32
    requires n <= c.threads && (c.modifyMayFail || n <= flows)
    ensures Reachable(c, s) && Filled(c, s, n, 0, n) && s.flows == flows
  {
    hide Reachable, Filled;
    if n == 0 {
      FillStart(c, flows);
      s := Start(c, flows);
    } else {
      s := FillAllCounted(c, flows, n - 1);
      s := FillCounted(c, s, n - 1, n - 1);
    }
  }

  lemma {:induction false} FillAllTwice(c: Config, flows: nat, n: nat) returns (s: State)
    requires ValidConfig(c) && c.atomicCompletion && !c.atomicSignal && c.concurrent != 0 && 0 < flows < TWO32
    requires n <= c.threads && (c.modifyMayFail || 2 * n <= flows)
    ensures Reachable(c, s) && Filled(c, s, n, 0, 2 * n) && s.flows == flows
  {
    hide Reachable, Filled;
    if n == 0 {
      FillStart(c, flows);
      s := Start(c, flows);
    } else {
      s := FillAllTwice(c, flows, n - 1);
      s := FillTwice(c, s, n - 1, 2 * (n - 1));
    }
  }

  lemma {:induction false} FillAllPushes(c: Config, p: State, n: nat, used: nat, m: nat) returns (s: State)
    requires ValidConfig(c) && !c.modifyMayFail && Reachable(c, p) && Filled(c, p, n, 0, used)
    requires n + m <= c.threads && m <= c.concurrent && used + m <= p.flows
    ensures Reachable(c, s) && Filled(c, s, n + m, m, used + m) && s.flows == p.flows
  {
    hide Reachable, Filled;
    if m == 0 {
      s := p;
    } else {
      s := FillAllPushes(c, p, n, used, m - 1);
      s := FillPush(c, s, n + m - 1, m - 1, used + m - 1);
    }
  }

  /** The exit is reached in some run in all other cases. */
  lemma OutnumberedExits(c: Config, flows: nat) returns (s: State)
    requires ValidConfig(c) && flows < TWO32 && !EnoughThreads(c, flows)
    ensures Reachable(c, s) && s.flows == flows && s.dispatcher == Exited
  {
    hide Reachable, Filled;
    if !c.atomicCompletion {
      s := FillAllCounted(c, flows, c.threads);
      s := ExitFromFilled(c, s, 0, c.threads);
    } else if c.modifyMayFail {
      s := FillAllTwice(c, flows, c.threads);
      s := ExitFromFilled(c, s, 0, 2 * c.threads);
    } else {
      var twice := c.threads - c.concurrent + 1;
      s := FillAllTwice(c, flows, twice);
      s := FillAllPushes(c, s, twice, 2 * twice, c.concurrent - 1);
      s := ExitFromFilled(c, s, c.concurrent - 1, 2 * twice + c.concurrent - 1);
    }
  }

  /** For every configuration and every number of connections, the client never exits for want of a
      thread, in any run, if and only if there are enough threads in this sense: nothing is admitted
      at all; or signal and completion are each one step; or modify_epoll_event does not fail and the
      connections are no more than the threads or, if the completion is one step, no more than twice
      the threads, less the concurrency, plus 1. */
  lemma NeverOutnumberedIff(c: Config, flows: nat)
    requires ValidConfig(c) && flows < TWO32
    ensures (forall s :: Reachable(c, s) && s.flows == flows ==> s.dispatcher != Exited) <==> EnoughThreads(c, flows)
  {
    if EnoughThreads(c, flows) {
      forall s | Reachable(c, s) && s.flows == flows
        ensures s.dispatcher != Exited
      {
        var n: nat :| ReachableIn(c, s, n);
        ScanAlways(c, s, n);
      }
    } else {
      var s := OutnumberedExits(c, flows);
    }
  }
}

/** The handoff of flows from the dispatcher of the client to its worker threads, as a state
    machine over the steps of the threads.

    Every worker owns one slot. A step is a stretch of code that touches shared state once, or
    holds the slot's mutex. The dispatcher reads the slot flags one at a time and without a lock.
    Two of the granularities and two failures are configurable, because the results depend on them.
    A state with an exit or a failed assertion is where the program ends; what the machine still
    does after it only makes the results about all reachable states stronger. */
module Handoff {
  import opened Machine

  const MAX_THREADS: nat := 64

  datatype Flag = Idle | Busy | Invalid

  datatype EventInfo = EventInfo(fd: nat, flowSize: nat)

  datatype Slot = Slot(flag: Flag, event: EventInfo)

  datatype Worker =
    | AtPop                      // about to lock its slot in event_pop
    | Waiting                    // in pthread_cond_wait on its slot's "busy" condition
    | Woken                      // signalled; will read the event without testing the flag again
    | Serving(event: EventInfo)  // reading the response of a popped event
    | Counted                    // has decremented the counters, not yet set its flag to idle
    | AssertFailed               // found no time entry for its response: the program ends

  datatype Dispatcher =
    | Ready                                // between events of its loop
    | Scanning(event: EventInfo, i: nat)   // a flow is admitted; get_valid_thread reads flag i next
    | Chosen(event: EventInfo, i: nat)     // get_valid_thread returned i
    | WaitingIdle(event: EventInfo, i: nat) // in pthread_cond_wait inside event_push
    | Signalling(i: nat)                   // has unlocked slot i, not yet signalled
    | Exited                               // get_valid_thread returned -1: the program ends
    | Aborted                              // the flow already had a time entry: an assertion fails

  /** atomicSignal: store, unlock and signal of event_push are one step.
      atomicCompletion: the counter updates and the idle flag of a worker are one step.
      modifyMayFail: epoll_ctl may fail in modify_epoll_event. The caller tests for a negative result
      and the function returns 1, so the flow is counted and handed over all the same; but its
      connection stays registered for writing.
      hangups: the dispatcher may be told of an error or hang-up; it deletes the flow and counts
      nothing. */
  datatype Config = Config(
    threads: nat,
    concurrent: nat,
    atomicSignal: bool,
    atomicCompletion: bool,
    modifyMayFail: bool,
    hangups: bool)

  /** The program's own checks of the thread count and the concurrency, which are unsigned. */
  predicate ValidConfig(c: Config) {
    0 < c.threads < MAX_THREADS && c.concurrent <= c.threads
  }

  /** What read_responce returned: the flow size, another count, or -1. */
  datatype Response = Complete | Short | Error

  /** open: connections not closed. armed: those of them registered for writing, which the dispatcher
      may be told are ready. timed: connections with a time entry in use. flows: connections at the
      start. pushed and popped: the history of each slot. */
  datatype State = State(
    slots: seq<Slot>,
    workers: seq<Worker>,
    dispatcher: Dispatcher,
    active: u32,
    left: u32,
    open: set<nat>,
    armed: set<nat>,
    timed: set<nat>,
    flows: nat,
    pushed: seq<seq<EventInfo>>,
    popped: seq<seq<EventInfo>>)

  datatype Action =
    | Admit(fd: nat, flowSize: nat, modified: bool)
    | Hangup(fd: nat)
    | Scan
    | Store
    | Signal
    | Pop(w: nat)
    | Resume(w: nat)
    | Finish(w: nat, response: Response)
    | Release(w: nat)

  predicate Init(c: Config, s: State) {
    && |s.slots| == MAX_THREADS && |s.workers| == |s.pushed| == |s.popped| == c.threads
    && (forall i :: 0 <= i < MAX_THREADS ==>
          s.slots[i] == Slot(if i < c.threads then Idle else Invalid, EventInfo(0, 0)))
    && (forall w :: 0 <= w < c.threads ==> s.workers[w] == AtPop && s.pushed[w] == [] && s.popped[w] == [])
    && s.dispatcher == Ready && s.active == 0 && s.timed == {}
    && s.open == s.armed && s.left == s.flows == |s.armed|
  }

  predicate IsWorker(s: State, w: nat) {
    w < |s.workers| && w < |s.slots| && w < |s.popped|
  }

  /** When an action can be taken. */
  predicate Enabled(c: Config, s: State, a: Action) {
    match a
    case Admit(fd, _, modified) =>
      && s.dispatcher == Ready && fd in s.armed
      && s.active < c.concurrent && (modified || c.modifyMayFail)
    case Hangup(fd) => s.dispatcher == Ready && fd in s.open && c.hangups
    case Scan => s.dispatcher.Scanning?
    case Store => s.dispatcher.Chosen? && s.dispatcher.i < |s.slots| && s.dispatcher.i < |s.pushed|
    case Signal => s.dispatcher.Signalling?
    case Pop(w) => IsWorker(s, w) && s.workers[w] == AtPop
    case Resume(w) => IsWorker(s, w) && s.workers[w] == Woken
    case Finish(w, _) => IsWorker(s, w) && s.workers[w].Serving?
    case Release(w) => IsWorker(s, w) && s.workers[w] == Counted
  }

  /** pthread_cond_signal on a slot's "busy" condition. */
  function Wake(workers: seq<Worker>, i: nat): seq<Worker> {
    if i < |workers| && workers[i] == Waiting then workers[i := Woken] else workers
  }

  /** A worker copies its slot's event, whatever the flag. */
  function Take(s: State, w: nat): State
    requires IsWorker(s, w)
  {
    var e := s.slots[w].event;
    s.(workers := s.workers[w := Serving(e)], popped := s.popped[w := s.popped[w] + [e]])
  }

  function SetIdle(s: State, w: nat): State
    requires IsWorker(s, w)
  {
    s.(slots := s.slots[w := s.slots[w].(flag := Idle)], workers := s.workers[w := AtPop])
  }

  /** The connection is closed unless reading failed; the time entry is kept for a complete response
      only. */
  function CloseFlow(s: State, fd: nat, response: Response): State {
    s.(open := if response == Error then s.open else s.open - {fd},
       armed := if response == Error then s.armed else s.armed - {fd},
       timed := if response == Complete then s.timed else s.timed - {fd})
  }

  function Uncount(s: State, w: nat): State
    requires IsWorker(s, w)
  {
    s.(active := ToU32(s.active - 1), left := ToU32(s.left - 1), workers := s.workers[w := Counted])
  }

  function Next(c: Config, s: State, a: Action): State
    requires Enabled(c, s, a)
  {
    match a
    case Admit(fd, flowSize, modified) =>
      s.(dispatcher := if fd in s.timed then Aborted else Scanning(EventInfo(fd, flowSize), 0),
         active := Add32(s.active, 1),
         armed := if modified then s.armed - {fd} else s.armed,
         timed := s.timed + {fd})
    case Hangup(fd) => s.(open := s.open - {fd}, armed := s.armed - {fd}, timed := s.timed - {fd})
    case Scan =>
      var Scanning(e, i) := s.dispatcher;
      s.(dispatcher :=
           if i >= |s.slots| then Exited
           else if s.slots[i].flag == Idle then Chosen(e, i)
           else Scanning(e, i + 1))
    case Store =>
      var Chosen(e, i) := s.dispatcher;
      if s.slots[i].flag == Busy then s.(dispatcher := WaitingIdle(e, i))
      else
        var s' := s.(slots := s.slots[i := Slot(Busy, e)], pushed := s.pushed[i := s.pushed[i] + [e]]);
        if c.atomicSignal then s'.(workers := Wake(s.workers, i), dispatcher := Ready)
        else s'.(dispatcher := Signalling(i))
    case Signal => s.(workers := Wake(s.workers, s.dispatcher.i), dispatcher := Ready)
    case Pop(w) =>
      if s.slots[w].flag == Idle then s.(workers := s.workers[w := Waiting]) else Take(s, w)
    case Resume(w) => Take(s, w)
    case Finish(w, response) =>
      var fd := s.workers[w].event.fd;
      if response == Complete && fd !in s.timed then s.(workers := s.workers[w := AssertFailed])
      else
        var s' := Uncount(CloseFlow(s, fd, response), w);
        if c.atomicCompletion then SetIdle(s', w) else s'
    case Release(w) => SetIdle(s, w)
  }

  /** What get_valid_thread returns on given flags; the number of slots if none is idle. */
  function FirstIdle(slots: seq<Slot>): (i: nat)
    ensures i <= |slots|
    ensures forall j :: 0 <= j < i ==> slots[j].flag != Idle
    ensures i < |slots| ==> slots[i].flag == Idle
  {
    if slots == [] || slots[0].flag == Idle then 0 else 1 + FirstIdle(slots[1..])
  }

  lemma FirstIdleIs(slots: seq<Slot>, i: nat)
    requires i <= |slots|
    requires forall j :: 0 <= j < i ==> slots[j].flag != Idle
    requires i < |slots| ==> slots[i].flag == Idle
    ensures FirstIdle(slots) == i
  {
  }

  /** Reached from an initial state in n actions. */
  ghost predicate ReachableIn(c: Config, s: State, n: nat)
    decreases n
  {
    if n == 0 then Init(c, s)
    else exists p, a :: ReachableIn(c, p, n - 1) && Enabled(c, p, a) && s == Next(c, p, a)
  }

  ghost predicate Reachable(c: Config, s: State) {
    exists n: nat :: ReachableIn(c, s, n)
  }

  /** A run: states with the actions between them. */
  ghost predicate IsRun(c: Config, states: seq<State>, acts: seq<Action>) {
    && |states| == |acts| + 1 && Init(c, states[0])
    && forall i :: 0 <= i < |acts| ==> Enabled(c, states[i], acts[i]) && states[i + 1] == Next(c, states[i], acts[i])
  }

  lemma {:induction false} RunReaches(c: Config, states: seq<State>, acts: seq<Action>, n: nat)
    requires IsRun(c, states, acts) && n <= |acts|
    ensures ReachableIn(c, states[n], n)
  {
    hide Next, Enabled, Init;
    if n > 0 {
      RunReaches(c, states, acts, n - 1);
    }
  }

  // What holds in every configuration.

  /** Slots of workers are valid and the others are not; a chosen slot stays idle until it is used,
      so the wait inside event_push does not happen. */
  ghost predicate ShapeOk(c: Config, s: State) {
    && ValidConfig(c)
    && |s.slots| == MAX_THREADS && |s.workers| == |s.pushed| == |s.popped| == c.threads
    && (forall i :: 0 <= i < MAX_THREADS ==> (s.slots[i].flag == Invalid <==> i >= c.threads))
    && (s.dispatcher.Chosen? ==> s.dispatcher.i < c.threads && s.slots[s.dispatcher.i].flag == Idle)
    && !s.dispatcher.WaitingIdle?
  }

  lemma ShapeInit(c: Config, s: State)
    requires ValidConfig(c) && Init(c, s)
    ensures ShapeOk(c, s)
  {
  }

  lemma ShapeStep(c: Config, s: State, a: Action)
    requires ValidConfig(c) && ShapeOk(c, s) && Enabled(c, s, a)
    ensures ShapeOk(c, Next(c, s, a))
  {
  }

  lemma {:induction false} ShapeAlways(c: Config, s: State, n: nat)
    requires ValidConfig(c) && ReachableIn(c, s, n)
    ensures ShapeOk(c, s)
    decreases n
  {
    hide Init, Next, Enabled, ShapeOk, DeliveryOk;
    if n == 0 {
      ShapeInit(c, s);
    } else {
      var p, a :| ReachableIn(c, p, n - 1) && Enabled(c, p, a) && s == Next(c, p, a);
      ShapeAlways(c, p, n - 1);
      ShapeStep(c, p, a);
    }
  }

  /** In no configuration does a flow go to a slot without a thread, or event_push wait. */
  lemma PushNeverWaits(c: Config, s: State)
    requires ValidConfig(c) && Reachable(c, s)
    ensures !s.dispatcher.WaitingIdle?
    ensures |s.slots| == 64 && |s.workers| == c.threads < 64
    ensures s.dispatcher.Chosen? ==> s.dispatcher.i < c.threads && s.slots[s.dispatcher.i].flag == Idle
  {
    var n: nat :| ReachableIn(c, s, n);
    ShapeAlways(c, s, n);
  }

  // Delivery, when the signal is part of the store.

  /** The state of one slot, its worker and their histories. */
  predicate SlotOk(slot: Slot, worker: Worker, pushed: seq<EventInfo>, popped: seq<EventInfo>) {
    match worker
    case AtPop => pushed == if slot.flag == Busy then popped + [slot.event] else popped
    case Waiting => slot.flag == Idle && pushed == popped
    case Woken => slot.flag == Busy && pushed == popped + [slot.event]
    case Serving(e) => slot.flag == Busy && pushed == popped && popped != [] && popped[|popped| - 1] == e
    case Counted => slot.flag == Busy && pushed == popped
    case AssertFailed => slot.flag == Busy && pushed == popped
  }

  ghost predicate DeliveryOk(c: Config, s: State) {
    && ShapeOk(c, s)
    && !s.dispatcher.Signalling?
    && (forall w :: 0 <= w < c.threads ==> SlotOk(s.slots[w], s.workers[w], s.pushed[w], s.popped[w]))
  }

  lemma DeliveryInit(c: Config, s: State)
    requires ValidConfig(c) && Init(c, s)
    ensures DeliveryOk(c, s)
  {
  }

  lemma DeliveryStep(c: Config, s: State, a: Action)
    requires ValidConfig(c) && c.atomicSignal && DeliveryOk(c, s) && Enabled(c, s, a)
    ensures DeliveryOk(c, Next(c, s, a))
  {
    ShapeStep(c, s, a);
  }

  lemma {:induction false} DeliveryAlways(c: Config, s: State, n: nat)
    requires ValidConfig(c) && c.atomicSignal && ReachableIn(c, s, n)
    ensures DeliveryOk(c, s)
    decreases n
  {
    hide Init, Next, Enabled, ShapeOk, DeliveryOk;
    if n == 0 {
      DeliveryInit(c, s);
    } else {
      var p, a :| ReachableIn(c, p, n - 1) && Enabled(c, p, a) && s == Next(c, p, a);
      DeliveryAlways(c, p, n - 1);
      DeliveryStep(c, p, a);
    }
  }

  /** Events are popped from each slot exactly as they were pushed to it: in order, none lost,
      overwritten or repeated, with at most the newest one still to be popped. */
  ghost predicate ExactlyOnce(s: State) {
    && |s.pushed| == |s.popped|
    && forall w :: 0 <= w < |s.pushed| ==>
      s.popped[w] <= s.pushed[w] && |s.pushed[w]| <= |s.popped[w]| + 1
  }

  /** In every reachable state delivery is exactly once; the newest event of a slot is still to be
      popped just when the slot is busy and its worker has not read it yet. */
  lemma DeliveredExactlyOnce(c: Config, s: State)
    requires ValidConfig(c) && c.atomicSignal && Reachable(c, s)
    ensures ExactlyOnce(s)
    ensures |s.slots| == MAX_THREADS && |s.workers| == |s.pushed| == |s.popped| == c.threads
    ensures forall w :: 0 <= w < c.threads ==>
      (s.pushed[w] != s.popped[w] <==> s.slots[w].flag == Busy && (s.workers[w] == AtPop || s.workers[w] == Woken))
  {
    var n: nat :| ReachableIn(c, s, n);
    DeliveryAlways(c, s, n);
    forall w | 0 <= w < c.threads
      ensures s.popped[w] <= s.pushed[w] && |s.pushed[w]| <= |s.popped[w]| + 1
      ensures s.pushed[w] != s.popped[w] <==>
                s.slots[w].flag == Busy && (s.workers[w] == AtPop || s.workers[w] == Woken)
    {
      assert SlotOk(s.slots[w], s.workers[w], s.pushed[w], s.popped[w]);
    }
  }
}

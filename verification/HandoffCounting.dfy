/** The active_flows and left_flows counters, in every configuration against what the workers have
    finished, and against the slots when the signal is part of the store. */
module HandoffCounting {
  import opened Machine
  import opened Handoff

  ghost function BusyIn(slots: seq<Slot>): set<nat> {
    set i: nat | i < |slots| && slots[i].flag == Busy
  }

  ghost function CountedIn(workers: seq<Worker>): set<nat> {
    set w: nat | w < |workers| && workers[w] == Counted
  }

  ghost function BusySet(s: State): set<nat> {
    BusyIn(s.slots)
  }

  ghost function CountedSet(s: State): set<nat> {
    CountedIn(s.workers)
  }

  lemma SizeWithout(a: set<nat>, x: nat)
    ensures |a - {x}| == |a| - if x in a then 1 else 0
  {
    if x !in a {
      assert a - {x} == a;
    }
  }

  lemma SizeAgree(a: set<nat>, b: set<nat>, x: nat)
    requires forall y: nat :: y != x ==> (y in a <==> y in b)
    ensures |a| - (if x in a then 1 else 0) == |b| - if x in b then 1 else 0
  {
    SizeWithout(a, x);
    SizeWithout(b, x);
    assert a - {x} == b - {x};
  }

  lemma BusyUpdate(slots: seq<Slot>, i: nat, slot: Slot)
    requires i < |slots|
    ensures |BusyIn(slots[i := slot])| ==
            |BusyIn(slots)| - (if slots[i].flag == Busy then 1 else 0) + (if slot.flag == Busy then 1 else 0)
  {
    var busy, busy' := BusyIn(slots), BusyIn(slots[i := slot]);
    assert i in busy <==> slots[i].flag == Busy;
    assert i in busy' <==> slot.flag == Busy;
    assert forall j: nat :: j != i ==> (j in busy <==> j in busy');
    hide BusyIn;
    SizeAgree(busy, busy', i);
  }

  lemma CountedUpdate(workers: seq<Worker>, w: nat, worker: Worker)
    requires w < |workers|
    ensures |CountedIn(workers[w := worker])| ==
            |CountedIn(workers)| - (if workers[w] == Counted then 1 else 0) + (if worker == Counted then 1 else 0)
  {
    var counted, counted' := CountedIn(workers), CountedIn(workers[w := worker]);
    assert w in counted <==> workers[w] == Counted;
    assert w in counted' <==> worker == Counted;
    assert forall v: nat :: v != w ==> (v in counted <==> v in counted');
    hide CountedIn;
    SizeAgree(counted, counted', w);
  }

  /** One while the dispatcher has counted a flow that no slot holds, or never will. */
  function InFlight(s: State): nat {
    if s.dispatcher.Scanning? || s.dispatcher.Chosen? || s.dispatcher.Exited? || s.dispatcher.Aborted? then 1 else 0
  }

  /** The number of events pushed to all slots. */
  function Pushes(pushed: seq<seq<EventInfo>>): nat {
    if pushed == [] then 0 else Pushes(pushed[..|pushed| - 1]) + |pushed[|pushed| - 1]|
  }

  lemma {:induction false} PushesUpdate(pushed: seq<seq<EventInfo>>, w: nat, e: EventInfo)
    requires w < |pushed|
    ensures Pushes(pushed[w := pushed[w] + [e]]) == Pushes(pushed) + 1
  {
    var last := |pushed| - 1;
    var pushed' := pushed[w := pushed[w] + [e]];
    if w == last {
      assert pushed'[..last] == pushed[..last];
    } else {
      PushesUpdate(pushed[..last], w, e);
      assert pushed'[..last] == pushed[..last][w := pushed[..last][w] + [e]];
    }
  }

  lemma {:induction false} NoPushes(pushed: seq<seq<EventInfo>>)
    requires forall w :: 0 <= w < |pushed| ==> pushed[w] == []
    ensures Pushes(pushed) == 0
  {
    if pushed != [] {
      NoPushes(pushed[..|pushed| - 1]);
    }
  }

  /** How often the dispatcher has admitted a connection. */
  function Admissions(s: State): nat {
    Pushes(s.pushed) + InFlight(s)
  }

  // The counters in every configuration.

  /** One for a worker that has popped an event and not updated the counters. */
  function Unfinished(worker: Worker): nat {
    if worker.Serving? || worker == AssertFailed then 1 else 0
  }

  function FinishesIn(workers: seq<Worker>, popped: seq<seq<EventInfo>>): int
    requires |workers| == |popped|
  {
    if workers == [] then 0
    else
      var last := |workers| - 1;
      FinishesIn(workers[..last], popped[..last]) + |popped[last]| - Unfinished(workers[last])
  }

  /** How often a worker has updated the counters. */
  function Finishes(s: State): int {
    if |s.workers| == |s.popped| then FinishesIn(s.workers, s.popped) else 0
  }

  lemma {:induction false} FinishesUpdate(
    workers: seq<Worker>, popped: seq<seq<EventInfo>>, w: nat, worker: Worker, pops: seq<EventInfo>)
    requires |workers| == |popped| && w < |workers|
    ensures FinishesIn(workers[w := worker], popped[w := pops]) ==
            FinishesIn(workers, popped) - (|popped[w]| - Unfinished(workers[w])) + (|pops| - Unfinished(worker))
  {
    var last := |workers| - 1;
    var workers', popped' := workers[w := worker], popped[w := pops];
    if w == last {
      assert workers'[..last] == workers[..last] && popped'[..last] == popped[..last];
    } else {
      FinishesUpdate(workers[..last], popped[..last], w, worker, pops);
      assert workers'[..last] == workers[..last][w := worker] && popped'[..last] == popped[..last][w := pops];
    }
  }

  lemma {:induction false} NoFinishes(workers: seq<Worker>, popped: seq<seq<EventInfo>>)
    requires |workers| == |popped|
    requires forall w :: 0 <= w < |workers| ==> workers[w] == AtPop && popped[w] == []
    ensures FinishesIn(workers, popped) == 0
  {
    if workers != [] {
      NoFinishes(workers[..|workers| - 1], popped[..|workers| - 1]);
    }
  }

  /** A worker finishes without a failed assertion. */
  predicate Uncounts(s: State, a: Action) {
    && a.Finish? && IsWorker(s, a.w) && s.workers[a.w].Serving?
    && (a.response == Complete ==> s.workers[a.w].event.fd in s.timed)
  }

  lemma FinishesWake(workers: seq<Worker>, popped: seq<seq<EventInfo>>, i: nat)
    requires |workers| == |popped|
    ensures FinishesIn(Wake(workers, i), popped) == FinishesIn(workers, popped)
  {
    if i < |workers| && workers[i] == Waiting {
      FinishesUpdate(workers, popped, i, Woken, popped[i]);
      assert popped[i := popped[i]] == popped;
    }
  }

  /** How an action changes the number of finished events. */
  lemma FinishesStep(c: Config, s: State, a: Action)
    requires Enabled(c, s, a) && |s.workers| == |s.popped|
    ensures Finishes(Next(c, s, a)) == Finishes(s) + if Uncounts(s, a) then 1 else 0
  {
    hide FinishesIn;
    if a.Store? || a.Signal? {
      FinishesWake(s.workers, s.popped, s.dispatcher.i);
    } else if a.Pop? || a.Resume? || a.Finish? || a.Release? {
      WorkerStep(c, s, a);
      var s' := Next(c, s, a);
      FinishesUpdate(s.workers, s.popped, a.w, s'.workers[a.w], s'.popped[a.w]);
      hide Next, Enabled, Uncounts, Unfinished;
    }
  }

  /** A worker's action changes its own state and history only. */
  lemma WorkerStep(c: Config, s: State, a: Action)
    requires Enabled(c, s, a) && |s.workers| == |s.popped|
    requires a.Pop? || a.Resume? || a.Finish? || a.Release?
    ensures var s' := Next(c, s, a);
      && a.w < |s.workers| == |s'.workers| == |s'.popped|
      && s'.workers == s.workers[a.w := s'.workers[a.w]] && s'.popped == s.popped[a.w := s'.popped[a.w]]
      && |s'.popped[a.w]| - Unfinished(s'.workers[a.w]) ==
         |s.popped[a.w]| - Unfinished(s.workers[a.w]) + if Uncounts(s, a) then 1 else 0
  {
  }

  lemma AdmissionsStep(c: Config, s: State, a: Action)
    requires ShapeOk(c, s) && Enabled(c, s, a)
    ensures Admissions(Next(c, s, a)) == Admissions(s) + if a.Admit? then 1 else 0
  {
    if a.Store? {
      PushesUpdate(s.pushed, s.dispatcher.i, s.dispatcher.event);
    }
  }

  ghost predicate CountersOk(s: State) {
    && s.active == ToU32(Admissions(s) - Finishes(s))
    && s.left == ToU32(s.flows - Finishes(s))
    && Finishes(s) >= 0
  }

  lemma ToU32Step(x: int, d: int)
    ensures ToU32(ToU32(x) + d) == ToU32(x + d)
  {
  }

  lemma CountersStep(c: Config, s: State, a: Action)
    requires ShapeOk(c, s) && CountersOk(s) && Enabled(c, s, a)
    ensures CountersOk(Next(c, s, a))
  {
    AdmissionsStep(c, s, a);
    FinishesStep(c, s, a);
    assert Next(c, s, a).flows == s.flows;
    assert Next(c, s, a).active ==
      if a.Admit? then ToU32(s.active + 1) else if Uncounts(s, a) then ToU32(s.active + -1) else s.active;
    assert Next(c, s, a).left == if Uncounts(s, a) then ToU32(s.left + -1) else s.left;
    hide Next, Enabled, Admissions, Finishes, ToU32, ShapeOk, Uncounts;
    ToU32Step(Admissions(s) - Finishes(s), if a.Admit? then 1 else -1);
    ToU32Step(s.flows - Finishes(s), -1);
  }

  lemma NothingCounted(c: Config, s: State)
    requires Init(c, s)
    ensures Admissions(s) == 0 && Finishes(s) == 0
  {
    NoPushes(s.pushed);
    NoFinishes(s.workers, s.popped);
  }

  lemma {:induction false} CountersAlways(c: Config, s: State, n: nat)
    requires ValidConfig(c) && ReachableIn(c, s, n)
    ensures CountersOk(s)
    decreases n
  {
    hide Next, Enabled, ShapeOk, CountersOk;
    if n == 0 {
      NothingCounted(c, s);
      CountersAtStart(s);
    } else {
      hide Init;
      var p, a :| ReachableIn(c, p, n - 1) && Enabled(c, p, a) && s == Next(c, p, a);
      CountersAlways(c, p, n - 1);
      ShapeAlways(c, p, n - 1);
      CountersStep(c, p, a);
    }
  }

  lemma CountersAtStart(s: State)
    requires Admissions(s) == 0 && Finishes(s) == 0 && s.active == 0 && s.left == s.flows
    ensures CountersOk(s)
  {
  }

  /** In every configuration, through late signals, failures and hang-ups, active_flows is the
      admissions less the finished events, and left_flows the connections less the finished events. */
  lemma CountersInEveryConfig(c: Config, s: State)
    requires ValidConfig(c) && Reachable(c, s)
    ensures s.active == ToU32(Admissions(s) - Finishes(s))
    ensures s.left == ToU32(s.flows - Finishes(s))
    ensures Finishes(s) >= 0
  {
    hide Admissions, Finishes, ToU32, ReachableIn;
    var n: nat :| ReachableIn(c, s, n);
    CountersAlways(c, s, n);
  }

  // The counters against the slots, when the signal is part of the store.

  /** Busy slots are the active flows, less the one in flight, plus the flows that a worker has
      already uncounted. */
  ghost predicate Balanced(s: State) {
    |BusySet(s)| + InFlight(s) == s.active + |CountedSet(s)|
  }

  ghost predicate CountOk(c: Config, s: State) {
    DeliveryOk(c, s) && Balanced(s) && s.active <= Admissions(s) && s.active <= c.concurrent
  }

  lemma CountInit(c: Config, s: State)
    requires ValidConfig(c) && Init(c, s)
    ensures CountOk(c, s)
  {
    DeliveryInit(c, s);
    NoPushes(s.pushed);
    assert BusySet(s) == {} && CountedSet(s) == {};
  }

  /** The flow of a busy slot is counted until its worker has updated the counters. */
  lemma HeldIsCounted(c: Config, s: State, w: nat)
    requires CountOk(c, s) && w < c.threads && s.slots[w].flag == Busy && s.workers[w] != Counted
    ensures s.active >= 1
  {
    var busy, counted := BusySet(s), CountedSet(s);
    CountedAreBusy(c, s);
    assert counted <= busy - {w};
    SubsetSize(counted, busy - {w});
  }

  lemma CountedAreBusy(c: Config, s: State)
    requires DeliveryOk(c, s)
    ensures CountedSet(s) <= BusySet(s)
  {
    forall v | v in CountedSet(s)
      ensures v in BusySet(s)
    {
      assert SlotOk(s.slots[v], s.workers[v], s.pushed[v], s.popped[v]);
    }
  }

  lemma SubsetSize(a: set<nat>, b: set<nat>)
    requires a <= b
    ensures |a| <= |b|
  {
    assert b == a + (b - a);
  }

  /** How an action changes the number of busy slots. */
  lemma BusyStep(c: Config, s: State, a: Action)
    requires Enabled(c, s, a)
    requires a.Store? ==> s.slots[s.dispatcher.i].flag == Idle
    requires a.Finish? || a.Release? ==> s.slots[a.w].flag == Busy
    ensures |BusySet(Next(c, s, a))| == |BusySet(s)| +
            if a.Store? then 1 else if a.Release? || (Uncounts(s, a) && c.atomicCompletion) then -1 else 0
  {
    hide BusyIn;
    if a.Store? {
      BusyUpdate(s.slots, s.dispatcher.i, Slot(Busy, s.dispatcher.event));
    } else if a.Release? || (Uncounts(s, a) && c.atomicCompletion) {
      BusyUpdate(s.slots, a.w, s.slots[a.w].(flag := Idle));
    }
  }

  /** How an action changes the number of workers between their counter updates and their idle flag. */
  lemma CountedStep(c: Config, s: State, a: Action)
    requires Enabled(c, s, a)
    ensures |CountedSet(Next(c, s, a))| == |CountedSet(s)| +
            if Uncounts(s, a) && !c.atomicCompletion then 1 else if a.Release? then -1 else 0
  {
    hide CountedIn;
    var workers' := Next(c, s, a).workers;
    match a
    case Admit(_, _, _) =>
    case Hangup(_) =>
    case Scan =>
    case Store => CountedWake(s.workers, s.dispatcher.i);
    case Signal => CountedWake(s.workers, s.dispatcher.i);
    case Pop(w) => CountedUpdate(s.workers, w, workers'[w]);
    case Resume(w) => CountedUpdate(s.workers, w, workers'[w]);
    case Finish(w, _) =>
      CountedUpdate(s.workers, w, workers'[w]);
      assert c.atomicCompletion && Uncounts(s, a) ==> s.workers[w := Counted][w := AtPop] == s.workers[w := AtPop];
    case Release(w) => CountedUpdate(s.workers, w, AtPop);
  }

  lemma CountedWake(workers: seq<Worker>, i: nat)
    ensures |CountedIn(Wake(workers, i))| == |CountedIn(workers)|
  {
    if i < |workers| && workers[i] == Waiting {
      CountedUpdate(workers, i, Woken);
    }
  }

  lemma BalancedStep(c: Config, s: State, a: Action)
    requires c.atomicSignal && CountOk(c, s) && Enabled(c, s, a)
    ensures var s' := Next(c, s, a);
      Balanced(s') && s'.active <= Admissions(s') && s'.active <= c.concurrent
  {
    if a.Finish? || a.Release? {
      assert SlotOk(s.slots[a.w], s.workers[a.w], s.pushed[a.w], s.popped[a.w]);
    }
    BusyStep(c, s, a);
    CountedStep(c, s, a);
    if a.Finish? {
      HeldIsCounted(c, s, a.w);
    }
    ScalarStep(c, s, a);
    hide BusySet, CountedSet, BusyIn, CountedIn, DeliveryOk, Wake, Next, Enabled, InFlight, Admissions, Uncounts;
  }

  /** How an action changes the counters and the flows admitted. */
  lemma ScalarStep(c: Config, s: State, a: Action)
    requires ValidConfig(c) && c.atomicSignal && ShapeOk(c, s) && Enabled(c, s, a) && !s.dispatcher.Signalling?
    requires a.Finish? ==> s.active >= 1
    ensures var s' := Next(c, s, a);
      && s'.active == s.active + (if a.Admit? then 1 else if Uncounts(s, a) then -1 else 0)
      && InFlight(s') == InFlight(s) + (if a.Admit? then 1 else if a.Store? then -1 else 0)
      && Admissions(s') == Admissions(s) + (if a.Admit? then 1 else 0)
      && (a.Admit? ==> s.active < c.concurrent)
  {
    AdmissionsStep(c, s, a);
  }

  lemma {:induction false} CountAlways(c: Config, s: State, n: nat)
    requires ValidConfig(c) && c.atomicSignal && ReachableIn(c, s, n)
    ensures CountOk(c, s)
    decreases n
  {
    hide Init, Next, Enabled, DeliveryOk, Balanced;
    if n == 0 {
      CountInit(c, s);
    } else {
      var p, a :| ReachableIn(c, p, n - 1) && Enabled(c, p, a) && s == Next(c, p, a);
      CountAlways(c, p, n - 1);
      DeliveryStep(c, p, a);
      BalancedStep(c, p, a);
    }
  }

  lemma SameLeft(flows: nat, admissions: nat, finishes: int, active: u32)
    requires active == ToU32(admissions - finishes)
    ensures ToU32(flows - finishes) == ToU32(flows - (admissions - active))
  {
  }

  /** Whatever modify_epoll_event returns, the counters are exact in every reachable state: left_flows
      is the number of connections less the flows finished. */
  lemma CountersAreExact(c: Config, s: State)
    requires ValidConfig(c) && c.atomicSignal && Reachable(c, s)
    ensures |BusySet(s)| == s.active - InFlight(s) + |CountedSet(s)|
    ensures s.left == ToU32(s.flows - (Admissions(s) - s.active))
    ensures s.active <= Admissions(s) && s.active <= c.concurrent
  {
    hide DeliveryOk, BusySet, CountedSet, InFlight, Admissions, Finishes, ReachableIn;
    var n: nat :| ReachableIn(c, s, n);
    CountAlways(c, s, n);
    CountersAlways(c, s, n);
    SameLeft(s.flows, Admissions(s), Finishes(s), s.active);
  }

  function Range(n: nat): (r: set<nat>)
    ensures |r| == n && forall i: nat :: i in r <==> i < n
  {
    if n == 0 then {} else Range(n - 1) + {n - 1}
  }
}

/** When the client can go on: in every state some action is enabled, until everything is served. */
module HandoffProgress {
  import opened Machine
  import opened Handoff
  import opened HandoffCounting
  import opened HandoffFlows
  import opened HandoffLimits
  import opened HandoffShortage

  /** A worker can act unless it waits, or its assertion has failed. */
  predicate Idles(worker: Worker) {
    worker == Waiting || worker == AssertFailed
  }

  /** The dispatcher can act unless it has ended, or has nothing to be told of that it acts on: no
      connection to admit or no room for it, and none that hangs up. */
  predicate Rests(c: Config, s: State) {
    || s.dispatcher == Exited || s.dispatcher == Aborted
    || (&& s.dispatcher == Ready
        && (s.armed == {} || s.active >= c.concurrent)
        && (c.hangups ==> s.open == {}))
  }

  /** Exactly when nothing can happen any more, in every configuration. */
  lemma StuckIff(c: Config, s: State)
    requires ValidConfig(c) && Reachable(c, s)
    ensures (forall a :: !Enabled(c, s, a)) <==>
              Rests(c, s) && forall w :: 0 <= w < |s.workers| ==> Idles(s.workers[w])
  {
    ShapeOfReachable(c, s);
    hide Reachable;
    if !Rests(c, s) {
      DispatcherCanAct(c, s);
    }
    forall w: nat | w < |s.workers| && !Idles(s.workers[w])
      ensures exists a :: Enabled(c, s, a)
    {
      WorkerCanAct(c, s, w);
    }
  }

  lemma WorkerCanAct(c: Config, s: State, w: nat)
    requires ShapeOk(c, s) && w < |s.workers| && !Idles(s.workers[w])
    ensures exists a :: Enabled(c, s, a)
  {
    match s.workers[w]
    case AtPop => assert Enabled(c, s, Pop(w));
    case Woken => assert Enabled(c, s, Resume(w));
    case Serving(_) => assert Enabled(c, s, Finish(w, Short));
    case Counted => assert Enabled(c, s, Release(w));
  }

  lemma DispatcherCanAct(c: Config, s: State)
    requires ShapeOk(c, s) && !Rests(c, s)
    ensures exists a :: Enabled(c, s, a)
  {
    match s.dispatcher
    case Scanning(_, _) => assert Enabled(c, s, Scan);
    case Chosen(_, _) => assert Enabled(c, s, Store);
    case Signalling(_) => assert Enabled(c, s, Signal);
    case Ready =>
      if fd: nat :| fd in s.armed && s.active < c.concurrent {
        assert Enabled(c, s, Admit(fd, 1, true));
      } else {
        var fd: nat :| fd in s.open;
        assert Enabled(c, s, Hangup(fd));
      }
  }

  /** With the signal part of the store, a state in which nothing can happen is one without a flow in
      progress, or the program has ended: no event is left in a slot whose worker waits. */
  lemma StuckIsDone(c: Config, s: State)
    requires ValidConfig(c) && c.atomicSignal && Reachable(c, s)
    requires forall a :: !Enabled(c, s, a)
    requires s.dispatcher == Ready && forall w :: 0 <= w < |s.workers| ==> s.workers[w] != AssertFailed
    ensures s.active == 0 && s.pushed == s.popped
    ensures s.armed == {} || c.concurrent == 0
  {
    StuckIff(c, s);
    DeliveredExactlyOnce(c, s);
    var n: nat :| ReachableIn(c, s, n);
    CountAlways(c, s, n);
    assert BusySet(s) == {} && CountedSet(s) == {} by {
      NoneBusy(c, s);
    }
  }

  lemma NoneBusy(c: Config, s: State)
    requires DeliveryOk(c, s) && forall w :: 0 <= w < |s.workers| ==> s.workers[w] == Waiting
    ensures BusySet(s) == {} && CountedSet(s) == {}
  {
    forall w: nat | w < |s.slots|
      ensures s.slots[w].flag != Busy
    {
      if w < c.threads {
        assert SlotOk(s.slots[w], s.workers[w], s.pushed[w], s.popped[w]);
      }
    }
  }

  /** The client has no deadlock: while modify_epoll_event does not fail and nothing hangs up, some
      action is enabled until left_flows is 0 and all connections are served, or it has exited for
      want of a thread, which does not happen with enough threads. */
  lemma NeverStuck(c: Config, s: State)
    requires ValidConfig(c) && c.atomicSignal && !c.modifyMayFail && !c.hangups && c.concurrent != 0
    requires Reachable(c, s)
    ensures (exists a :: Enabled(c, s, a)) || s.dispatcher == Exited || (s.left == 0 && AllServed(s))
    ensures EnoughThreads(c, s.flows) ==> s.dispatcher != Exited
  {
    if EnoughThreads(c, s.flows) {
      var n: nat :| ReachableIn(c, s, n);
      ScanAlways(c, s, n);
    }
    if (forall a :: !Enabled(c, s, a)) && s.dispatcher != Exited {
      StuckIff(c, s);
      NeverAborts(c, s);
      EntriesAreKept(c, s);
      StuckIsDone(c, s);
      LeftIsExact(c, s);
      AllServedWhenNoneLeft(c, s);
    }
  }
}

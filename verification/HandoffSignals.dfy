/** Delivery in the machine as written, where the signal comes after the unlock: run by run, what
    exactly must not happen. */
module HandoffSignals {
  import opened Handoff

  /** A woken worker reads its slot although the flag is idle. */
  predicate ResumesIdle(s: State, a: Action) {
    a.Resume? && a.w < |s.workers| && a.w < |s.slots| && s.workers[a.w] == Woken && s.slots[a.w].flag == Idle
  }

  /** A signal finds its worker waiting at an idle slot: the event has been served already. */
  predicate SignalsLate(s: State, a: Action) {
    && a.Signal? && s.dispatcher.Signalling?
    && s.dispatcher.i < |s.workers| && s.dispatcher.i < |s.slots|
    && s.workers[s.dispatcher.i] == Waiting && s.slots[s.dispatcher.i].flag == Idle
  }

  /** The state of one slot, its worker and their histories, as long as no worker has read an idle
      slot. */
  predicate SlotFair(
    slot: Slot, worker: Worker, pushed: seq<EventInfo>, popped: seq<EventInfo>, signalling: bool) {
    match worker
    case AtPop => pushed == if slot.flag == Busy then popped + [slot.event] else popped
    case Waiting =>
      if slot.flag == Busy then signalling && pushed == popped + [slot.event] else pushed == popped
    case Woken => pushed == if slot.flag == Busy then popped + [slot.event] else popped
    case Serving(e) => slot.flag == Busy && pushed == popped && popped != [] && popped[|popped| - 1] == e
    case Counted => slot.flag == Busy && pushed == popped
    case AssertFailed => slot.flag == Busy && pushed == popped
  }

  ghost predicate FairOk(c: Config, s: State) {
    && ShapeOk(c, s)
    && forall w :: 0 <= w < c.threads ==>
      SlotFair(s.slots[w], s.workers[w], s.pushed[w], s.popped[w], s.dispatcher == Signalling(w))
  }

  lemma FairWorkerStep(c: Config, s: State, a: Action, w: nat)
    requires ShapeOk(c, s) && Enabled(c, s, a) && !ResumesIdle(s, a) && w < c.threads
    requires a.Pop? || a.Resume? || a.Finish? || a.Release?
    requires SlotFair(s.slots[w], s.workers[w], s.pushed[w], s.popped[w], s.dispatcher == Signalling(w))
    ensures var s' := Next(c, s, a);
      && |s'.slots| == |s.slots| && |s'.workers| == |s'.pushed| == |s'.popped| == c.threads
      && SlotFair(s'.slots[w], s'.workers[w], s'.pushed[w], s'.popped[w], s'.dispatcher == Signalling(w))
  {
  }

  lemma FairDispatcherStep(c: Config, s: State, a: Action, w: nat)
    requires ShapeOk(c, s) && Enabled(c, s, a) && w < c.threads
    requires a.Admit? || a.Hangup? || a.Scan? || a.Store? || a.Signal?
    requires SlotFair(s.slots[w], s.workers[w], s.pushed[w], s.popped[w], s.dispatcher == Signalling(w))
    ensures var s' := Next(c, s, a);
      && |s'.slots| == |s.slots| && |s'.workers| == |s'.pushed| == |s'.popped| == c.threads
      && SlotFair(s'.slots[w], s'.workers[w], s'.pushed[w], s'.popped[w], s'.dispatcher == Signalling(w))
  {
  }

  lemma FairStep(c: Config, s: State, a: Action)
    requires ValidConfig(c) && FairOk(c, s) && Enabled(c, s, a) && !ResumesIdle(s, a)
    ensures FairOk(c, Next(c, s, a))
  {
    ShapeStep(c, s, a);
    forall w: nat | w < c.threads
      ensures var s' := Next(c, s, a);
        SlotFair(s'.slots[w], s'.workers[w], s'.pushed[w], s'.popped[w], s'.dispatcher == Signalling(w))
    {
      if a.Pop? || a.Resume? || a.Finish? || a.Release? {
        FairWorkerStep(c, s, a, w);
      } else {
        FairDispatcherStep(c, s, a, w);
      }
    }
    hide SlotFair, Next, Enabled;
  }

  lemma {:induction false} FairUntil(c: Config, states: seq<State>, acts: seq<Action>, n: nat)
    requires ValidConfig(c) && IsRun(c, states, acts) && n <= |acts|
    requires forall i :: 0 <= i < n ==> !ResumesIdle(states[i], acts[i])
    ensures FairOk(c, states[n])
  {
    hide Next, Enabled, ResumesIdle, FairOk;
    if n == 0 {
      FairAtStart(c, states[0]);
    } else {
      FairUntil(c, states, acts, n - 1);
      FairStep(c, states[n - 1], acts[n - 1]);
    }
  }

  lemma FairAtStart(c: Config, s: State)
    requires ValidConfig(c) && Init(c, s)
    ensures FairOk(c, s)
  {
  }

  lemma FairIsExactlyOnce(c: Config, s: State)
    requires FairOk(c, s)
    ensures ExactlyOnce(s)
  {
    forall w | 0 <= w < |s.pushed|
      ensures s.popped[w] <= s.pushed[w] && |s.pushed[w]| <= |s.popped[w]| + 1
    {
      assert SlotFair(s.slots[w], s.workers[w], s.pushed[w], s.popped[w], s.dispatcher == Signalling(w));
    }
  }

  /** Reading an idle slot pops an event once more than it was pushed. */
  lemma ResumeRepeats(c: Config, s: State, a: Action)
    requires FairOk(c, s) && Enabled(c, s, a) && ResumesIdle(s, a)
    ensures !ExactlyOnce(Next(c, s, a))
  {
    assert SlotFair(s.slots[a.w], s.workers[a.w], s.pushed[a.w], s.popped[a.w], s.dispatcher == Signalling(a.w));
    assert |Next(c, s, a).popped[a.w]| == |Next(c, s, a).pushed[a.w]| + 1;
  }

  lemma {:induction false} RepeatIsSeen(c: Config, states: seq<State>, acts: seq<Action>, n: nat)
    requires ValidConfig(c) && IsRun(c, states, acts) && n < |acts| && ResumesIdle(states[n], acts[n])
    ensures exists i :: 0 <= i < |states| && !ExactlyOnce(states[i])
  {
    hide Next, Enabled, FairOk, ExactlyOnce;
    if i: nat :| i < n && ResumesIdle(states[i], acts[i]) {
      RepeatIsSeen(c, states, acts, i);
    } else {
      FairUntil(c, states, acts, n);
      ResumeRepeats(c, states[n], acts[n]);
      assert !ExactlyOnce(states[n + 1]);
    }
  }

  /** In every configuration, for every run: delivery is exactly once at every point if and only if no
      woken worker ever reads its slot while the flag is idle. */
  lemma ExactlyOnceRunIff(c: Config, states: seq<State>, acts: seq<Action>)
    requires ValidConfig(c) && IsRun(c, states, acts)
    ensures (forall i :: 0 <= i < |states| ==> ExactlyOnce(states[i])) <==>
            (forall i :: 0 <= i < |acts| ==> !ResumesIdle(states[i], acts[i]))
  {
    hide Next, Enabled, FairOk, ExactlyOnce, ResumesIdle;
    if forall i :: 0 <= i < |acts| ==> !ResumesIdle(states[i], acts[i]) {
      forall i | 0 <= i < |states|
        ensures ExactlyOnce(states[i])
      {
        FairUntil(c, states, acts, i);
        FairIsExactlyOnce(c, states[i]);
      }
    } else {
      var n :| 0 <= n < |acts| && ResumesIdle(states[n], acts[n]);
      RepeatIsSeen(c, states, acts, n);
    }
  }

  /** A worker is woken at an idle slot only by a late signal. */
  ghost predicate WokenAreBusy(c: Config, s: State) {
    && ShapeOk(c, s)
    && forall w :: 0 <= w < c.threads && s.workers[w] == Woken ==> s.slots[w].flag == Busy
  }

  lemma WokenStep(c: Config, s: State, a: Action)
    requires ValidConfig(c) && WokenAreBusy(c, s) && Enabled(c, s, a) && !SignalsLate(s, a)
    ensures WokenAreBusy(c, Next(c, s, a))
  {
    ShapeStep(c, s, a);
  }

  lemma {:induction false} WokenUntil(c: Config, states: seq<State>, acts: seq<Action>, n: nat)
    requires ValidConfig(c) && IsRun(c, states, acts) && n <= |acts|
    requires forall i :: 0 <= i < n ==> !SignalsLate(states[i], acts[i])
    ensures WokenAreBusy(c, states[n])
  {
    hide Next, Enabled, SignalsLate, ShapeOk;
    if n == 0 {
      ShapeInit(c, states[0]);
    } else {
      hide WokenAreBusy;
      WokenUntil(c, states, acts, n - 1);
      WokenStep(c, states[n - 1], acts[n - 1]);
    }
  }

  /** So delivery is exactly once throughout every run in which no signal comes late. */
  lemma PromptSignalsDeliver(c: Config, states: seq<State>, acts: seq<Action>)
    requires ValidConfig(c) && IsRun(c, states, acts)
    requires forall i :: 0 <= i < |acts| ==> !SignalsLate(states[i], acts[i])
    ensures forall i :: 0 <= i < |states| ==> ExactlyOnce(states[i])
  {
    hide Next, ExactlyOnce;
    forall i | 0 <= i < |acts|
      ensures !ResumesIdle(states[i], acts[i])
    {
      WokenUntil(c, states, acts, i);
    }
    ExactlyOnceRunIff(c, states, acts);
  }
}

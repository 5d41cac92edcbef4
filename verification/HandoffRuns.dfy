/** What the actions of a run leave in the state: which events reach the workers, and which
    connections are open, registered for writing and timed. All of it in every configuration. */
module HandoffRuns {
  import opened Machine
  import opened Handoff
  import opened HandoffFlows

  // The events handed over.

  /** All events in the histories of the slots. */
  function AllEvents(histories: seq<seq<EventInfo>>): multiset<EventInfo> {
    if histories == [] then multiset{}
    else AllEvents(histories[..|histories| - 1]) + multiset(histories[|histories| - 1])
  }

  /** The event that an action admits, with the flow size drawn for it. */
  function AdmittedBy(s: State, a: Action): multiset<EventInfo> {
    if a.Admit? && a.fd !in s.timed then multiset{EventInfo(a.fd, a.flowSize)} else multiset{}
  }

  /** The connections admitted by the first n actions, each with the flow size drawn for it; an
      admission that fails its assertion is left out. */
  function Admitted(states: seq<State>, acts: seq<Action>, n: nat): multiset<EventInfo>
    requires n <= |acts| < |states|
  {
    if n == 0 then multiset{}
    else Admitted(states, acts, n - 1) + AdmittedBy(states[n - 1], acts[n - 1])
  }

  /** The event that the dispatcher has in hand. */
  function Carried(d: Dispatcher): Option<EventInfo> {
    if HasEvent(d) then Some(d.event) else None
  }

  /** The event on its way to a slot. */
  function OnItsWay(d: Dispatcher): multiset<EventInfo> {
    if Carried(d).Some? then multiset{Carried(d).value} else multiset{}
  }

  lemma {:induction false} AllEventsUpdate(histories: seq<seq<EventInfo>>, w: nat, e: EventInfo)
    requires w < |histories|
    ensures AllEvents(histories[w := histories[w] + [e]]) == AllEvents(histories) + multiset{e}
  {
    var last := |histories| - 1;
    var histories' := histories[w := histories[w] + [e]];
    if w == last {
      assert histories'[..last] == histories[..last];
    } else {
      AllEventsUpdate(histories[..last], w, e);
      assert histories'[..last] == histories[..last][w := histories[..last][w] + [e]];
    }
  }

  lemma {:induction false} NoEvents(histories: seq<seq<EventInfo>>)
    requires forall w :: 0 <= w < |histories| ==> histories[w] == []
    ensures AllEvents(histories) == multiset{}
  {
    if histories != [] {
      NoEvents(histories[..|histories| - 1]);
    }
  }

  /** Only a store changes the histories, by the event in hand. */
  lemma CarriedStep(c: Config, s: State, a: Action)
    requires ShapeOk(c, s) && Enabled(c, s, a) && Next(c, s, a).dispatcher != Exited
    ensures var s' := Next(c, s, a);
      if a.Store? then
        && s.dispatcher.Chosen? && s.dispatcher.i < |s.pushed|
        && s'.pushed == s.pushed[s.dispatcher.i := s.pushed[s.dispatcher.i] + [s.dispatcher.event]]
        && Carried(s.dispatcher) == Some(s.dispatcher.event) && Carried(s'.dispatcher) == None
      else
        && s'.pushed == s.pushed
        && if a.Admit? && a.fd !in s.timed then
             Carried(s.dispatcher) == None && Carried(s'.dispatcher) == Some(EventInfo(a.fd, a.flowSize))
           else
             Carried(s'.dispatcher) == Carried(s.dispatcher)
  {
  }

  /** How an action changes the events handed over and on their way. */
  lemma EventsStep(c: Config, s: State, a: Action)
    requires ShapeOk(c, s) && Enabled(c, s, a) && Next(c, s, a).dispatcher != Exited
    ensures var s' := Next(c, s, a);
      AllEvents(s'.pushed) + OnItsWay(s'.dispatcher)
      == AllEvents(s.pushed) + OnItsWay(s.dispatcher) + AdmittedBy(s, a)
  {
    CarriedStep(c, s, a);
    hide AllEvents, Carried, Next, Enabled, ShapeOk;
    if a.Store? {
      AllEventsUpdate(s.pushed, s.dispatcher.i, s.dispatcher.event);
    }
  }

  lemma ExitedIsFinal(c: Config, s: State, a: Action)
    requires Enabled(c, s, a) && s.dispatcher == Exited
    ensures Next(c, s, a).dispatcher == Exited
  {
  }

  /** In every run, the events pushed to all slots and the one on its way are exactly the connections
      admitted, with their flow sizes, until the dispatcher exits. */
  lemma {:induction false} PushedIsAdmitted(c: Config, states: seq<State>, acts: seq<Action>, n: nat)
    requires ValidConfig(c) && IsRun(c, states, acts) && n <= |acts|
    requires states[n].dispatcher != Exited
    ensures AllEvents(states[n].pushed) + OnItsWay(states[n].dispatcher) == Admitted(states, acts, n)
  {
    hide Next, Enabled, ShapeOk, AllEvents, OnItsWay;
    if n == 0 {
      NothingHandedOver(c, states[0]);
    } else {
      if states[n - 1].dispatcher == Exited {
        ExitedIsFinal(c, states[n - 1], acts[n - 1]);
      }
      PushedIsAdmitted(c, states, acts, n - 1);
      RunReaches(c, states, acts, n - 1);
      ShapeAlways(c, states[n - 1], n - 1);
      EventsStep(c, states[n - 1], acts[n - 1]);
    }
  }

  lemma NothingHandedOver(c: Config, s: State)
    requires Init(c, s)
    ensures AllEvents(s.pushed) + OnItsWay(s.dispatcher) == multiset{}
  {
    NoEvents(s.pushed);
  }

  lemma {:induction false} PrefixEvents(popped: seq<seq<EventInfo>>, pushed: seq<seq<EventInfo>>)
    requires |popped| == |pushed| && forall w :: 0 <= w < |pushed| ==> popped[w] <= pushed[w]
    ensures AllEvents(popped) <= AllEvents(pushed)
  {
    if pushed != [] {
      var last := |pushed| - 1;
      PrefixEvents(popped[..last], pushed[..last]);
      assert pushed[last] == popped[last] + pushed[last][|popped[last]|..];
    }
  }

  /** So the workers together pop nothing but admitted connections with their flow sizes, each once as
      often as admitted, whenever delivery is exactly once; and all of them when the client stops. */
  lemma PoppedIsAdmitted(c: Config, states: seq<State>, acts: seq<Action>, n: nat)
    requires ValidConfig(c) && IsRun(c, states, acts) && n <= |acts|
    requires states[n].dispatcher != Exited && ExactlyOnce(states[n])
    ensures AllEvents(states[n].popped) <= Admitted(states, acts, n)
    ensures AllServed(states[n]) ==> AllEvents(states[n].popped) == Admitted(states, acts, n)
  {
    PushedIsAdmitted(c, states, acts, n);
    PrefixEvents(states[n].popped, states[n].pushed);
    hide AllEvents, Admitted, IsRun;
  }

  // The connections.

  /** An action that closes a connection: a hang-up, a short response, or a complete one whose time
      entry is in use. */
  predicate Closes(s: State, a: Action, fd: nat) {
    || (a.Hangup? && a.fd == fd)
    || (&& a.Finish? && a.w < |s.workers| && s.workers[a.w].Serving? && s.workers[a.w].event.fd == fd
        && (a.response == Short || (a.response == Complete && fd in s.timed)))
  }

  /** An action that deletes a connection's time entry: a hang-up, or a response that is not complete. */
  predicate Untimes(s: State, a: Action, fd: nat) {
    || (a.Hangup? && a.fd == fd)
    || (&& a.Finish? && a.w < |s.workers| && s.workers[a.w].Serving? && s.workers[a.w].event.fd == fd
        && a.response != Complete)
  }

  /** An admission whose modify_epoll_event succeeds. */
  predicate Disarms(a: Action, fd: nat) {
    a.Admit? && a.fd == fd && a.modified
  }

  /** What one action does to the three sets. */
  lemma SetsStep(c: Config, s: State, a: Action, fd: nat)
    requires Enabled(c, s, a) && s.armed <= s.open
    ensures var s' := Next(c, s, a);
      && s'.armed <= s'.open
      && (fd in s'.open <==> fd in s.open && !Closes(s, a, fd))
      && (fd in s'.armed <==> fd in s.armed && !Closes(s, a, fd) && !Disarms(a, fd))
      && (fd in s'.timed <==> (a.Admit? && a.fd == fd) || (fd in s.timed && !Untimes(s, a, fd)))
  {
  }

  lemma {:induction false} ArmedAreOpen(c: Config, states: seq<State>, acts: seq<Action>, n: nat)
    requires IsRun(c, states, acts) && n <= |acts|
    ensures states[n].armed <= states[n].open
  {
    hide Next, Enabled;
    if n > 0 {
      hide Init;
      ArmedAreOpen(c, states, acts, n - 1);
      SetsStep(c, states[n - 1], acts[n - 1], 0);
    }
  }

  /** In every run a connection is open exactly if it was at the start and nothing has closed it; it is
      registered for writing exactly if it is open and no admission with a successful
      modify_epoll_event has taken place. */
  lemma {:induction false} OpenAndArmedIff(c: Config, states: seq<State>, acts: seq<Action>, n: nat, fd: nat)
    requires IsRun(c, states, acts) && n <= |acts|
    ensures fd in states[n].open <==>
              fd in states[0].open && forall i :: 0 <= i < n ==> !Closes(states[i], acts[i], fd)
    ensures fd in states[n].armed <==>
              fd in states[n].open && forall i :: 0 <= i < n ==> !Disarms(acts[i], fd)
  {
    hide Next, Enabled, Closes, Disarms;
    if n > 0 {
      hide Init;
      OpenAndArmedIff(c, states, acts, n - 1, fd);
      ArmedAreOpen(c, states, acts, n - 1);
      SetsStep(c, states[n - 1], acts[n - 1], fd);
    }
  }

  /** A connection has a time entry exactly if it has been admitted and its entry not deleted since: no
      hang-up, and no response but a complete one. */
  lemma {:induction false} TimedIff(c: Config, states: seq<State>, acts: seq<Action>, n: nat, fd: nat)
    requires IsRun(c, states, acts) && n <= |acts|
    ensures fd in states[n].timed <==>
              exists i :: 0 <= i < n && acts[i].Admit? && acts[i].fd == fd
                && forall j :: i < j < n ==> !Untimes(states[j], acts[j], fd)
  {
    hide Next, Enabled, Untimes;
    if n > 0 {
      hide Init;
      TimedIff(c, states, acts, n - 1, fd);
      ArmedAreOpen(c, states, acts, n - 1);
      SetsStep(c, states[n - 1], acts[n - 1], fd);
    }
  }
}

/** The slot code itself, on the array of slot structures. What it does when nobody interferes is
    what the steps of the handoff machine do: the scan ends at the first idle slot, and the store
    replaces that slot. */
module EventsPolls {
  import opened Handoff

  class EventsPoll {
    var flag: Flag
    var event: EventInfo

    function View(): Slot
      reads this
    {
      Slot(flag, event)
    }

    constructor (flag: Flag, event: EventInfo)
      ensures View() == Slot(flag, event)
    {
      this.flag, this.event := flag, event;
    }

    method Initialise(flag: Flag)
      modifies this
      ensures View() == Slot(flag, EventInfo(0, 0))
    {
      this.flag := flag;
      event := EventInfo(0, 0);
    }
  }

  ghost predicate Distinct(polls: seq<EventsPoll>) {
    forall i, j :: 0 <= i < j < |polls| ==> polls[i] != polls[j]
  }

  /** The slots as the handoff machine sees them. */
  function Views(polls: seq<EventsPoll>): (slots: seq<Slot>)
    reads polls
    ensures |slots| == |polls| && forall i :: 0 <= i < |polls| ==> slots[i] == polls[i].View()
  {
    if polls == [] then [] else [polls[0].View()] + Views(polls[1..])
  }

  /** The slots of the machine's initial states. */
  method InitEventsPolls(polls: seq<EventsPoll>, threads: nat)
    requires |polls| == MAX_THREADS && Distinct(polls) && threads <= MAX_THREADS
    modifies polls
    ensures forall i :: 0 <= i < MAX_THREADS ==>
      Views(polls)[i] == Slot(if i < threads then Idle else Invalid, EventInfo(0, 0))
  {
    var i := 0;
    while i < threads
      invariant 0 <= i <= threads
      invariant forall j :: 0 <= j < i ==> polls[j].View() == Slot(Idle, EventInfo(0, 0))
    {
      polls[i].Initialise(Idle);
      i := i + 1;
    }
    while i < MAX_THREADS
      invariant threads <= i <= MAX_THREADS
      invariant forall j :: 0 <= j < threads ==> polls[j].View() == Slot(Idle, EventInfo(0, 0))
      invariant forall j :: threads <= j < i ==> polls[j].View() == Slot(Invalid, EventInfo(0, 0))
    {
      polls[i].Initialise(Invalid);
      i := i + 1;
    }
  }

  method GetValidThread(polls: seq<EventsPoll>) returns (index: int)
    ensures index == if FirstIdle(Views(polls)) < |polls| then FirstIdle(Views(polls)) else -1
  {
    var i := 0;
    while i < |polls|
      invariant 0 <= i <= |polls|
      invariant forall j :: 0 <= j < i ==> polls[j].flag != Idle
    {
      if polls[i].flag == Idle {
        FirstIdleIs(Views(polls), i);
        return i;
      }
      i := i + 1;
    }
    FirstIdleIs(Views(polls), i);
    index := -1;
  }

  /** event_push without interference: false when no slot is idle, where the program exits. */
  method EventPush(polls: seq<EventsPoll>, fd: nat, flowSize: nat) returns (found: bool)
    requires Distinct(polls)
    modifies polls
    ensures var slots := old(Views(polls)); var f := FirstIdle(slots);
      && (found <==> f < |slots|)
      && Views(polls) == if found then slots[f := Slot(Busy, EventInfo(fd, flowSize))] else slots
  {
    var index := GetValidThread(polls);
    if index < 0 {
      return false;
    }
    if polls[index].flag == Busy {
      // The wait for an idle slot.
      assert false;
    }
    polls[index].flag := Busy;
    polls[index].event := EventInfo(fd, flowSize);
    found := true;
  }
}

/** A flow is only ever demoted, unless a message boundary, a wrap or a new connection intervenes. */
module Demotion {
  import opened Machine
  import opened Priority
  import opened Flows
  import opened FlowMachine
  import opened Aging
  import opened TableDomain

  /** A send call that starts a new message and so resets the byte count. */
  predicate ResetsMessage(prm: Params, k: FlowKey, info: FlowInfo, ev: Event) {
    && ev.SendMsg? && ev.key == k && PortMatches(prm, k.localPort, k.remotePort)
    && info.lastCopyTime != 0 && ev.drained && UsDelta(ev.now, info.lastCopyTime) > prm.idleTime
  }

  predicate IsDataOf(prm: Params, k: FlowKey, ev: Event) {
    IsOutOf(prm, k, ev) && !ev.packet.syn && !ev.packet.fin && !ev.packet.rst
  }

  /** Payload bytes of the flow's outgoing data packets, retransmissions included. */
  function Offered(prm: Params, k: FlowKey, evs: seq<Event>): nat {
    if evs == [] then 0
    else
      var ev := evs[|evs| - 1];
      Offered(prm, k, evs[..|evs| - 1]) + if IsDataOf(prm, k, ev) then ev.packet.payloadLen else 0
  }

  /** No event of the run closes the flow or resets its message. */
  predicate Uninterrupted(prm: Params, k: FlowKey, info: FlowInfo, evs: seq<Event>) {
    evs != [] ==>
      var before, ev := evs[..|evs| - 1], evs[|evs| - 1];
      var o := KeyRun(prm, k, Some(info), before);
      && Uninterrupted(prm, k, info, before)
      && !Closes(prm, k, ev)
      && (o.Some? ==> !ResetsMessage(prm, k, o.value, ev))
  }

  /** One event adds at most its payload, and takes nothing away unless the count wraps. */
  lemma StepOnlyAdds(prm: Params, k: FlowKey, info: FlowInfo, ev: Event)
    requires !AgingSettings(prm)
    requires !Closes(prm, k, ev) && !ResetsMessage(prm, k, info, ev)
    ensures var o := KeyStep(prm, k, Some(info), ev);
      var len: nat := if IsDataOf(prm, k, ev) then ev.packet.payloadLen else 0;
      && o.Some?
      && (info.bytesSent + len < TWO32 ==> info.bytesSent <= o.value.bytesSent <= info.bytesSent + len)
  {
  }

  lemma {:induction false} RunOnlyAdds(prm: Params, k: FlowKey, info: FlowInfo, evs: seq<Event>)
    requires !AgingSettings(prm) && Uninterrupted(prm, k, info, evs)
    requires info.bytesSent + Offered(prm, k, evs) < TWO32
    ensures var o := KeyRun(prm, k, Some(info), evs);
      o.Some? && info.bytesSent <= o.value.bytesSent <= info.bytesSent + Offered(prm, k, evs)
  {
    if evs != [] {
      var before := evs[..|evs| - 1];
      RunOnlyAdds(prm, k, info, before);
      StepOnlyAdds(prm, k, KeyRun(prm, k, Some(info), before).value, evs[|evs| - 1]);
    }
  }

  /** Along a run in which a live flow is neither closed nor reset and fewer than 2^32 bytes are
      reached, its priority level never goes back up: not from the start, not between any two
      points of the run, whatever the thresholds. */
  lemma {:induction false} LevelNeverDecreases(prm: Params, t: Table, k: FlowKey, evs: seq<Event>, i: nat)
    requires !AgingSettings(prm) && k in t && i <= |evs|
    requires Uninterrupted(prm, k, t[k], evs)
    requires t[k].bytesSent + Offered(prm, k, evs) < TWO32
    ensures var (mid, end) := (Run(prm, t, evs[..i]), Run(prm, t, evs));
      && k in mid && k in end
      && mid[k].bytesSent <= end[k].bytesSent
      && Level(mid[k].bytesSent, prm.prioThresh) <= Level(end[k].bytesSent, prm.prioThresh)
    decreases |evs|
  {
    RunProjects(prm, t, k, evs);
    RunOnlyAdds(prm, k, t[k], evs);
    if i == |evs| {
      assert evs[..i] == evs;
    } else {
      var before := evs[..|evs| - 1];
      LevelNeverDecreases(prm, t, k, before, i);
      assert before[..i] == evs[..i];
      RunProjects(prm, t, k, before);
      RunOnlyAdds(prm, k, t[k], before);
      StepOnlyAdds(prm, k, Run(prm, t, before)[k], evs[|evs| - 1]);
      LevelMonotone(Run(prm, t, before)[k].bytesSent, Run(prm, t, evs)[k].bytesSent, prm.prioThresh);
    }
  }

  /** When one event lowers the level of a live flow or removes it, the event closed the flow, reset
      its message, or took the count past 2^32. */
  lemma PromotionHasCause(prm: Params, t: Table, k: FlowKey, ev: Event)
    requires !AgingSettings(prm) && k in t
    requires var t' := Step(prm, t, ev);
      k !in t' || Level(t'[k].bytesSent, prm.prioThresh) < Level(t[k].bytesSent, prm.prioThresh)
    ensures || Closes(prm, k, ev)
            || ResetsMessage(prm, k, t[k], ev)
            || (IsDataOf(prm, k, ev) && t[k].bytesSent + ev.packet.payloadLen >= TWO32)
  {
    if !Closes(prm, k, ev) && !ResetsMessage(prm, k, t[k], ev) {
      StepProjects(prm, t, k, ev);
      StepOnlyAdds(prm, k, t[k], ev);
      var t' := Step(prm, t, ev);
      if t[k].bytesSent <= t'[k].bytesSent {
        LevelMonotone(t[k].bytesSent, t'[k].bytesSent, prm.prioThresh);
      }
    }
  }

  /** A FIN or RST that ends the flow. */
  predicate IsClosingOf(prm: Params, k: FlowKey, ev: Event) {
    IsOutOf(prm, k, ev) && !ev.packet.syn && (ev.packet.fin || ev.packet.rst)
  }

  /** The marking of a level: its DSCP value, unless that is negative. */
  predicate IsMarkOf(prm: Params, level: nat, marking: Option<i32>) {
    && level <= |prm.prioThresh|
    && marking == if prm.prioDscp[level] >= 0 then Some(prm.prioDscp[level]) else None
  }

  /** So of a data packet of the flow in such a run and a later one, or the FIN or RST that ends it, the
      later is never marked with a higher priority than the earlier. */
  lemma MarksNeverImprove(prm: Params, t: Table, k: FlowKey, evs: seq<Event>, i: nat)
    returns (earlier: nat, later: nat)
    requires !AgingSettings(prm) && k in t && i < |evs|
    requires Uninterrupted(prm, k, t[k], evs[..|evs| - 1])
    requires t[k].bytesSent + Offered(prm, k, evs) < TWO32
    requires IsDataOf(prm, k, evs[i])
    requires IsDataOf(prm, k, evs[|evs| - 1]) || IsClosingOf(prm, k, evs[|evs| - 1])
    ensures var ev, last := evs[i], evs[|evs| - 1];
      var mid, end := Run(prm, t, evs[..i]), Run(prm, t, evs[..|evs| - 1]);
      && earlier == MarkLevel(prm, mid, ev.packet, ev.now) && later == MarkLevel(prm, end, last.packet, last.now)
      && IsMarkOf(prm, earlier, Marking(prm, mid, ev.packet, ev.now))
      && IsMarkOf(prm, later, Marking(prm, end, last.packet, last.now))
    ensures earlier <= later
  {
    var before, last := evs[..|evs| - 1], evs[|evs| - 1];
    earlier := MarkLevel(prm, Run(prm, t, evs[..i]), evs[i].packet, evs[i].now);
    later := MarkLevel(prm, Run(prm, t, before), last.packet, last.now);
    RunProjects(prm, t, k, before);
    RunOnlyAdds(prm, k, t[k], before);
    hide Run, Uninterrupted, MarkLevel;
    if i < |before| {
      EarlierMark(prm, t, k, before, i);
      assert before[..i] == evs[..i];
      LaterMark(prm, Run(prm, t, before), k, last);
    }
  }

  /** A data packet is marked no worse than any later byte count in such a run. */
  lemma EarlierMark(prm: Params, t: Table, k: FlowKey, evs: seq<Event>, i: nat)
    requires !AgingSettings(prm) && k in t && i < |evs|
    requires Uninterrupted(prm, k, t[k], evs)
    requires t[k].bytesSent + Offered(prm, k, evs) < TWO32
    requires IsDataOf(prm, k, evs[i])
    ensures var end := Run(prm, t, evs);
      k in end &&
      MarkLevel(prm, Run(prm, t, evs[..i]), evs[i].packet, evs[i].now) <= Level(end[k].bytesSent, prm.prioThresh)
  {
    LevelNeverDecreases(prm, t, k, evs, i);
    LevelNeverDecreases(prm, t, k, evs, i + 1);
    assert evs[..i + 1][..i] == evs[..i];
    MarkIsLevelAfter(prm, Run(prm, t, evs[..i]), k, evs[i]);
  }

  /** A data packet, or the FIN or RST, is marked no better than the byte count before it. */
  lemma LaterMark(prm: Params, t: Table, k: FlowKey, ev: Event)
    requires !AgingSettings(prm) && k in t
    requires IsClosingOf(prm, k, ev) || (IsDataOf(prm, k, ev) && t[k].bytesSent + ev.packet.payloadLen < TWO32)
    ensures Level(t[k].bytesSent, prm.prioThresh) <= MarkLevel(prm, t, ev.packet, ev.now)
  {
    if IsDataOf(prm, k, ev) {
      StepOnlyAdds(prm, k, t[k], ev);
      MarkIsLevelAfter(prm, t, k, ev);
      StepProjects(prm, t, k, ev);
      LevelMonotone(t[k].bytesSent, Step(prm, t, ev)[k].bytesSent, prm.prioThresh);
    } else if t[k].bytesSent == 0 {
      LevelMonotone(0, 1, prm.prioThresh);
    }
  }

  /** The FIN or RST of a flow is marked exactly as its latest data packet was, when that left a byte
      count above 0 and no message began since. */
  lemma ClosingMarkedAsLatest(prm: Params, t: Table, k: FlowKey, data: Event, evs: seq<Event>, closing: Event)
    requires !AgingSettings(prm) && k in t && IsDataOf(prm, k, data) && IsClosingOf(prm, k, closing)
    requires var t' := Step(prm, t, data);
      k in t' && t'[k].bytesSent >= 1 && Uninterrupted(prm, k, t'[k], evs)
    requires forall i :: 0 <= i < |evs| ==> !IsDataOf(prm, k, evs[i])
    ensures Marking(prm, Run(prm, Step(prm, t, data), evs), closing.packet, closing.now)
            == Marking(prm, t, data.packet, data.now)
  {
    var t' := Step(prm, t, data);
    NothingOffered(prm, k, evs);
    RunOnlyAdds(prm, k, t'[k], evs);
    RunProjects(prm, t', k, evs);
    MarkIsLevelAfter(prm, t, k, data);
    ClosingMark(prm, Run(prm, t', evs), k, closing);
    hide Run, KeyRun, Step, MarkLevel, Uninterrupted, Offered;
  }

  /** A FIN or RST of a flow with bytes sent is marked by their number. */
  lemma ClosingMark(prm: Params, t: Table, k: FlowKey, ev: Event)
    requires k in t && IsClosingOf(prm, k, ev) && t[k].bytesSent >= 1
    ensures MarkLevel(prm, t, ev.packet, ev.now) == Level(t[k].bytesSent, prm.prioThresh)
  {
  }

  lemma {:induction false} NothingOffered(prm: Params, k: FlowKey, evs: seq<Event>)
    requires forall i :: 0 <= i < |evs| ==> !IsDataOf(prm, k, evs[i])
    ensures Offered(prm, k, evs) == 0
  {
    if evs != [] {
      NothingOffered(prm, k, evs[..|evs| - 1]);
    }
  }

  /** A data packet of a live flow is marked by the byte count after it. */
  lemma MarkIsLevelAfter(prm: Params, t: Table, k: FlowKey, ev: Event)
    requires k in t && IsDataOf(prm, k, ev)
    ensures k in Step(prm, t, ev)
    ensures MarkLevel(prm, t, ev.packet, ev.now) == Level(Step(prm, t, ev)[k].bytesSent, prm.prioThresh)
  {
  }
}

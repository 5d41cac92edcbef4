/** What lastAck means: the farthest acknowledgement of the peer, through wraps, and exactly when. */
module AckTracking {
  import opened Machine
  import opened SequenceNumbers
  import opened Flows
  import opened FlowMachine
  import opened Aging
  import opened TableDomain

  /** What each event of a run acknowledges, as an offset from a base. */
  type Offsets = seq<Option<nat>>

  /** An incoming acknowledgement for flow k. */
  predicate IsAckFor(prm: Params, k: FlowKey, ev: Event) {
    ev.Incoming? && Selected(prm, ev.packet) && ev.packet.ack && InKey(ev.packet) == k
  }

  function Max(a: nat, b: nat): nat {
    if b > a then b else a
  }

  /** The farthest of the offsets acknowledged, starting from one already reached. */
  function Farthest(start: nat, offsets: Offsets): nat {
    if offsets == [] then start
    else
      var before, last := Farthest(start, offsets[..|offsets| - 1]), offsets[|offsets| - 1];
      if last.Some? then Max(before, last.value) else before
  }

  /** Events with the offsets they acknowledge, None for those that acknowledge nothing. Every
      acknowledgement is less than a whole wrap from the farthest before it; the flow is not closed. */
  predicate AckRun(prm: Params, k: FlowKey, base: u32, start: nat, offsets: Offsets, evs: seq<Event>) {
    |offsets| == |evs| &&
    (evs != [] ==>
       var last := |evs| - 1;
       && AckRun(prm, k, base, start, offsets[..last], evs[..last])
       && !Closes(prm, k, evs[last])
       && match offsets[last]
          case None => !IsAckFor(prm, k, evs[last])
          case Some(offset) =>
            && IsAckFor(prm, k, evs[last]) && evs[last].packet.ackNum == Add32(base, offset)
            && -TWO32 < offset - Farthest(start, offsets[..last]) < TWO32)
  }

  /** Every acknowledgement can be compared with the farthest before it. */
  predicate StepsComparable(base: u32, start: nat, offsets: Offsets) {
    offsets != [] ==>
      var before, last := offsets[..|offsets| - 1], offsets[|offsets| - 1];
      && StepsComparable(base, start, before)
      && (last.Some? ==> Comparable(base, last.value, Farthest(start, before)))
  }

  /** The record holds the farthest acknowledgement. */
  ghost predicate Tracked(t: Table, k: FlowKey, base: u32, farthest: nat) {
    k in t && t[k].lastAck == Add32(base, farthest)
  }

  /** It does so after every event of a run. */
  ghost predicate TrackedThroughout(
    prm: Params, t: Table, k: FlowKey, base: u32, start: nat, offsets: Offsets, evs: seq<Event>)
    requires |offsets| == |evs|
  {
    && Tracked(Run(prm, t, evs), k, base, Farthest(start, offsets))
    && (evs != [] ==>
          TrackedThroughout(prm, t, k, base, start, offsets[..|evs| - 1], evs[..|evs| - 1]))
  }

  lemma AckMovesIff(base: u32, before: nat, offset: nat)
    requires -TWO32 < offset - before < TWO32
    ensures var ack, last := Add32(base, offset), Add32(base, before);
      (if IsSeqLarger(ack, last) then ack else last) == Add32(base, Max(before, offset))
      <==> Comparable(base, offset, before)
  {
    ComparesIff(base, offset, before);
  }

  lemma AckStep(prm: Params, k: FlowKey, info: FlowInfo, ev: Event)
    requires !Closes(prm, k, ev)
    ensures var o := KeyStep(prm, k, Some(info), ev);
      && o.Some?
      && o.value.lastAck == if IsAckFor(prm, k, ev) && IsSeqLarger(ev.packet.ackNum, info.lastAck)
                            then ev.packet.ackNum else info.lastAck
  {
  }

  /** One more event keeps the record on the farthest acknowledgement exactly when the step can be
      compared. */
  lemma TrackedStep(prm: Params, t: Table, k: FlowKey, base: u32, start: nat, offsets: Offsets, evs: seq<Event>)
    requires evs != [] && AckRun(prm, k, base, start, offsets, evs)
    requires Tracked(Run(prm, t, evs[..|evs| - 1]), k, base, Farthest(start, offsets[..|evs| - 1]))
    ensures var before, last := Farthest(start, offsets[..|evs| - 1]), offsets[|evs| - 1];
      Tracked(Run(prm, t, evs), k, base, Farthest(start, offsets))
      <==> (last.Some? ==> Comparable(base, last.value, before))
  {
    var last := |evs| - 1;
    var before := Run(prm, t, evs[..last]);
    StepProjects(prm, before, k, evs[last]);
    AckStep(prm, k, before[k], evs[last]);
    if offsets[last].Some? {
      AckMovesIff(base, Farthest(start, offsets[..last]), offsets[last].value);
    }
  }

  /** Over every run, interleaved with anything else, the record holds the farthest acknowledgement at
      every point if and only if every acknowledgement is within 67295 of the farthest before it, or
      within 4294900000 with no wrap between them. */
  lemma {:induction false} TrackedIff(
    prm: Params, t: Table, k: FlowKey, base: u32, start: nat, offsets: Offsets, evs: seq<Event>)
    requires Tracked(t, k, base, start)
    requires AckRun(prm, k, base, start, offsets, evs)
    ensures TrackedThroughout(prm, t, k, base, start, offsets, evs) <==> StepsComparable(base, start, offsets)
  {
    if evs != [] {
      var last := |evs| - 1;
      TrackedIff(prm, t, k, base, start, offsets[..last], evs[..last]);
      if TrackedThroughout(prm, t, k, base, start, offsets[..last], evs[..last]) {
        TrackedStep(prm, t, k, base, start, offsets, evs);
      }
    }
  }

  /** A new record starts from 0, not from the connection's own numbers: its first acknowledgement is
      recorded exactly when it is not above 4294900000. */
  lemma FirstAckRecordedIff(seqNum: u32, now: int, ackNum: u32)
    ensures AfterAck(NewInfo(seqNum, now), ackNum).lastAck == ackNum <==> ackNum <= LARGER_LIMIT
  {
  }

  /** So a new record is right at every point from its first acknowledgement on if and only if that is
      not above 4294900000 and all later ones can be compared. */
  lemma TrackedFromFirstIff(
    prm: Params, t: Table, k: FlowKey, first: Event, base: u32, start: nat, offsets: Offsets, evs: seq<Event>)
    requires k in t && t[k].lastAck == 0
    requires IsAckFor(prm, k, first) && first.packet.ackNum == Add32(base, start)
    requires AckRun(prm, k, base, start, offsets, evs)
    ensures TrackedThroughout(prm, Step(prm, t, first), k, base, start, offsets, evs)
            <==> first.packet.ackNum <= LARGER_LIMIT && StepsComparable(base, start, offsets)
  {
    var t' := Step(prm, t, first);
    assert Tracked(t', k, base, start) <==> first.packet.ackNum <= LARGER_LIMIT;
    if Tracked(t', k, base, start) {
      TrackedIff(prm, t', k, base, start, offsets, evs);
    } else {
      TrackedAtStart(prm, t', k, base, start, offsets, evs);
    }
  }

  lemma {:induction false} TrackedAtStart(
    prm: Params, t: Table, k: FlowKey, base: u32, start: nat, offsets: Offsets, evs: seq<Event>)
    requires |offsets| == |evs|
    ensures TrackedThroughout(prm, t, k, base, start, offsets, evs) ==> Tracked(t, k, base, start)
  {
    if evs != [] {
      TrackedAtStart(prm, t, k, base, start, offsets[..|evs| - 1], evs[..|evs| - 1]);
    }
  }

  // A record that starts wrong is right again after the wrap.

  /** Until the position ack0 + offset passes 2^32, nothing above 4294900000 is recorded. */
  function Recorded(ack0: u32, offset: nat): u32 {
    if ack0 <= LARGER_LIMIT || ack0 + offset >= TWO32 then Add32(ack0, offset) else 0
  }

  lemma RecordedMoves(ack0: u32, before: nat, offset: nat)
    requires Comparable(ack0, offset, before)
    ensures Recorded(ack0, Max(before, offset)) ==
            if IsSeqLarger(Add32(ack0, offset), Recorded(ack0, before)) then Add32(ack0, offset)
            else Recorded(ack0, before)
  {
    if ack0 <= LARGER_LIMIT || ack0 + before >= TWO32 {
      AckMovesIff(ack0, before, offset);
      hide IsSeqLarger, Comparable, Add32;
    } else if ack0 + offset >= TWO32 {
      assert Wraps(ack0, before) == 0 != Wraps(ack0, offset);
      assert Add32(ack0, offset) == ack0 + offset - TWO32 <= WINDOW;
    } else {
      assert Add32(ack0, offset) == ack0 + offset;
    }
  }

  lemma {:induction false} RecordedInRun(
    prm: Params, t: Table, k: FlowKey, ack0: u32, offsets: Offsets, evs: seq<Event>)
    requires k in t && t[k].lastAck == Recorded(ack0, 0)
    requires AckRun(prm, k, ack0, 0, offsets, evs) && StepsComparable(ack0, 0, offsets)
    ensures var t' := Run(prm, t, evs);
      k in t' && t'[k].lastAck == Recorded(ack0, Farthest(0, offsets))
  {
    if evs != [] {
      var last := |evs| - 1;
      RecordedInRun(prm, t, k, ack0, offsets[..last], evs[..last]);
      var before := Run(prm, t, evs[..last]);
      StepProjects(prm, before, k, evs[last]);
      AckStep(prm, k, before[k], evs[last]);
      if offsets[last].Some? {
        RecordedMoves(ack0, Farthest(0, offsets[..last]), offsets[last].value);
      }
    }
  }

  /** Where a new record stands after a run of comparable acknowledgements, none before the first: on
      the farthest exactly when the first is not above 4294900000 or the farthest is past the wrap,
      and else still on 0. */
  lemma TrackedAtEndIff(prm: Params, t: Table, k: FlowKey, first: Event, offsets: Offsets, evs: seq<Event>)
    requires k in t && t[k].lastAck == 0 && IsAckFor(prm, k, first)
    requires AckRun(prm, k, first.packet.ackNum, 0, offsets, evs)
    requires StepsComparable(first.packet.ackNum, 0, offsets)
    ensures var t' := Run(prm, Step(prm, t, first), evs);
      var ack0, far := first.packet.ackNum, Farthest(0, offsets);
      && k in t'
      && (t'[k].lastAck == Add32(ack0, far) <==> ack0 <= LARGER_LIMIT || ack0 + far >= TWO32)
      && (t'[k].lastAck != Add32(ack0, far) ==> t'[k].lastAck == 0)
  {
    RecordedInRun(prm, Step(prm, t, first), k, first.packet.ackNum, offsets, evs);
  }

  // When a record never moves.

  ghost predicate HoldsAck(t: Table, k: FlowKey, ack: u32) {
    k in t && t[k].lastAck == ack
  }

  /** The record holds the same acknowledgement at every point of a run. */
  ghost predicate StaysAt(prm: Params, t: Table, k: FlowKey, ack: u32, evs: seq<Event>) {
    forall i :: 0 <= i <= |evs| ==> HoldsAck(Run(prm, t, evs[..i]), k, ack)
  }

  /** No acknowledgement of the run is larger. */
  ghost predicate NoneLarger(prm: Params, k: FlowKey, ack: u32, evs: seq<Event>) {
    forall i :: 0 <= i < |evs| && IsAckFor(prm, k, evs[i]) ==> !IsSeqLarger(evs[i].packet.ackNum, ack)
  }

  lemma {:induction false} StaysIff(prm: Params, t: Table, k: FlowKey, ack: u32, evs: seq<Event>)
    requires HoldsAck(t, k, ack)
    requires forall i :: 0 <= i < |evs| ==> !Closes(prm, k, evs[i])
    ensures StaysAt(prm, t, k, ack, evs) <==> NoneLarger(prm, k, ack, evs)
  {
    if evs != [] {
      var last := |evs| - 1;
      var before := evs[..last];
      StaysIff(prm, t, k, ack, before);
      assert forall i :: 0 <= i <= last ==> before[..i] == evs[..i];
      assert evs[..last + 1] == evs;
      assert StaysAt(prm, t, k, ack, evs) <==>
        StaysAt(prm, t, k, ack, before) && HoldsAck(Run(prm, t, evs), k, ack);
      if StaysAt(prm, t, k, ack, before) {
        assert before == before[..last];
        StepProjects(prm, Run(prm, t, before), k, evs[last]);
        AckStep(prm, k, Run(prm, t, before)[k], evs[last]);
      }
    }
  }

  /** Over every run in which the flow is not closed, nothing at all is recorded if and only if every
      acknowledgement is 0 or above 4294900000. */
  lemma NothingRecordedIff(prm: Params, t: Table, k: FlowKey, evs: seq<Event>)
    requires k in t && t[k].lastAck == 0
    requires forall i :: 0 <= i < |evs| ==> !Closes(prm, k, evs[i])
    ensures StaysAt(prm, t, k, 0, evs) <==>
              forall i :: 0 <= i < |evs| && IsAckFor(prm, k, evs[i]) ==>
                evs[i].packet.ackNum == 0 || evs[i].packet.ackNum > LARGER_LIMIT
  {
    StaysIff(prm, t, k, 0, evs);
  }

  /** A record on 4294900000 is left by no acknowledgement up to that number, however far ahead. */
  lemma StuckIff(prm: Params, t: Table, k: FlowKey, evs: seq<Event>)
    requires k in t && t[k].lastAck == LARGER_LIMIT
    requires forall i :: 0 <= i < |evs| ==> !Closes(prm, k, evs[i])
    ensures StaysAt(prm, t, k, LARGER_LIMIT, evs) <==>
              forall i :: 0 <= i < |evs| && IsAckFor(prm, k, evs[i]) ==> evs[i].packet.ackNum <= LARGER_LIMIT
  {
    StaysIff(prm, t, k, LARGER_LIMIT, evs);
  }

  /** An acknowledgement that WitnessKey receives. */
  function WitnessAck(prm: Params, ackNum: u32): Event
    requires PortExists(prm)
  {
    Incoming(Packet(true, true, 2, 1, 80, WitnessPort(prm), false, false, false, true, 0, ackNum, 0))
  }

  lemma AckRunSnoc(
    prm: Params, k: FlowKey, base: u32, offsets: Offsets, evs: seq<Event>, offset: nat, ev: Event)
    requires AckRun(prm, k, base, 0, offsets, evs) && IsAckFor(prm, k, ev)
    requires ev.packet.ackNum == Add32(base, offset) && -TWO32 < offset - Farthest(0, offsets) < TWO32
    ensures AckRun(prm, k, base, 0, offsets + [Some(offset)], evs + [ev])
    ensures Farthest(0, offsets + [Some(offset)]) == Max(Farthest(0, offsets), offset)
  {
    assert (offsets + [Some(offset)])[..|evs|] == offsets;
    assert (evs + [ev])[..|evs|] == evs;
  }

  /** A concrete run: the first acknowledgement is recorded, the next is 67297 further on and past the
      wrap, the next another 1000000; the record keeps the first. */
  lemma StuckAfterWrap(prm: Params) returns (t: Table, first: Event, offsets: Offsets, evs: seq<Event>)
    requires PortExists(prm)
    ensures t == Run(prm, map[], [Outgoing(WitnessPacket(prm, true, 1, 0), 0)])
    ensures WitnessKey(prm) in t && t[WitnessKey(prm)].lastAck == 0
    ensures IsAckFor(prm, WitnessKey(prm), first) && first.packet.ackNum == LARGER_LIMIT
    ensures AckRun(prm, WitnessKey(prm), LARGER_LIMIT, 0, offsets, evs) && Farthest(0, offsets) == 1067297
    ensures HoldsAck(Run(prm, Step(prm, t, first), evs), WitnessKey(prm), LARGER_LIMIT)
  {
    var syn := Outgoing(WitnessPacket(prm, true, 1, 0), 0);
    RunSnoc(prm, map[], [], syn);
    assert [] + [syn] == [syn];
    t, first := Run(prm, map[], [syn]), WitnessAck(prm, LARGER_LIMIT);
    AckRunSnoc(prm, WitnessKey(prm), LARGER_LIMIT, [], [], 67297, WitnessAck(prm, 1));
    offsets, evs := [] + [Some(67297)], [] + [WitnessAck(prm, 1)];
    AckRunSnoc(prm, WitnessKey(prm), LARGER_LIMIT, offsets, evs, 1067297, WitnessAck(prm, 1000001));
    offsets, evs := offsets + [Some(1067297)], evs + [WitnessAck(prm, 1000001)];
    StuckIff(prm, Step(prm, t, first), WitnessKey(prm), evs);
    assert evs[..2] == evs;
  }
}

/** The retransmission-timeout counter and the aging of byte counts, as the code has them.
    Because lastTimeoutSeq is overwritten before it is compared, the "consecutive" test always
    takes the gap of a number to itself, which is 4294967295. */
module Aging {
  import opened Machine
  import opened SequenceNumbers
  import opened Flows
  import opened FlowMachine

  /** The gap parameter, read as unsigned, that lets the test succeed: only -1 does. */
  predicate GapAdmitsAll(prm: Params) {
    prm.timeoutSeqGap == -1
  }

  /** There are packets that pass the port filter. */
  predicate PortExists(prm: Params) {
    0 <= prm.port < TWO16
  }

  /** The parameter settings under which some run ages a flow. */
  predicate AgingSettings(prm: Params) {
    && prm.enableAging == 1
    && (prm.timeoutThresh == 1 || (2 <= prm.timeoutThresh < TWO16 && GapAdmitsAll(prm)))
  }

  lemma ConsecutiveAsWritten(prm: Params, seqNum: u32)
    ensures Consecutive(prm, seqNum, seqNum) <==>
              prm.timeoutThresh == 1 || (prm.timeoutThresh >= 2 && GapAdmitsAll(prm))
  {
  }

  /** The packet is not recognised as new, and it sets a positive byte count to zero. */
  predicate Ages(prm: Params, info: FlowInfo, p: Packet, now: int) {
    && !IsSeqLarger(LastByteSeq(p), info.lastSeq)
    && info.bytesSent > 0
    && AfterData(prm, info, p, now).bytesSent == 0
  }

  /** An outgoing data packet that reaches the record and ages it. */
  ghost predicate AgesInRun(prm: Params, k: FlowKey, evs: seq<Event>) {
    evs != [] &&
    var before := Run(prm, map[], evs[..|evs| - 1]);
    var ev := evs[|evs| - 1];
    && IsOutOf(prm, k, ev) && k in before
    && !ev.packet.syn && !ev.packet.fin && !ev.packet.rst
    && Ages(prm, before[k], ev.packet, ev.now)
  }

  /** Without the settings, a packet either is new and adds its payload, or leaves the count alone. */
  lemma NoAgingWithoutSettings(prm: Params, info: FlowInfo, p: Packet, now: int)
    requires !AgingSettings(prm)
    ensures AfterData(prm, info, p, now).bytesSent ==
            if IsSeqLarger(LastByteSeq(p), info.lastSeq) then Add32(info.bytesSent, p.payloadLen)
            else info.bytesSent
  {
  }

  // A concrete run that ages a flow, or counts its timeouts: SYN, ten bytes, then retransmissions.

  function WitnessPort(prm: Params): u16
    requires PortExists(prm)
  {
    prm.port
  }

  function WitnessKey(prm: Params): FlowKey
    requires PortExists(prm)
  {
    FlowKey(1, 2, WitnessPort(prm), 80)
  }

  function WitnessPacket(prm: Params, syn: bool, seqNum: u32, payloadLen: u16): Packet
    requires PortExists(prm)
  {
    Packet(true, true, 1, 2, WitnessPort(prm), 80, syn, false, false, !syn, seqNum, 0, payloadLen)
  }

  /** Later than any timeout after the previous packet. */
  function WitnessTime(n: nat): int {
    n * 0x1_0000_0000 * 1000
  }

  /** SYN, a data packet, and n retransmissions of it. */
  function WitnessRun(prm: Params, n: nat): (evs: seq<Event>)
    requires PortExists(prm)
    ensures |evs| == n + 2
  {
    if n == 0 then
      [Outgoing(WitnessPacket(prm, true, 1, 0), 0), Outgoing(WitnessPacket(prm, false, 2, 10), 0)]
    else
      WitnessRun(prm, n - 1) + [Outgoing(WitnessPacket(prm, false, 2, 10), WitnessTime(n))]
  }

  lemma RunSnoc(prm: Params, t: Table, evs: seq<Event>, ev: Event)
    ensures Run(prm, t, evs + [ev]) == Step(prm, Run(prm, t, evs), ev)
  {
    assert (evs + [ev])[..|evs|] == evs;
  }

  lemma WitnessStart(prm: Params)
    requires PortExists(prm)
    ensures Get(Run(prm, map[], WitnessRun(prm, 0)), WitnessKey(prm)) == Some(FlowInfo(0, 0, 0, 11, 0, 10, 0, 0))
  {
    var syn := Outgoing(WitnessPacket(prm, true, 1, 0), 0);
    var data := Outgoing(WitnessPacket(prm, false, 2, 10), 0);
    assert WitnessRun(prm, 0) == ([] + [syn]) + [data];
    RunSnoc(prm, map[], [], syn);
    RunSnoc(prm, map[], [] + [syn], data);
  }

  /** After n retransmissions the counter is n, as long as the threshold is not reached. */
  lemma {:induction false} WitnessCounts(prm: Params, n: nat)
    requires PortExists(prm) && GapAdmitsAll(prm) && prm.timeoutThresh >= 2
    requires n < prm.timeoutThresh && n < TWO16
    ensures var o := Get(Run(prm, map[], WitnessRun(prm, n)), WitnessKey(prm));
      o == Some(FlowInfo(0, WitnessTime(n), if n == 0 then 0 else 11, 11, 0, 10, n, 0))
  {
    if n == 0 {
      WitnessStart(prm);
    } else {
      WitnessCounts(prm, n - 1);
      RunSnoc(prm, map[], WitnessRun(prm, n - 1), Outgoing(WitnessPacket(prm, false, 2, 10), WitnessTime(n)));
      ConsecutiveAsWritten(prm, 11);
    }
  }

  /** The settings are exact: some run from the empty table ages some flow if and only if aging is
      enabled and the threshold is 1, or it is 2..65535 and the gap parameter is -1. */
  lemma AgingIffSettings(prm: Params)
    requires PortExists(prm)
    ensures (exists k, evs :: AgesInRun(prm, k, evs)) <==> AgingSettings(prm)
  {
    if AgingSettings(prm) {
      var n := prm.timeoutThresh;
      if n == 1 {
        WitnessStart(prm);
      } else {
        WitnessCounts(prm, n - 1);
      }
      var evs := WitnessRun(prm, n);
      assert evs[..|evs| - 1] == WitnessRun(prm, n - 1);
      ConsecutiveAsWritten(prm, 11);
      assert AgesInRun(prm, WitnessKey(prm), evs);
    } else {
      forall k, evs: seq<Event> | AgesInRun(prm, k, evs)
        ensures false
      {
        var before := Run(prm, map[], evs[..|evs| - 1]);
        NoAgingWithoutSettings(prm, before[k], evs[|evs| - 1].packet, evs[|evs| - 1].now);
      }
    }
  }

  ghost predicate TimeoutsBelow(t: Table, bound: int) {
    forall k :: k in t ==> t[k].timeouts < bound
  }

  /** With a threshold of 1..65535, every reachable record has fewer timeouts than the threshold. */
  lemma {:induction false} TimeoutsBelowThreshold(prm: Params, evs: seq<Event>)
    requires 1 <= prm.timeoutThresh < TWO16
    ensures TimeoutsBelow(Run(prm, map[], evs), prm.timeoutThresh)
  {
    if evs != [] {
      TimeoutsBelowThreshold(prm, evs[..|evs| - 1]);
    }
  }

  lemma {:induction false} TimeoutsStayAtMostOne(prm: Params, evs: seq<Event>)
    requires !(prm.timeoutThresh >= 3 && GapAdmitsAll(prm))
    ensures TimeoutsBelow(Run(prm, map[], evs), 2)
  {
    if evs != [] {
      var before := evs[..|evs| - 1];
      TimeoutsStayAtMostOne(prm, before);
      if 1 <= prm.timeoutThresh <= 2 {
        TimeoutsBelowThreshold(prm, evs);
      } else if evs[|evs| - 1].Outgoing? {
        ConsecutiveAsWritten(prm, LastByteSeq(evs[|evs| - 1].packet));
      }
    }
  }

  /** The counter never exceeds 1 in any run, exactly unless the threshold is 3 or more and the
      gap parameter is -1. */
  lemma TimeoutsNeverExceedOneIff(prm: Params)
    requires PortExists(prm)
    ensures (forall evs :: TimeoutsBelow(Run(prm, map[], evs), 2)) <==>
              !(prm.timeoutThresh >= 3 && GapAdmitsAll(prm))
  {
    if prm.timeoutThresh >= 3 && GapAdmitsAll(prm) {
      WitnessCounts(prm, 2);
      assert !TimeoutsBelow(Run(prm, map[], WitnessRun(prm, 2)), 2);
    } else {
      forall evs: seq<Event>
        ensures TimeoutsBelow(Run(prm, map[], evs), 2)
      {
        TimeoutsStayAtMostOne(prm, evs);
      }
    }
  }
}

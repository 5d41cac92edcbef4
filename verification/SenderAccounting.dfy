/** What bytesSent and lastSeq mean: the hooks against an in-order TCP sender, through any number
    of sequence-number wraps and any interleaving with other flows. */
module SenderAccounting {
  import opened Machine
  import opened SequenceNumbers
  import opened Flows
  import opened FlowMachine
  import opened Aging

  /** What the sender of one flow does, in positions of its byte stream. */
  datatype Action =
    | NewData(len: u16)                  // the next len bytes
    | PureAck                            // no payload, at the next position
    | Retransmit(start: nat, len: u16)   // bytes start .. start + len again
    | SendCall(now: int, drained: bool)  // tcp_sendmsg on this flow
    | Other                              // anything that does not concern this flow's sender

  /** The sender's own account. total: new bytes sent. acked: the latest forward packet was a pure
      ACK. counted: new bytes since the last message boundary, without the missed ones. missed:
      one-byte segments sent right after a pure ACK. messages: the boundaries, and the first send
      call. */
  datatype Sender = Sender(
    total: nat,
    acked: bool,
    counted: nat,
    missed: nat,
    boundaries: nat,
    messages: nat,
    lastCopy: int)

  const START: Sender := Sender(0, false, 0, 0, 0, 0, 0)

  predicate IsBoundary(prm: Params, s: Sender, a: Action) {
    a.SendCall? && s.lastCopy != 0 && a.drained && UsDelta(a.now, s.lastCopy) > prm.idleTime
  }

  function Account(prm: Params, s: Sender, a: Action): Sender {
    match a
    case NewData(len) =>
      if s.acked && len == 1 then s.(total := s.total + 1, acked := false, missed := s.missed + 1)
      else s.(total := s.total + len, acked := false, counted := s.counted + len)
    case PureAck => s.(acked := true)
    case Retransmit(_, _) => s
    case SendCall(now, _) =>
      if s.lastCopy == 0 then s.(messages := s.messages + 1, lastCopy := now)
      else if IsBoundary(prm, s, a) then
        s.(counted := 0, boundaries := s.boundaries + 1, messages := s.messages + 1, lastCopy := now)
      else s.(lastCopy := now)
    case Other => s
  }

  function AccountAll(prm: Params, acts: seq<Action>): Sender {
    if acts == [] then START
    else Account(prm, AccountAll(prm, acts[..|acts| - 1]), acts[|acts| - 1])
  }

  /** How far the sender's latest forward packet reaches past the initial sequence number. */
  function Reach(s: Sender): nat {
    s.total + if s.acked then 1 else 0
  }

  predicate IsSegment(prm: Params, k: FlowKey, ev: Event, seqNum: u32, len: u16) {
    && IsOutOf(prm, k, ev)
    && !ev.packet.syn && !ev.packet.fin && !ev.packet.rst
    && ev.packet.seqNum == seqNum && ev.packet.payloadLen == len
  }

  /** An event is the given action of the sender of flow k: data is not empty, and a retransmission
      ends less than a whole wrap behind the farthest point reached. */
  predicate Realises(prm: Params, k: FlowKey, isn: u32, s: Sender, a: Action, ev: Event) {
    match a
    case NewData(len) => len >= 1 && IsSegment(prm, k, ev, Add32(isn, 1 + s.total), len)
    case PureAck => IsSegment(prm, k, ev, Add32(isn, 1 + s.total), 0)
    case Retransmit(start, len) =>
      && len >= 1 && start + len <= s.total && Reach(s) - (start + len) < TWO32
      && IsSegment(prm, k, ev, Add32(isn, 1 + start), len)
    case SendCall(now, drained) => ev == SendMsg(k, now, drained)
    case Other =>
      && (IsOutOf(prm, k, ev) ==> ev.packet.syn)
      && !(ev.SendMsg? && ev.key == k)
      && !ev.ClearTable?
  }

  predicate SenderRun(prm: Params, k: FlowKey, isn: u32, acts: seq<Action>, evs: seq<Event>) {
    |acts| == |evs| &&
    (acts != [] ==>
       var last := |acts| - 1;
       && SenderRun(prm, k, isn, acts[..last], evs[..last])
       && Realises(prm, k, isn, AccountAll(prm, acts[..last]), acts[last], evs[last]))
  }

  /** The end of a retransmission can be compared with the farthest point reached. */
  predicate ComparableAction(isn: u32, s: Sender, a: Action) {
    a.Retransmit? ==> Comparable(isn, a.start + a.len, Reach(s))
  }

  predicate AllComparable(prm: Params, isn: u32, acts: seq<Action>) {
    acts != [] ==>
      var last := |acts| - 1;
      && AllComparable(prm, isn, acts[..last])
      && ComparableAction(isn, AccountAll(prm, acts[..last]), acts[last])
  }

  /** The record agrees with the sender's account. */
  predicate Agrees(isn: u32, s: Sender, info: FlowInfo) {
    && info.lastSeq == Add32(isn, Reach(s))
    && info.bytesSent == ToU32(s.counted)
    && info.lastCopyTime == s.lastCopy
    && info.messages == ToU16(s.messages)
  }

  lemma LastByte(a: u32, b: nat, p: Packet)
    requires p.seqNum == Add32(a, b)
    ensures LastByteSeq(p) == Add32(a, if p.payloadLen >= 1 then b + p.payloadLen - 1 else b)
  {
  }

  /** A segment that can be compared moves the record forward exactly when it ends past the farthest
      point. */
  lemma SegmentEffect(prm: Params, isn: u32, s: Sender, info: FlowInfo, p: Packet, now: int, end: nat)
    requires !AgingSettings(prm) && Agrees(isn, s, info)
    requires LastByteSeq(p) == Add32(isn, end)
    requires Comparable(isn, end, Reach(s))
    ensures var info' := AfterData(prm, info, p, now);
      && info'.lastCopyTime == info.lastCopyTime && info'.messages == info.messages
      && info'.lastSeq == Add32(isn, if end > Reach(s) then end else Reach(s))
      && info'.bytesSent == if end > Reach(s) then Add32(info.bytesSent, p.payloadLen) else info.bytesSent
  {
    NoAgingWithoutSettings(prm, info, p, now);
    ComparesIff(isn, end, Reach(s));
  }

  /** A retransmission that cannot be compared takes the record back to an old position. */
  lemma OldSegmentEffect(prm: Params, isn: u32, s: Sender, info: FlowInfo, p: Packet, now: int, end: nat)
    requires Agrees(isn, s, info) && LastByteSeq(p) == Add32(isn, end)
    requires 0 <= Reach(s) - end < TWO32 && !Comparable(isn, end, Reach(s))
    ensures AfterData(prm, info, p, now).lastSeq == Add32(isn, end) != Add32(isn, Reach(s))
  {
    ComparesIff(isn, end, Reach(s));
  }

  lemma CountGrows(bytes: u32, counted: nat, len: nat)
    requires bytes == ToU32(counted)
    ensures Add32(bytes, len) == ToU32(counted + len)
  {
  }

  /** An action keeps the record in agreement exactly when it can be compared. */
  lemma ActionKeepsAgreementIff(
    prm: Params, k: FlowKey, isn: u32, s: Sender, a: Action, ev: Event, info: FlowInfo)
    requires !AgingSettings(prm) && PortMatches(prm, k.localPort, k.remotePort)
    requires Agrees(isn, s, info) && Realises(prm, k, isn, s, a, ev)
    ensures var o := KeyStep(prm, k, Some(info), ev);
      o.Some? && (Agrees(isn, Account(prm, s, a), o.value) <==> ComparableAction(isn, s, a))
  {
    hide AfterData, IsSeqLarger, Add32, LastByteSeq;
    match a
    case NewData(len) =>
      CountGrows(info.bytesSent, s.counted, len);
      LastByte(isn, 1 + s.total, ev.packet);
      SegmentEffect(prm, isn, s, info, ev.packet, ev.now, s.total + len);
    case PureAck =>
      CountGrows(info.bytesSent, s.counted, 0);
      LastByte(isn, 1 + s.total, ev.packet);
      SegmentEffect(prm, isn, s, info, ev.packet, ev.now, s.total + 1);
    case Retransmit(start, len) =>
      LastByte(isn, 1 + start, ev.packet);
      if ComparableAction(isn, s, a) {
        SegmentEffect(prm, isn, s, info, ev.packet, ev.now, start + len);
      } else {
        OldSegmentEffect(prm, isn, s, info, ev.packet, ev.now, start + len);
      }
    case SendCall(now, drained) =>
    case Other =>
  }

  /** The record agrees with the sender's account after every action of a run. */
  ghost predicate AgreesThroughout(
    prm: Params, t: Table, k: FlowKey, isn: u32, acts: seq<Action>, evs: seq<Event>)
    requires |acts| == |evs|
  {
    var t' := Run(prm, t, evs);
    && k in t' && Agrees(isn, AccountAll(prm, acts), t'[k])
    && (acts != [] ==> AgreesThroughout(prm, t, k, isn, acts[..|acts| - 1], evs[..|acts| - 1]))
  }

  lemma {:induction false} RecordAgreesIff(
    prm: Params, t: Table, k: FlowKey, isn: u32, acts: seq<Action>, evs: seq<Event>)
    requires !AgingSettings(prm) && PortMatches(prm, k.localPort, k.remotePort)
    requires k in t && Agrees(isn, START, t[k])
    requires SenderRun(prm, k, isn, acts, evs)
    ensures AgreesThroughout(prm, t, k, isn, acts, evs) <==> AllComparable(prm, isn, acts)
  {
    if acts != [] {
      var last := |acts| - 1;
      RecordAgreesIff(prm, t, k, isn, acts[..last], evs[..last]);
      if AgreesThroughout(prm, t, k, isn, acts[..last], evs[..last]) {
        var before := Run(prm, t, evs[..last]);
        StepProjects(prm, before, k, evs[last]);
        ActionKeepsAgreementIff(prm, k, isn, AccountAll(prm, acts[..last]), acts[last], evs[last], before[k]);
      }
    }
  }

  /** After a flow's SYN, in every run of its sender interleaved with anything else, the record agrees
      with the account at every point if and only if every retransmission ends at most 67295 behind
      the farthest point, or at most 4294900000 behind it with no wrap between. Then the record holds
      the new bytes since the last message boundary, less the missed ones, modulo 2^32, and the
      farthest sequence number reached. */
  lemma AgreesThroughoutIff(prm: Params, t: Table, k: FlowKey, syn: Event, acts: seq<Action>, evs: seq<Event>)
    requires !AgingSettings(prm) && k !in t
    requires IsOutOf(prm, k, syn) && syn.packet.syn
    requires SenderRun(prm, k, syn.packet.seqNum, acts, evs)
    ensures AgreesThroughout(prm, Step(prm, t, syn), k, syn.packet.seqNum, acts, evs)
            <==> AllComparable(prm, syn.packet.seqNum, acts)
  {
    StepProjects(prm, t, k, syn);
    RecordAgreesIff(prm, Step(prm, t, syn), k, syn.packet.seqNum, acts, evs);
  }

  /** In particular it does at the end of such a run. */
  lemma BytesSentIsCounted(prm: Params, t: Table, k: FlowKey, syn: Event, acts: seq<Action>, evs: seq<Event>)
    requires !AgingSettings(prm) && k !in t
    requires IsOutOf(prm, k, syn) && syn.packet.syn
    requires SenderRun(prm, k, syn.packet.seqNum, acts, evs) && AllComparable(prm, syn.packet.seqNum, acts)
    ensures var t' := Run(prm, Step(prm, t, syn), evs);
      k in t' && Agrees(syn.packet.seqNum, AccountAll(prm, acts), t'[k])
  {
    AgreesThroughoutIff(prm, t, k, syn, acts, evs);
  }

  /** Without message boundaries, what is not counted is exactly what was missed. */
  lemma {:induction false} CountedAndMissed(prm: Params, acts: seq<Action>)
    ensures var s := AccountAll(prm, acts); s.boundaries == 0 ==> s.counted + s.missed == s.total
  {
    if acts != [] {
      CountedAndMissed(prm, acts[..|acts| - 1]);
    }
  }

  lemma SameResidueIff(c: nat, m: nat)
    ensures ToU32(c) == ToU32(c + m) <==> ToU32(m) == 0
  {
  }

  /** So bytesSent is all new payload modulo 2^32 exactly when the number of missed one-byte
      segments is a multiple of 2^32. */
  lemma BytesSentIsTotalIff(prm: Params, t: Table, k: FlowKey, syn: Event, acts: seq<Action>, evs: seq<Event>)
    requires !AgingSettings(prm) && k !in t
    requires IsOutOf(prm, k, syn) && syn.packet.syn
    requires SenderRun(prm, k, syn.packet.seqNum, acts, evs) && AllComparable(prm, syn.packet.seqNum, acts)
    requires AccountAll(prm, acts).boundaries == 0
    ensures var t' := Run(prm, Step(prm, t, syn), evs); var s := AccountAll(prm, acts);
      k in t' && (t'[k].bytesSent == ToU32(s.total) <==> ToU32(s.missed) == 0)
  {
    hide SenderRun, AllComparable, Run, Step, AccountAll, ToU32;
    BytesSentIsCounted(prm, t, k, syn, acts, evs);
    CountedAndMissed(prm, acts);
    SameResidueIff(AccountAll(prm, acts).counted, AccountAll(prm, acts).missed);
  }

  /** Segments of two bytes or more are never missed. */
  lemma {:induction false} NothingMissed(prm: Params, acts: seq<Action>)
    requires forall i :: 0 <= i < |acts| && acts[i].NewData? ==> acts[i].len >= 2
    ensures AccountAll(prm, acts).missed == 0
  {
    if acts != [] {
      NothingMissed(prm, acts[..|acts| - 1]);
    }
  }

  // What the two conditions exclude, on concrete runs.

  lemma SenderRunSnoc(
    prm: Params, k: FlowKey, isn: u32, acts: seq<Action>, evs: seq<Event>, a: Action, ev: Event)
    requires SenderRun(prm, k, isn, acts, evs)
    requires Realises(prm, k, isn, AccountAll(prm, acts), a, ev)
    ensures SenderRun(prm, k, isn, acts + [a], evs + [ev])
    ensures AccountAll(prm, acts + [a]) == Account(prm, AccountAll(prm, acts), a)
    ensures AllComparable(prm, isn, acts + [a]) <==>
              AllComparable(prm, isn, acts) && ComparableAction(isn, AccountAll(prm, acts), a)
  {
    assert (acts + [a])[..|acts|] == acts;
    assert (evs + [ev])[..|acts|] == evs;
  }

  /** A retransmission ends at most the window behind the farthest point reached. */
  predicate WithinAction(window: nat, s: Sender, a: Action) {
    a.Retransmit? ==> Reach(s) - (a.start + a.len) <= window
  }

  predicate Within(prm: Params, window: nat, acts: seq<Action>) {
    acts != [] ==>
      var last := |acts| - 1;
      && Within(prm, window, acts[..last])
      && WithinAction(window, AccountAll(prm, acts[..last]), acts[last])
  }

  function Syn(prm: Params, isn: u32): Event
    requires PortExists(prm)
  {
    Outgoing(WitnessPacket(prm, true, isn, 0), 0)
  }

  function Segment(prm: Params, seqNum: u32, len: u16): Event
    requires PortExists(prm)
  {
    Outgoing(WitnessPacket(prm, false, seqNum, len), 0)
  }

  lemma OneByteRecord(prm: Params)
    requires PortExists(prm)
    ensures var evs := [] + [Segment(prm, 2, 0)] + [Segment(prm, 2, 1)];
      var o := Get(Run(prm, Step(prm, map[], Syn(prm, 1)), evs), WitnessKey(prm));
      o.Some? && o.value.bytesSent == 0
  {
    hide SeqGap;
    var t := Step(prm, map[], Syn(prm, 1));
    RunSnoc(prm, t, [], Segment(prm, 2, 0));
    RunSnoc(prm, t, [] + [Segment(prm, 2, 0)], Segment(prm, 2, 1));
  }

  /** A pure ACK after the SYN, then a segment of one byte: the byte is never counted. */
  lemma OneByteMissed(prm: Params) returns (acts: seq<Action>, evs: seq<Event>)
    requires PortExists(prm)
    ensures SenderRun(prm, WitnessKey(prm), 1, acts, evs) && AllComparable(prm, 1, acts)
    ensures AccountAll(prm, acts) == Sender(1, false, 0, 1, 0, 0, 0)
    ensures var t' := Run(prm, Step(prm, map[], Syn(prm, 1)), evs);
      WitnessKey(prm) in t' && t'[WitnessKey(prm)].bytesSent == 0
  {
    OneByteRecord(prm);
    hide Step, Comparable;
    var k, ack, byte := WitnessKey(prm), Segment(prm, 2, 0), Segment(prm, 2, 1);
    SenderRunSnoc(prm, k, 1, [], [], PureAck, ack);
    acts, evs := [] + [PureAck], [] + [ack];
    SenderRunSnoc(prm, k, 1, acts, evs, NewData(1), byte);
    acts, evs := acts + [NewData(1)], evs + [byte];
  }

  /** After every run of a sender in which retransmissions end within the window, the record agrees. */
  ghost predicate WindowAgrees(prm: Params, window: nat) {
    forall t: Table, k, syn: Event, acts, evs ::
      k !in t && IsOutOf(prm, k, syn) && syn.packet.syn
      && SenderRun(prm, k, syn.packet.seqNum, acts, evs) && Within(prm, window, acts) ==>
        var t' := Run(prm, Step(prm, t, syn), evs);
        k in t' && Agrees(syn.packet.seqNum, AccountAll(prm, acts), t'[k])
  }

  lemma WithinSnoc(prm: Params, window: nat, acts: seq<Action>, a: Action)
    ensures Within(prm, window, acts + [a]) <==>
              Within(prm, window, acts) && WithinAction(window, AccountAll(prm, acts), a)
  {
    assert (acts + [a])[..|acts|] == acts;
  }

  /** A segment that the record takes as new. */
  lemma SegmentTaken(prm: Params, t: Table, evs: seq<Event>, seqNum: u32, len: u16, end: u32)
    requires PortExists(prm) && len > 0 && end == Add32(seqNum, len - 1)
    requires var o := Get(Run(prm, t, evs), WitnessKey(prm)); o.Some? && IsSeqLarger(end, o.value.lastSeq)
    ensures var o := Get(Run(prm, t, evs + [Segment(prm, seqNum, len)]), WitnessKey(prm));
      var info := Run(prm, t, evs)[WitnessKey(prm)];
      o == Some(info.(lastSeq := end, bytesSent := Add32(info.bytesSent, len), lastUpdateTime := 0))
  {
    RunSnoc(prm, t, evs, Segment(prm, seqNum, len));
  }

  lemma OldByteRecord(prm: Params)
    requires PortExists(prm)
    ensures var evs := [] + [Segment(prm, 4294900000, 65535)] + [Segment(prm, 4294965535, 1762)]
                       + [Segment(prm, 4294900000, 1)];
      var o := Get(Run(prm, Step(prm, map[], Syn(prm, 4294899999)), evs), WitnessKey(prm));
      o.Some? && o.value.bytesSent == 67298 && o.value.lastSeq == 4294900000
  {
    var t := Step(prm, map[], Syn(prm, 4294899999));
    assert Get(Run(prm, t, []), WitnessKey(prm)) == Some(NewInfo(4294899999, 0));
    hide Run, Step, Segment, Syn, WitnessKey;
    var evs: seq<Event> := [];
    SegmentTaken(prm, t, evs, 4294900000, 65535, 4294965534);
    evs := evs + [Segment(prm, 4294900000, 65535)];
    SegmentTaken(prm, t, evs, 4294965535, 1762, 0);
    evs := evs + [Segment(prm, 4294965535, 1762)];
    SegmentTaken(prm, t, evs, 4294900000, 1, 4294900000);
  }

  /** 67297 bytes that end at sequence number 0, and the first of them again: it is taken as new. */
  lemma OldByteCounted(prm: Params, window: nat) returns (acts: seq<Action>, evs: seq<Event>)
    requires PortExists(prm) && window > WINDOW
    ensures SenderRun(prm, WitnessKey(prm), 4294899999, acts, evs) && Within(prm, window, acts)
    ensures AccountAll(prm, acts) == Sender(67297, false, 67297, 0, 0, 0, 0)
    ensures var t' := Run(prm, Step(prm, map[], Syn(prm, 4294899999)), evs);
      && WitnessKey(prm) in t'
      && t'[WitnessKey(prm)].bytesSent == 67298 && t'[WitnessKey(prm)].lastSeq == 4294900000
  {
    OldByteRecord(prm);
    hide Step, Run, Comparable;
    var k, isn := WitnessKey(prm), 4294899999;
    var first, second := Segment(prm, 4294900000, 65535), Segment(prm, 4294965535, 1762);
    var again := Segment(prm, 4294900000, 1);
    SenderRunSnoc(prm, k, isn, [], [], NewData(65535), first);
    WithinSnoc(prm, window, [], NewData(65535));
    acts, evs := [] + [NewData(65535)], [] + [first];
    SenderRunSnoc(prm, k, isn, acts, evs, NewData(1762), second);
    WithinSnoc(prm, window, acts, NewData(1762));
    acts, evs := acts + [NewData(1762)], evs + [second];
    SenderRunSnoc(prm, k, isn, acts, evs, Retransmit(0, 1), again);
    WithinSnoc(prm, window, acts, Retransmit(0, 1));
    acts, evs := acts + [Retransmit(0, 1)], evs + [again];
  }

  /** 67295 is exact for classes of runs too: the account holds of all runs whose retransmissions end
      within a window if and only if the window is at most 67295. */
  lemma WindowIsNeeded(prm: Params, window: nat)
    requires !AgingSettings(prm) && PortExists(prm)
    ensures WindowAgrees(prm, window) <==> window <= WINDOW
  {
    if window <= WINDOW {
      forall t: Table, k, syn: Event, acts, evs
        | k !in t && IsOutOf(prm, k, syn) && syn.packet.syn
          && SenderRun(prm, k, syn.packet.seqNum, acts, evs) && Within(prm, window, acts)
        ensures var t' := Run(prm, Step(prm, t, syn), evs);
          k in t' && Agrees(syn.packet.seqNum, AccountAll(prm, acts), t'[k])
      {
        WithinIsComparable(prm, k, syn.packet.seqNum, window, acts, evs);
        BytesSentIsCounted(prm, t, k, syn, acts, evs);
      }
    } else {
      var acts, evs := OldByteCounted(prm, window);
      var syn := Syn(prm, 4294899999);
      assert IsOutOf(prm, WitnessKey(prm), syn) && syn.packet.seqNum == 4294899999;
    }
  }

  lemma {:induction false} WithinIsComparable(
    prm: Params, k: FlowKey, isn: u32, window: nat, acts: seq<Action>, evs: seq<Event>)
    requires window <= WINDOW && SenderRun(prm, k, isn, acts, evs) && Within(prm, window, acts)
    ensures AllComparable(prm, isn, acts)
  {
    if acts != [] {
      WithinIsComparable(prm, k, isn, window, acts[..|acts| - 1], evs[..|acts| - 1]);
    }
  }
}

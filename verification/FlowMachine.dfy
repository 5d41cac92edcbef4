/** What one event does to the flow records, as functions on values.
    Each hook or probe call is one atomic event; a packet is given as already parsed. */
module FlowMachine {
  import opened Machine
  import opened SequenceNumbers
  import opened Priority
  import opened Flows

  /** Module and sysctl parameters: C ints, with one demotion threshold fewer than DSCP values. */
  datatype RawParams = Params(
    port: int,
    idleTime: i32,
    rtoMin: i32,
    timeoutThresh: i32,
    timeoutSeqGap: i32,
    enableAging: i32,
    prioThresh: seq<i32>,
    prioDscp: seq<i32>)

  type Params = p: RawParams | |p.prioDscp| == |p.prioThresh| + 1
    witness Params(0, 0, 0, 0, 0, 0, [], [0])

  /** A parsed packet; onDevice says that it passes the device filter. */
  datatype Packet = Packet(
    onDevice: bool,
    isTcp: bool,
    srcIp: u32,
    dstIp: u32,
    srcPort: u16,
    dstPort: u16,
    syn: bool,
    fin: bool,
    rst: bool,
    ack: bool,
    seqNum: u32,
    ackNum: u32,
    payloadLen: u16)

  datatype Event =
    | Outgoing(packet: Packet, now: int)
    | Incoming(packet: Packet)
      // tcp_sendmsg on the socket of a flow; drained says snd_nxt equals write_seq
    | SendMsg(key: FlowKey, now: int, drained: bool)
    | ClearTable

  type Table = map<FlowKey, FlowInfo>

  predicate PortMatches(prm: Params, port1: u16, port2: u16) {
    prm.port == 0 || port1 == prm.port || port2 == prm.port
  }

  predicate Selected(prm: Params, p: Packet) {
    p.onDevice && p.isTcp && PortMatches(prm, p.srcPort, p.dstPort)
  }

  function OutKey(p: Packet): FlowKey {
    FlowKey(p.srcIp, p.dstIp, p.srcPort, p.dstPort)
  }

  function InKey(p: Packet): FlowKey {
    FlowKey(p.dstIp, p.srcIp, p.dstPort, p.srcPort)
  }

  function NewInfo(seqNum: u32, now: int): FlowInfo {
    FlowInfo(0, now, 0, seqNum, 0, 0, 0, 0)
  }

  /** Microseconds between two nanosecond times. */
  function UsDelta(later: int, earlier: int): int {
    (later - earlier) / 1000
  }

  /** Sequence number of the last payload byte; the packet's own number when there is none. */
  function LastByteSeq(p: Packet): u32 {
    if p.payloadLen >= 1 then Add32(p.seqNum, p.payloadLen - 1) else p.seqNum
  }

  /** The test for a consecutive timeout. The gap is compared as unsigned. */
  predicate Consecutive(prm: Params, seq1: u32, seq2: u32) {
    prm.timeoutThresh == 1
    || (prm.timeoutThresh >= 2 && SeqGap(seq1, seq2) <= ToU32(prm.timeoutSeqGap))
  }

  /** A retransmission timeout. As written, lastTimeoutSeq is set before it is compared. */
  function AfterTimeout(prm: Params, info: FlowInfo, seqNum: u32): FlowInfo {
    var marked := info.(lastTimeoutSeq := seqNum);
    if Consecutive(prm, seqNum, marked.lastTimeoutSeq) then
      var timeouts: u16 := ToU16(info.timeouts + 1);
      if timeouts >= prm.timeoutThresh then
        marked.(timeouts := 0, bytesSent := if prm.enableAging == 1 then 0 else info.bytesSent)
      else
        marked.(timeouts := timeouts)
    else
      marked.(timeouts := 1)
  }

  predicate LooksLikeTimeout(prm: Params, info: FlowInfo, now: int) {
    UsDelta(now, info.lastUpdateTime) >= prm.rtoMin && IsSeqLarger(info.lastSeq, info.lastAck)
  }

  /** An outgoing packet without SYN, FIN or RST, on its flow's record. */
  function AfterData(prm: Params, info: FlowInfo, p: Packet, now: int): FlowInfo {
    var seqNum := LastByteSeq(p);
    var updated :=
      if IsSeqLarger(seqNum, info.lastSeq) then
        info.(lastSeq := seqNum, bytesSent := Add32(info.bytesSent, p.payloadLen))
      else if LooksLikeTimeout(prm, info, now) then
        AfterTimeout(prm, info, seqNum)
      else info;
    updated.(lastUpdateTime := now)
  }

  /** An incoming packet with the ACK flag. */
  function AfterAck(info: FlowInfo, ackNum: u32): FlowInfo {
    if IsSeqLarger(ackNum, info.lastAck) then info.(lastAck := ackNum) else info
  }

  /** A send call: the first message, a new message after an idle time, or more of the same. */
  function AfterSendMsg(prm: Params, info: FlowInfo, now: int, drained: bool): FlowInfo {
    var updated :=
      if info.lastCopyTime == 0 then
        info.(messages := ToU16(info.messages + 1))
      else if drained && UsDelta(now, info.lastCopyTime) > prm.idleTime then
        info.(bytesSent := 0, messages := ToU16(info.messages + 1))
      else info;
    updated.(lastCopyTime := now)
  }

  function Step(prm: Params, t: Table, ev: Event): Table {
    match ev
    case Outgoing(p, now) =>
      var k := OutKey(p);
      if !Selected(prm, p) then t
      else if p.syn then (if k in t then t else t[k := NewInfo(p.seqNum, now)])
      else if p.fin || p.rst then Without(t, k)
      else if k in t then t[k := AfterData(prm, t[k], p, now)]
      else t
    case Incoming(p) =>
      var k := InKey(p);
      if Selected(prm, p) && p.ack && k in t then t[k := AfterAck(t[k], p.ackNum)] else t
    case SendMsg(k, now, drained) =>
      if PortMatches(prm, k.localPort, k.remotePort) && k in t then
        t[k := AfterSendMsg(prm, t[k], now, drained)]
      else t
    case ClearTable => map[]
  }

  /** The priority level of an outgoing packet. */
  function MarkLevel(prm: Params, t: Table, p: Packet, now: int): (level: nat)
    ensures level <= |prm.prioThresh|
  {
    var k := OutKey(p);
    var size: u32 :=
      if p.syn || k !in t then 0
      else if p.fin || p.rst then (if t[k].bytesSent > 1 then t[k].bytesSent else 1)
      else AfterData(prm, t[k], p, now).bytesSent;
    Level(size, prm.prioThresh)
  }

  /** The DSCP value an outgoing packet is marked with; None leaves it unmodified. */
  function Marking(prm: Params, t: Table, p: Packet, now: int): Option<i32> {
    if !Selected(prm, p) then None
    else
      var dscp := prm.prioDscp[MarkLevel(prm, t, p, now)];
      if dscp >= 0 then Some(dscp) else None
  }

  function Run(prm: Params, t: Table, evs: seq<Event>): Table {
    if evs == [] then t else Step(prm, Run(prm, t, evs[..|evs| - 1]), evs[|evs| - 1])
  }

  /** The record of one flow, if it is in the table. */
  function Get(t: Table, k: FlowKey): Option<FlowInfo> {
    if k in t then Some(t[k]) else None
  }

  /** An outgoing packet of flow k that passes the filters. */
  predicate IsOutOf(prm: Params, k: FlowKey, ev: Event) {
    ev.Outgoing? && Selected(prm, ev.packet) && OutKey(ev.packet) == k
  }

  /** What an event does to the record of one flow. */
  function KeyStep(prm: Params, k: FlowKey, o: Option<FlowInfo>, ev: Event): Option<FlowInfo> {
    match ev
    case ClearTable => None
    case Outgoing(p, now) =>
      if !IsOutOf(prm, k, ev) then o
      else if p.syn then (if o.Some? then o else Some(NewInfo(p.seqNum, now)))
      else if p.fin || p.rst then None
      else if o.Some? then Some(AfterData(prm, o.value, p, now))
      else None
    case Incoming(p) =>
      if Selected(prm, p) && p.ack && InKey(p) == k && o.Some? then Some(AfterAck(o.value, p.ackNum)) else o
    case SendMsg(k', now, drained) =>
      if PortMatches(prm, k.localPort, k.remotePort) && k' == k && o.Some? then
        Some(AfterSendMsg(prm, o.value, now, drained))
      else o
  }

  function KeyRun(prm: Params, k: FlowKey, o: Option<FlowInfo>, evs: seq<Event>): Option<FlowInfo> {
    if evs == [] then o else KeyStep(prm, k, KeyRun(prm, k, o, evs[..|evs| - 1]), evs[|evs| - 1])
  }

  /** Flows do not interfere: a record after a step depends only on that record before. */
  lemma StepProjects(prm: Params, t: Table, k: FlowKey, ev: Event)
    ensures Get(Step(prm, t, ev), k) == KeyStep(prm, k, Get(t, k), ev)
  {
  }

  /** Flows do not interfere over whole runs, whatever events of other flows are interleaved. */
  lemma {:induction false} RunProjects(prm: Params, t: Table, k: FlowKey, evs: seq<Event>)
    ensures Get(Run(prm, t, evs), k) == KeyRun(prm, k, Get(t, k), evs)
  {
    if evs != [] {
      var before := evs[..|evs| - 1];
      RunProjects(prm, t, k, before);
      StepProjects(prm, Run(prm, t, before), k, evs[|evs| - 1]);
    }
  }
}

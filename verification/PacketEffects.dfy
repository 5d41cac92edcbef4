/** What single packets and calls do, in terms of their fields and of nanoseconds. */
module PacketEffects {
  import opened Machine
  import opened SequenceNumbers
  import opened Priority
  import opened Flows
  import opened FlowMachine

  // Which packets and calls count at all. A port parameter of 0 stands for all ports.

  /** A packet brings a flow into the table exactly when it is a TCP SYN on the device, from or to the
      port, of a flow not yet there; the record starts from its sequence number and time. */
  lemma SynInsertsIff(prm: Params, t: Table, p: Packet, now: int)
    ensures var k := FlowKey(p.srcIp, p.dstIp, p.srcPort, p.dstPort);
      var t' := Step(prm, t, Outgoing(p, now));
      && (!(t'.Keys <= t.Keys) <==>
            p.onDevice && p.isTcp && p.syn && k !in t
            && (prm.port == 0 || p.srcPort == prm.port || p.dstPort == prm.port))
      && (!(t'.Keys <= t.Keys) ==>
            t' == t[k := FlowInfo(lastCopyTime := 0, lastUpdateTime := now, lastTimeoutSeq := 0,
                                  lastSeq := p.seqNum, lastAck := 0, bytesSent := 0, timeouts := 0, messages := 0)])
  {
  }

  /** It removes one exactly when it is a FIN or RST without SYN of a flow in the table. */
  lemma ClosingRemovesIff(prm: Params, t: Table, p: Packet, now: int)
    ensures var k := FlowKey(p.srcIp, p.dstIp, p.srcPort, p.dstPort);
      var t' := Step(prm, t, Outgoing(p, now));
      && (!(t.Keys <= t'.Keys) <==>
            p.onDevice && p.isTcp && !p.syn && (p.fin || p.rst) && k in t
            && (prm.port == 0 || p.srcPort == prm.port || p.dstPort == prm.port))
      && (!(t.Keys <= t'.Keys) ==> t' == t - {k})
  {
    var k := FlowKey(p.srcIp, p.dstIp, p.srcPort, p.dstPort);
    assert Without(t, k) == t - {k};
  }

  /** An incoming packet changes the table exactly when it is a TCP ACK on the device, from or to the
      port, with the reversed 4-tuple of a flow there and a larger number; it changes lastAck only. */
  lemma AckMovesIff(prm: Params, t: Table, p: Packet)
    ensures var k := FlowKey(p.dstIp, p.srcIp, p.dstPort, p.srcPort);
      var t' := Step(prm, t, Incoming(p));
      && (t' != t <==>
            p.onDevice && p.isTcp && p.ack && k in t && IsSeqLarger(p.ackNum, t[k].lastAck)
            && (prm.port == 0 || p.srcPort == prm.port || p.dstPort == prm.port))
      && (t' != t ==> t' == t[k := t[k].(lastAck := p.ackNum)])
  {
    var k := FlowKey(p.dstIp, p.srcIp, p.dstPort, p.srcPort);
    assert k in t ==> t[k := t[k]] == t;
    assert k in t && IsSeqLarger(p.ackNum, t[k].lastAck) ==> t[k := t[k].(lastAck := p.ackNum)][k] != t[k];
  }

  /** A send call of a flow in the table, from or to the port, records its time. It starts a message
      when it is the first, or when nothing is outstanding and more than the idle time has passed, in
      whole microseconds; not being the first, it then sets the byte count to 0. */
  lemma SendCallEffect(prm: Params, t: Table, k: FlowKey, now: int, drained: bool)
    ensures var t' := Step(prm, t, SendMsg(k, now, drained));
      if k in t && (prm.port == 0 || k.localPort == prm.port || k.remotePort == prm.port) then
        var info := t[k];
        var first := info.lastCopyTime == 0;
        var idle := drained && now - info.lastCopyTime >= 1000 * (prm.idleTime + 1);
        t' == t[k := info.(lastCopyTime := now,
                           messages := if !first && !idle then info.messages
                                       else if info.messages == 65535 then 0 else info.messages + 1,
                           bytesSent := if !first && idle then 0 else info.bytesSent)]
      else t' == t
  {
  }

  // What an outgoing data packet does to its record.

  /** The effect on a live flow goes through to the table, for these packets only. */
  lemma DataReachesRecord(prm: Params, t: Table, p: Packet, now: int)
    requires !p.syn && !p.fin && !p.rst
    ensures var k := FlowKey(p.srcIp, p.dstIp, p.srcPort, p.dstPort);
      Step(prm, t, Outgoing(p, now)) ==
      if p.onDevice && p.isTcp && k in t && (prm.port == 0 || p.srcPort == prm.port || p.dstPort == prm.port)
      then t[k := AfterData(prm, t[k], p, now)] else t
  {
  }

  /** The number of the packet's last byte. */
  ghost predicate EndsAt(p: Packet, end: u32) {
    if p.payloadLen == 0 then end == p.seqNum
    else end == p.seqNum + p.payloadLen - 1 || end == p.seqNum + p.payloadLen - 1 - TWO32
  }

  /** New data: its length is added, and nothing but position, count and time changes. */
  lemma NewDataEffect(prm: Params, info: FlowInfo, p: Packet, now: int, end: u32)
    requires EndsAt(p, end) && IsSeqLarger(end, info.lastSeq)
    ensures var total := info.bytesSent + p.payloadLen;
      AfterData(prm, info, p, now) ==
      info.(lastSeq := end, lastUpdateTime := now, bytesSent := if total < TWO32 then total else total - TWO32)
  {
  }

  /** A packet that is not new counts as a timeout exactly when at least the minimum RTO has passed since
      the flow's latest packet and data is outstanding; else only the time changes. */
  lemma NoTimeoutEffect(prm: Params, info: FlowInfo, p: Packet, now: int, end: u32)
    requires EndsAt(p, end) && !IsSeqLarger(end, info.lastSeq)
    requires now - info.lastUpdateTime < 1000 * prm.rtoMin || !IsSeqLarger(info.lastSeq, info.lastAck)
    ensures AfterData(prm, info, p, now) == info.(lastUpdateTime := now)
  {
  }

  /** A timeout: the packet's last byte is remembered. With a threshold of 2 or more, the counter is 1
      unless the gap parameter is -1; then it grows, and at the threshold it is cleared and an enabled
      aging sets the byte count to 0. With a threshold of 1 that happens at once; with one below 1 the
      counter is 1. */
  lemma TimeoutEffect(prm: Params, info: FlowInfo, p: Packet, now: int, end: u32)
    requires EndsAt(p, end) && !IsSeqLarger(end, info.lastSeq)
    requires now - info.lastUpdateTime >= 1000 * prm.rtoMin && IsSeqLarger(info.lastSeq, info.lastAck)
    ensures var counts := prm.timeoutThresh == 1 || (prm.timeoutThresh >= 2 && prm.timeoutSeqGap == -1);
      var next := if info.timeouts == 65535 then 0 else info.timeouts + 1;
      var reached := counts && next >= prm.timeoutThresh;
      AfterData(prm, info, p, now) ==
      info.(lastUpdateTime := now, lastTimeoutSeq := end,
            timeouts := if reached then 0 else if counts then next else 1,
            bytesSent := if reached && prm.enableAging == 1 then 0 else info.bytesSent)
  {
  }

  // How packets are marked.

  /** The size that decides: nothing sent for a SYN or an unknown flow, at least one byte for a FIN or
      RST, and otherwise the bytes sent with this packet. */
  ghost predicate MarkedBy(prm: Params, t: Table, p: Packet, now: int, size: u32) {
    var k := FlowKey(p.srcIp, p.dstIp, p.srcPort, p.dstPort);
    if p.syn || k !in t then size == 0
    else if p.fin || p.rst then size == if t[k].bytesSent == 0 then 1 else t[k].bytesSent
    else size == AfterData(prm, t[k], p, now).bytesSent
  }

  /** A packet that passes the filters is given the DSCP of a level: all thresholds before it are below
      the size, and its own, if there is one, is not. A negative DSCP leaves the packet alone, as the
      filters do. */
  lemma MarkingIs(prm: Params, t: Table, p: Packet, now: int, size: u32) returns (level: nat)
    requires MarkedBy(prm, t, p, now, size)
    ensures level <= |prm.prioThresh|
    ensures forall i :: 0 <= i < level ==> ToU32(prm.prioThresh[i]) < size
    ensures level < |prm.prioThresh| ==> size <= ToU32(prm.prioThresh[level])
    ensures Marking(prm, t, p, now) ==
            if p.onDevice && p.isTcp && prm.prioDscp[level] >= 0
               && (prm.port == 0 || p.srcPort == prm.port || p.dstPort == prm.port)
            then Some(prm.prioDscp[level]) else None
  {
    level := Level(size, prm.prioThresh);
  }

  /** SYNs, and packets of flows that are not in the table, are marked like a packet of a live flow
      that has sent nothing: with the first DSCP. */
  lemma FirstPacketsMarkedFirst(prm: Params, t: Table, p: Packet, now: int)
    requires p.onDevice && p.isTcp && (prm.port == 0 || p.srcPort == prm.port || p.dstPort == prm.port)
    requires var k := FlowKey(p.srcIp, p.dstIp, p.srcPort, p.dstPort);
      || p.syn || k !in t
      || (!p.fin && !p.rst && AfterData(prm, t[k], p, now).bytesSent == 0)
    ensures Marking(prm, t, p, now) == if prm.prioDscp[0] >= 0 then Some(prm.prioDscp[0]) else None
  {
  }
}

/** The packet hooks and the send probe, updating records in place through the pointer that a
    search of the table returns. Each is proved to make the table's contents take one step of
    the machine. */
module Hooks {
  import opened Machine
  import opened SequenceNumbers
  import opened Priority
  import opened Flows
  import opened FlowTables
  import opened FlowMachine

  /** Changing one record changes the contents at its key only. */
  lemma ContentsAfterUpdate(before: map<FlowKey, FlowInfo>, live: map<FlowKey, Flow>, key: FlowKey)
    requires key in live && before.Keys == live.Keys
    requires forall k :: k in live && k != key ==> live[k].Info() == before[k]
    ensures Infos(live) == before[key := live[key].Info()]
  {
  }

  /** In a valid table different keys have different records. */
  lemma RecordsAreDistinct(ft: FlowTable, key: FlowKey)
    requires ft.Valid() && key in ft.Live
    ensures forall k :: k in ft.Live && k != key ==> ft.Live[k] != ft.Live[key]
  {
    hide HashFlow;
    forall k | k in ft.Live
      ensures ft.Live[k].key == k
    {
      PartitionLookup(ft.Parts, ft.Live, k);
      assert ft.flowLists[HashFlow(k)].Entries == ft.Parts[HashFlow(k)];
    }
  }

  lemma ContentsByKey(ft: FlowTable)
    ensures ft.Contents().Keys == ft.Live.Keys
    ensures forall k :: k in ft.Live ==> ft.Contents()[k] == ft.Live[k].Info()
  {
  }

  /** The update that the outgoing hook makes to a record it has found. */
  method UpdateOnData(prm: Params, ptr: Flow, p: Packet, now: int)
    modifies ptr
    ensures ptr.Info() == AfterData(prm, old(ptr.Info()), p, now)
  {
    var seqNum := p.seqNum;
    if p.payloadLen >= 1 {
      seqNum := Add32(seqNum, p.payloadLen - 1);
    }
    var idle := UsDelta(now, ptr.lastUpdateTime);
    if IsSeqLarger(seqNum, ptr.lastSeq) {
      ptr.lastSeq := seqNum;
      ptr.bytesSent := Add32(ptr.bytesSent, p.payloadLen);
    } else if idle >= prm.rtoMin && IsSeqLarger(ptr.lastSeq, ptr.lastAck) {
      ptr.lastTimeoutSeq := seqNum;
      if prm.timeoutThresh == 1 ||
         (prm.timeoutThresh >= 2 && SeqGap(seqNum, ptr.lastTimeoutSeq) <= ToU32(prm.timeoutSeqGap)) {
        ptr.timeouts := ToU16(ptr.timeouts + 1);
        if ptr.timeouts >= prm.timeoutThresh {
          ptr.timeouts := 0;
          if prm.enableAging == 1 {
            ptr.bytesSent := 0;
          }
        }
      } else {
        ptr.timeouts := 1;
      }
    }
    ptr.lastUpdateTime := now;
  }

  method UpdateOnAck(ptr: Flow, ackNum: u32)
    modifies ptr
    ensures ptr.Info() == AfterAck(old(ptr.Info()), ackNum)
  {
    if IsSeqLarger(ackNum, ptr.lastAck) {
      ptr.lastAck := ackNum;
    }
  }

  method UpdateOnSend(prm: Params, ptr: Flow, now: int, drained: bool)
    modifies ptr
    ensures ptr.Info() == AfterSendMsg(prm, old(ptr.Info()), now, drained)
  {
    if ptr.lastCopyTime == 0 {
      ptr.messages := ToU16(ptr.messages + 1);
    } else if drained {
      var idle := UsDelta(now, ptr.lastCopyTime);
      if idle > prm.idleTime {
        ptr.bytesSent := 0;
        ptr.messages := ToU16(ptr.messages + 1);
      }
    }
    ptr.lastCopyTime := now;
  }

  method HookFuncOut(prm: Params, ft: FlowTable, p: Packet, now: int) returns (marking: Option<i32>)
    requires ft.Valid()
    modifies ft, ft.flowLists, ft.Live.Values
    ensures ft.Valid() && fresh(ft.Live.Values - old(ft.Live.Values))
    ensures ft.Contents() == Step(prm, old(ft.Contents()), Outgoing(p, now))
    ensures marking == Marking(prm, old(ft.Contents()), p, now)
  {
    hide HashFlow, FlowTable.Valid, Infos, AfterData, Level;
    if !p.onDevice || !p.isTcp || !PortMatches(prm, p.srcPort, p.dstPort) {
      return None;
    }
    var key := OutKey(p);
    InfosAt(ft.Live, key);
    var dscp: i32;
    if p.syn {
      var _ := ft.Insert(key, NewInfo(p.seqNum, now));
      dscp := PiasPriority(0, prm.prioThresh, prm.prioDscp);
    } else if p.fin || p.rst {
      var result := ft.Delete(key);
      dscp := PiasPriority(result, prm.prioThresh, prm.prioDscp);
    } else {
      var ptr := ft.Search(key);
      if ptr != null {
        ghost var before := ft.Contents();
        ContentsByKey(ft);
        RecordsAreDistinct(ft, key);
        UpdateOnData(prm, ptr, p, now);
        ContentsAfterUpdate(before, ft.Live, key);
        dscp := PiasPriority(ptr.bytesSent, prm.prioThresh, prm.prioDscp);
      } else {
        dscp := PiasPriority(0, prm.prioThresh, prm.prioDscp);
      }
    }
    marking := if dscp >= 0 then Some(dscp) else None;
  }

  method HookFuncIn(prm: Params, ft: FlowTable, p: Packet)
    requires ft.Valid()
    modifies ft.Live.Values
    ensures ft.Valid() && ft.Live == old(ft.Live)
    ensures ft.Contents() == Step(prm, old(ft.Contents()), Incoming(p))
  {
    hide HashFlow, FlowTable.Valid, Infos, AfterData, Level;
    if p.onDevice && p.isTcp && PortMatches(prm, p.srcPort, p.dstPort) && p.ack {
      var key := InKey(p);
      InfosAt(ft.Live, key);
      var ptr := ft.Search(key);
      if ptr != null {
        ghost var before := ft.Contents();
        ContentsByKey(ft);
        RecordsAreDistinct(ft, key);
        UpdateOnAck(ptr, p.ackNum);
        ContentsAfterUpdate(before, ft.Live, key);
      }
    }
  }

  method TcpSendMsg(prm: Params, ft: FlowTable, key: FlowKey, now: int, drained: bool)
    requires ft.Valid()
    modifies ft.Live.Values
    ensures ft.Valid() && ft.Live == old(ft.Live)
    ensures ft.Contents() == Step(prm, old(ft.Contents()), SendMsg(key, now, drained))
  {
    hide HashFlow, FlowTable.Valid, Infos, AfterData, Level;
    if PortMatches(prm, key.localPort, key.remotePort) {
      InfosAt(ft.Live, key);
      var ptr := ft.Search(key);
      if ptr != null {
        ghost var before := ft.Contents();
        ContentsByKey(ft);
        RecordsAreDistinct(ft, key);
        UpdateOnSend(prm, ptr, now, drained);
        ContentsAfterUpdate(before, ft.Live, key);
      }
    }
  }

  /** The "clear" operation of the module's control file. */
  method ClearOperation(prm: Params, ft: FlowTable)
    requires ft.Valid()
    modifies ft, ft.flowLists
    ensures ft.Valid() && ft.Live == map[]
    ensures ft.Contents() == Step(prm, old(ft.Contents()), ClearTable)
  {
    hide HashFlow, FlowTable.Valid, Infos;
    ft.Clear();
  }

  /** The marking of an outgoing packet; other events mark nothing. */
  function MarkingOf(prm: Params, t: Table, ev: Event): Option<i32> {
    if ev.Outgoing? then Marking(prm, t, ev.packet, ev.now) else None
  }

  /** The hook or operation that an event calls. */
  method Handle(prm: Params, ft: FlowTable, ev: Event) returns (marking: Option<i32>)
    requires ft.Valid()
    modifies ft, ft.flowLists, ft.Live.Values
    ensures ft.Valid() && fresh(ft.Live.Values - old(ft.Live.Values))
    ensures ft.Contents() == Step(prm, old(ft.Contents()), ev)
    ensures marking == MarkingOf(prm, old(ft.Contents()), ev)
  {
    hide FlowTable.Valid, FlowTable.Contents, Step, Marking;
    marking := None;
    match ev
    case Outgoing(p, now) => marking := HookFuncOut(prm, ft, p, now);
    case Incoming(p) => HookFuncIn(prm, ft, p);
    case SendMsg(key, now, drained) => TcpSendMsg(prm, ft, key, now, drained);
    case ClearTable => ClearOperation(prm, ft);
  }

  /** Any sequence of events takes the table's contents through the machine's run, and marks every
      packet as the machine does at that point. */
  method HandleAll(prm: Params, ft: FlowTable, evs: seq<Event>) returns (markings: seq<Option<i32>>)
    requires ft.Valid()
    modifies ft, ft.flowLists, ft.Live.Values
    ensures ft.Valid() && fresh(ft.Live.Values - old(ft.Live.Values))
    ensures ft.Contents() == Run(prm, old(ft.Contents()), evs)
    ensures |markings| == |evs|
    ensures forall i :: 0 <= i < |evs| ==> markings[i] == MarkingOf(prm, Run(prm, old(ft.Contents()), evs[..i]), evs[i])
  {
    hide FlowTable.Valid, FlowTable.Contents, Step, MarkingOf;
    markings := [];
    var n := 0;
    while n < |evs|
      invariant 0 <= n <= |evs| && |markings| == n
      invariant ft.Valid() && fresh(ft.Live.Values - old(ft.Live.Values))
      invariant ft.Contents() == Run(prm, old(ft.Contents()), evs[..n])
      invariant forall i :: 0 <= i < n ==> markings[i] == MarkingOf(prm, Run(prm, old(ft.Contents()), evs[..i]), evs[i])
    {
      var marking := Handle(prm, ft, evs[n]);
      markings := markings + [marking];
      assert evs[..n + 1][..n] == evs[..n];
      n := n + 1;
    }
    assert evs[..n] == evs;
  }
}

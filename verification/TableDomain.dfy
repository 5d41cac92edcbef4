/** Which flows are in the table after a run. */
module TableDomain {
  import opened Flows
  import opened FlowMachine

  /** An outgoing SYN of the flow. */
  predicate Opens(prm: Params, k: FlowKey, ev: Event) {
    IsOutOf(prm, k, ev) && ev.packet.syn
  }

  /** An outgoing FIN or RST of the flow that is not a SYN, or a clear of the table. */
  predicate Closes(prm: Params, k: FlowKey, ev: Event) {
    ev.ClearTable? || (IsOutOf(prm, k, ev) && !ev.packet.syn && (ev.packet.fin || ev.packet.rst))
  }

  /** Some opening event is not followed by a closing one. */
  ghost predicate LatestIsOpening(prm: Params, k: FlowKey, evs: seq<Event>) {
    exists i :: 0 <= i < |evs| && Opens(prm, k, evs[i]) && forall j :: i < j < |evs| ==> !Closes(prm, k, evs[j])
  }

  lemma OpeningSplits(prm: Params, k: FlowKey, evs: seq<Event>)
    requires evs != []
    ensures var last := |evs| - 1;
      LatestIsOpening(prm, k, evs) <==>
        Opens(prm, k, evs[last]) || (!Closes(prm, k, evs[last]) && LatestIsOpening(prm, k, evs[..last]))
  {
    var last := |evs| - 1;
    var before := evs[..last];
    if LatestIsOpening(prm, k, evs) && !Opens(prm, k, evs[last]) {
      var i :| 0 <= i < |evs| && Opens(prm, k, evs[i]) && forall j :: i < j < |evs| ==> !Closes(prm, k, evs[j]);
      assert Opens(prm, k, before[i]);
    }
    if !Closes(prm, k, evs[last]) && LatestIsOpening(prm, k, before) {
      var i :| 0 <= i < |before| && Opens(prm, k, before[i])
        && forall j :: i < j < |before| ==> !Closes(prm, k, before[j]);
      assert Opens(prm, k, evs[i]);
      forall j | i < j < |evs|
        ensures !Closes(prm, k, evs[j])
      {
        if j < last {
          assert !Closes(prm, k, before[j]);
        }
      }
    }
  }

  /** Over every run from the empty table, a flow is in the table exactly when the latest of its
      outgoing SYNs, its outgoing non-SYN FINs and RSTs, and the table clears is a SYN. */
  lemma {:induction false} InTableIffLatestIsOpening(prm: Params, k: FlowKey, evs: seq<Event>)
    ensures k in Run(prm, map[], evs) <==> LatestIsOpening(prm, k, evs)
  {
    if evs != [] {
      var last := |evs| - 1;
      InTableIffLatestIsOpening(prm, k, evs[..last]);
      OpeningSplits(prm, k, evs);
      StepProjects(prm, Run(prm, map[], evs[..last]), k, evs[last]);
    }
  }

  /** Incoming packets and send calls never change which flows are in the table. */
  lemma OnlyOutgoingAndClearChangeDomain(prm: Params, t: Table, ev: Event)
    requires ev.Incoming? || ev.SendMsg?
    ensures Step(prm, t, ev).Keys == t.Keys
  {
  }
}

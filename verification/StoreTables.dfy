/** Which tables exist after a run of the store, and which events meet a missing one. */
module StoreTables {
  import opened Common
  import opened RateTable
  import opened DeficitRoundRobin
  import opened RateStore

  // ----- The tables that exist

  /** An Interest with a rate, and Data sent on, make the table of available rates. */
  predicate Introduces(e: StoreEvent, flow: FlowKey) {
    (e.Interest? && e.flow == flow && e.downstreamRate.Some?) || (e.Send? && e.flow == flow)
  }

  /** An Interest, and Data, make the table of recommended rates. */
  predicate Requests(e: StoreEvent, flow: FlowKey) {
    (e.Interest? || e.Data?) && e.flow == flow
  }

  ghost predicate Introduced(events: seq<StoreEvent>, flow: FlowKey, n: nat)
    requires n <= |events|
  {
    exists k :: 0 <= k < n && Introduces(events[k], flow)
  }

  ghost predicate Requested(events: seq<StoreEvent>, flow: FlowKey, n: nat)
    requires n <= |events|
  {
    exists k :: 0 <= k < n && Requests(events[k], flow)
  }

  lemma StepFlows(stores: seq<Store>, events: seq<StoreEvent>, flow: FlowKey, n: nat)
    requires StoreRun(stores, events) && n < |events|
    ensures flow in stores[n + 1].art <==> flow in stores[n].art || Introduces(events[n], flow)
    ensures flow in stores[n + 1].rrt <==> flow in stores[n].rrt || Requests(events[n], flow)
  {
    assert StoreStep(stores[n], events[n], stores[n + 1]);
  }

  lemma OneEventMore(events: seq<StoreEvent>, flow: FlowKey, n: nat)
    requires n < |events|
    ensures Introduced(events, flow, n + 1) <==> Introduced(events, flow, n) || Introduces(events[n], flow)
    ensures Requested(events, flow, n + 1) <==> Requested(events, flow, n) || Requests(events[n], flow)
  {
  }

  /** After any run a flow has its tables exactly when an earlier event made them. */
  lemma {:induction false} FlowsExactly(stores: seq<Store>, events: seq<StoreEvent>, flow: FlowKey, n: nat)
    requires StoreRun(stores, events) && n <= |events|
    ensures flow in stores[n].art <==> Introduced(events, flow, n)
    ensures flow in stores[n].rrt <==> Requested(events, flow, n)
  {
    if n > 0 {
      FlowsExactly(stores, events, flow, n - 1);
      StepFlows(stores, events, flow, n - 1);
      OneEventMore(events, flow, n - 1);
    }
  }

  // ----- The events that meet a missing table

  /**
   After any run, the next Interest reads a table that does not exist exactly
   when it carries no rate, its flow was never introduced, and the recommended
   rates have a face for it.
   */
  lemma NullTableExactly(stores: seq<Store>, events: seq<StoreEvent>, e: StoreEvent)
    requires StoreRun(stores, events) && e.Interest? && Answerable(stores[|events|], e)
    ensures Dereferences(stores[|events|], e) <==>
      && e.downstreamRate.None?
      && !Introduced(events, e.flow, |events|)
      && HasFaceFor(Get(stores[|events|].rrt, e.flow), e.ingress, e.nexthops, e.dsz)
  {
    FlowsExactly(stores, events, e.flow, |events|);
    SelectsExactly(Get(stores[|events|].rrt, e.flow), e.ingress, e.nexthops, e.dsz);
  }

  /** The very first Interest does it, if it carries no rate and there is one next hop. */
  lemma FirstInterestMeetsNull(e: StoreEvent)
    requires e == Interest("/p", 1, None, [2], None)
    ensures Answerable(NEW_STORE, e) && Dereferences(NEW_STORE, e)
  {
    var t := AddOrUpdate(EMPTY, 2, DEFAULT_RATE);
    assert [2][..0] == [];
    assert Seed(EMPTY, [2]) == t;
    assert |t.faces| == 1 && t.faces[0].id == 2;
  }

  /** After any run, sending Data meets a missing table exactly when the flow had no Interest and no Data before. */
  lemma SendMissesExactly(stores: seq<Store>, events: seq<StoreEvent>, flow: FlowKey, egress: FaceId)
    requires StoreRun(stores, events)
    ensures Dereferences(stores[|events|], Send(flow, egress)) <==> !Requested(events, flow, |events|)
  {
    FlowsExactly(stores, events, flow, |events|);
  }

  // ----- Every Interest for small data is answered

  /** The event names no face by 0, which stands for "no face". */
  predicate NamesFaces(e: StoreEvent) {
    match e
    case Interest(_, _, _, nexthops, _) => 0 !in nexthops
    case Data(_, ingress, _) => ingress != 0
    case _ => true
  }

  lemma StepNamesFaces(stores: seq<Store>, events: seq<StoreEvent>, flow: FlowKey, n: nat)
    requires StoreRun(stores, events) && n < |events| && NamesFaces(events[n])
    requires !Has(Get(stores[n].rrt, flow), 0)
    ensures !Has(Get(stores[n + 1].rrt, flow), 0)
  {
    assert StoreStep(stores[n], events[n], stores[n + 1]);
    StepRrtFaces(stores[n], events[n], stores[n + 1], flow, 0);
  }

  lemma {:induction false} RunNamesFaces(stores: seq<Store>, events: seq<StoreEvent>, flow: FlowKey, n: nat)
    requires StoreRun(stores, events) && n <= |events|
    requires forall k :: 0 <= k < n ==> NamesFaces(events[k])
    ensures !Has(Get(stores[n].rrt, flow), 0)
  {
    if n > 0 {
      RunNamesFaces(stores, events, flow, n - 1);
      StepNamesFaces(stores, events, flow, n - 1);
    }
  }

  lemma FreshIsProper(t: Table)
    requires Fresh(t) && !Has(t, 0)
    ensures Proper(t)
  {
    forall i | 0 <= i < |t.faces| ensures t.faces[i].ratio >= 0.0 {
      if t.total >= 1 {
        NonnegativeShare(t.faces[i].rate as real, t.total as real);
      }
    }
  }

  lemma NonnegativeShare(a: real, b: real)
    requires a >= 0.0 && b > 0.0
    ensures a * 1.0 / b >= 0.0
  {
  }

  /**
   In every run in which no face is called 0, the selector ends for every
   Interest whose data is below the credit cap.
   */
  lemma SmallInterestsAnswerable(stores: seq<Store>, events: seq<StoreEvent>, e: StoreEvent)
    requires StoreRun(stores, events) && forall k :: 0 <= k < |events| ==> NamesFaces(events[k])
    requires e.Interest? && NamesFaces(e) && DataSize(e.dsz) as real < CREDIT_CAP
    ensures Answerable(stores[|events|], e)
  {
    var t := Get(stores[|events|].rrt, e.flow);
    StoreInvariant(stores, events, |events|);
    RunNamesFaces(stores, events, e.flow, |events|);
    EmptyTable();
    AddAllKeeps(t, e.nexthops);
    AddAllFaces(t, e.nexthops, 0);
    FreshIsProper(Seed(t, e.nexthops));
    SmallDataSettles(Seed(t, e.nexthops), DataSize(e.dsz), e.ingress);
  }
}

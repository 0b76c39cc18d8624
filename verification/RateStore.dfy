/**
 The two families of rate tables of a forwarder, one of available rates and one
 of recommended rates, each with a table for every flow, and the events that
 drive them: Interests, Data and the cleaning timer.
 */
module RateStore {
  import opened Common
  import opened RateTable
  import opened DeficitRoundRobin
  import opened WaterFilling

  type FlowKey = string

  datatype Store = Store(art: map<FlowKey, Table>, rrt: map<FlowKey, Table>)

  datatype StoreEvent =
    | Interest(flow: FlowKey, ingress: FaceId, downstreamRate: Option<Uint32>, nexthops: seq<FaceId>, dsz: Option<nat>)
    | Data(flow: FlowKey, ingress: FaceId, targetRate: Option<Uint32>)
    | Send(flow: FlowKey, egress: FaceId)
    | Timer

  const NEW_STORE := Store(map[], map[])

  /** The value of `getMaxTR`. */
  const MAX_TARGET_RATE: Uint32 := 0xFFFF_FFFF

  /** The rate that Data recommends: the greatest one if it names none. */
  function TargetOf(rate: Option<Uint32>): Uint32 {
    if rate.Some? then rate.value else MAX_TARGET_RATE
  }

  function Get(tables: map<FlowKey, Table>, flow: FlowKey): Table {
    if flow in tables then tables[flow] else EMPTY
  }

  /** An Interest that carries a rate is entered, and a face new to the table renews the split. */
  ghost predicate RateEntered(t: Table, ingress: FaceId, rate: Uint32, u: Table) {
    var entered := AddOrUpdate(t, ingress, rate);
    if Has(t, ingress) then u == entered else SplitOf(entered, u)
  }

  ghost predicate Answerable(s: Store, e: StoreEvent)
    requires e.Interest?
  {
    Selectable(Get(s.rrt, e.flow), e.ingress, e.nexthops, e.dsz)
  }

  ghost function Selected(s: Store, e: StoreEvent): Selection
    requires e.Interest? && Answerable(s, e)
  {
    SelectByRatio(Get(s.rrt, e.flow), e.ingress, e.nexthops, e.dsz)
  }

  /**
   The table of available rates of the flow is read without a check as soon as
   a face has been selected; only an Interest with a rate creates it here.
   */
  ghost predicate Dereferences(s: Store, e: StoreEvent)
    requires e.Interest? ==> Answerable(s, e)
  {
    match e
    case Interest(flow, _, rate, _, _) => rate.None? && flow !in s.art && Selected(s, e).face != 0
    case Send(flow, _) => flow !in s.rrt
    case _ => false
  }

  ghost predicate StoreStep(s: Store, e: StoreEvent, u: Store) {
    match e
    case Interest(flow, ingress, rate, nexthops, dsz) =>
      && Answerable(s, e) && !Dereferences(s, e)
      && u.rrt == s.rrt[flow := Selected(s, e).table]
      && (if rate.None? then u.art == s.art
          else flow in u.art && u.art == s.art[flow := u.art[flow]]
               && RateEntered(Get(s.art, flow), ingress, rate.value, u.art[flow]))
    case Data(flow, ingress, rate) =>
      && u.art == s.art
      && u.rrt == s.rrt[flow := AddOrUpdate(Get(s.rrt, flow), ingress, TargetOf(rate))]
    case Send(flow, _) =>
      && !Dereferences(s, e)
      && u.rrt == s.rrt
      && flow in u.art && u.art == s.art[flow := u.art[flow]]
      && AvailableUpdated(Get(s.art, flow), s.rrt[flow].total, u.art[flow])
    case Timer =>
      && u.art.Keys == s.art.Keys && u.rrt.Keys == s.rrt.Keys
      && (forall k :: k in s.art ==> Erased(s.art[k], u.art[k]))
      && (forall k :: k in s.rrt ==> Reset(s.rrt[k], DEFAULT_RATE, u.rrt[k]))
  }

  ghost predicate StoreRun(stores: seq<Store>, events: seq<StoreEvent>) {
    && |stores| == |events| + 1
    && stores[0] == NEW_STORE
    && forall k {:trigger StoreStep(stores[k], events[k], stores[k + 1])} :: 0 <= k < |events| ==>
         StoreStep(stores[k], events[k], stores[k + 1])
  }

  lemma RunStarts()
    ensures StoreRun([NEW_STORE], [])
  {
  }

  lemma RunOneMore(stores: seq<Store>, events: seq<StoreEvent>, e: StoreEvent, u: Store)
    requires StoreRun(stores, events) && StoreStep(stores[|events|], e, u)
    ensures StoreRun(stores + [u], events + [e])
  {
    var longer, more := stores + [u], events + [e];
    forall k | 0 <= k < |more| ensures StoreStep(longer[k], more[k], longer[k + 1]) {
      if k < |events| {
        assert StoreStep(stores[k], events[k], stores[k + 1]);
      }
    }
  }

  // ----- What every step keeps

  ghost predicate ArtInvariant(tables: map<FlowKey, Table>) {
    forall k :: k in tables ==> Consistent(tables[k])
  }

  ghost predicate RrtInvariant(tables: map<FlowKey, Table>) {
    forall k :: k in tables ==> Consistent(tables[k]) && Fresh(tables[k])
  }

  lemma EmptyTable()
    ensures Consistent(EMPTY) && Fresh(EMPTY)
  {
  }

  lemma AllocationsKeep(t: Table, u: Table)
    requires OnlyAllocations(t, u)
    ensures OnlyServes(t, u) && (Consistent(t) ==> Consistent(u))
  {
    SumOfSameRates(t.faces, u.faces);
  }

  lemma BalancesKeep(t: Table, u: Table)
    requires OnlyBalances(t, u)
    ensures OnlyServes(t, u)
    ensures Consistent(t) ==> Consistent(u)
    ensures Fresh(t) ==> Fresh(u)
  {
    SumOfSameRates(t.faces, u.faces);
  }

  lemma {:induction false} AddAllKeeps(t: Table, faces: seq<FaceId>)
    requires Consistent(t) && Fresh(t)
    ensures Consistent(AddAll(t, faces)) && Fresh(AddAll(t, faces))
  {
    if faces != [] {
      var n := |faces| - 1;
      AddAllKeeps(t, faces[..n]);
      UpdateConsistent(AddAll(t, faces[..n]), faces[n], DEFAULT_RATE);
      UpdateFresh(AddAll(t, faces[..n]), faces[n], DEFAULT_RATE);
    }
  }

  lemma SelectionKeeps(s: Store, e: StoreEvent)
    requires e.Interest? && Answerable(s, e) && RrtInvariant(s.rrt)
    ensures Consistent(Selected(s, e).table) && Fresh(Selected(s, e).table)
  {
    EmptyTable();
    var t := Get(s.rrt, e.flow);
    AddAllKeeps(t, e.nexthops);
    SelectedFace(t, e.ingress, e.nexthops, e.dsz);
    BalancesKeep(Seed(t, e.nexthops), Selected(s, e).table);
  }

  lemma EnteredKeeps(t: Table, ingress: FaceId, rate: Uint32, u: Table)
    requires Consistent(t) && RateEntered(t, ingress, rate, u)
    ensures Consistent(u)
  {
    UpdateConsistent(t, ingress, rate);
    if !Has(t, ingress) {
      AllocationsKeep(AddOrUpdate(t, ingress, rate), u);
    }
  }

  lemma AvailableKeeps(t: Table, rate: Uint32, u: Table)
    requires AvailableUpdated(t, rate, u)
    ensures OnlyServes(t, u) && (Consistent(t) ==> Consistent(u))
  {
    var a := t.(available := rate);
    if u != a {
      AllocationsKeep(a, u);
    }
  }

  lemma StepKeepsArt(s: Store, e: StoreEvent, u: Store)
    requires StoreStep(s, e, u) && ArtInvariant(s.art)
    ensures ArtInvariant(u.art)
  {
    EmptyTable();
    match e
    case Interest(flow, ingress, rate, _, _) =>
      if rate.Some? {
        EnteredKeeps(Get(s.art, flow), ingress, rate.value, u.art[flow]);
      }
    case Data(_, _, _) =>
    case Send(flow, _) => AvailableKeeps(Get(s.art, flow), s.rrt[flow].total, u.art[flow]);
    case Timer =>
      forall k | k in u.art ensures Consistent(u.art[k]) {
        EraseConsistent(s.art[k], u.art[k]);
      }
  }

  lemma StepKeepsRrt(s: Store, e: StoreEvent, u: Store)
    requires StoreStep(s, e, u) && RrtInvariant(s.rrt)
    ensures RrtInvariant(u.rrt)
  {
    EmptyTable();
    match e
    case Interest(_, _, _, _, _) => SelectionKeeps(s, e);
    case Data(flow, ingress, rate) =>
      UpdateConsistent(Get(s.rrt, flow), ingress, TargetOf(rate));
      UpdateFresh(Get(s.rrt, flow), ingress, TargetOf(rate));
    case Send(_, _) =>
    case Timer =>
      forall k | k in u.rrt ensures Consistent(u.rrt[k]) && Fresh(u.rrt[k]) {
        StepConsistent(s.rrt[k], ResetSilent(DEFAULT_RATE), u.rrt[k]);
      }
  }

  lemma StepKeepsInvariant(stores: seq<Store>, events: seq<StoreEvent>, n: nat)
    requires StoreRun(stores, events) && n < |events|
    requires ArtInvariant(stores[n].art) && RrtInvariant(stores[n].rrt)
    ensures ArtInvariant(stores[n + 1].art) && RrtInvariant(stores[n + 1].rrt)
  {
    assert StoreStep(stores[n], events[n], stores[n + 1]);
    StepKeepsArt(stores[n], events[n], stores[n + 1]);
    StepKeepsRrt(stores[n], events[n], stores[n + 1]);
  }

  /**
   In every reachable store each table lists each face once and its total is
   the sum of its rates modulo 2^32; and the shares by which Interests are
   spread over the faces are always those of the current recommended rates.
   */
  lemma {:induction false} StoreInvariant(stores: seq<Store>, events: seq<StoreEvent>, n: nat)
    requires StoreRun(stores, events) && n <= |events|
    ensures ArtInvariant(stores[n].art) && RrtInvariant(stores[n].rrt)
  {
    if n > 0 {
      StoreInvariant(stores, events, n - 1);
      StepKeepsInvariant(stores, events, n - 1);
    }
  }

  // ----- Faces of the recommended rates are never lost

  lemma {:induction false} AddAllFaces(t: Table, faces: seq<FaceId>, id: FaceId)
    ensures Has(AddAll(t, faces), id) <==> Has(t, id) || id in faces
  {
    if faces != [] {
      var n := |faces| - 1;
      AddAllFaces(t, faces[..n], id);
      UpdateKeepsFaces(AddAll(t, faces[..n]), faces[n], DEFAULT_RATE, id);
      assert faces == faces[..n] + [faces[n]];
    }
  }

  lemma OnlyBalancesFaces(t: Table, u: Table, id: FaceId)
    requires OnlyBalances(t, u)
    ensures Has(t, id) <==> Has(u, id)
  {
    if i :| 0 <= i < |t.faces| && t.faces[i].id == id {
      assert u.faces[i].id == id;
    }
  }

  /** A selection lists the faces of its table, which are those before or, at the first Interest, the next hops. */
  lemma SelectionFaces(s: Store, e: StoreEvent, id: FaceId)
    requires e.Interest? && Answerable(s, e)
    ensures Has(Selected(s, e).table, id)
        <==> Has(Get(s.rrt, e.flow), id) || (Get(s.rrt, e.flow).faces == [] && id in e.nexthops)
  {
    var t := Get(s.rrt, e.flow);
    AddAllFaces(t, e.nexthops, id);
    SelectedFace(t, e.ingress, e.nexthops, e.dsz);
    OnlyBalancesFaces(Seed(t, e.nexthops), Selected(s, e).table, id);
  }

  lemma ResetKeepsFaces(t: Table, u: Table, id: FaceId)
    requires Reset(t, DEFAULT_RATE, u)
    ensures Has(t, id) <==> Has(u, id)
  {
    if i :| 0 <= i < |t.faces| && t.faces[i].id == id {
      assert u.faces[i].id == id;
    }
  }

  /** How a step changes the faces of the recommended rates of a flow. */
  lemma StepRrtFaces(s: Store, e: StoreEvent, u: Store, flow: FlowKey, id: FaceId)
    requires StoreStep(s, e, u)
    ensures Has(Get(u.rrt, flow), id) <==>
      || Has(Get(s.rrt, flow), id)
      || (e.Interest? && e.flow == flow && Get(s.rrt, flow).faces == [] && id in e.nexthops)
      || (e.Data? && e.flow == flow && e.ingress == id)
  {
    match e
    case Interest(_, _, _, _, _) => SelectionFaces(s, e, id);
    case Data(f, ingress, rate) => UpdateKeepsFaces(Get(s.rrt, f), ingress, TargetOf(rate), id);
    case Send(_, _) =>
    case Timer =>
      if flow in s.rrt {
        ResetKeepsFaces(s.rrt[flow], u.rrt[flow], id);
      }
  }

  lemma RunRrtFaces(stores: seq<Store>, events: seq<StoreEvent>, n: nat, flow: FlowKey, id: FaceId)
    requires StoreRun(stores, events) && n < |events| && Has(Get(stores[n].rrt, flow), id)
    ensures Has(Get(stores[n + 1].rrt, flow), id)
  {
    assert StoreStep(stores[n], events[n], stores[n + 1]);
    StepRrtFaces(stores[n], events[n], stores[n + 1], flow, id);
  }

  lemma {:induction false} RecommendedFacesStay(stores: seq<Store>, events: seq<StoreEvent>, k: nat, n: nat,
                                                flow: FlowKey, id: FaceId)
    requires StoreRun(stores, events) && k <= n <= |events|
    requires Has(Get(stores[k].rrt, flow), id)
    ensures Has(Get(stores[n].rrt, flow), id)
    decreases n
  {
    if k < n {
      RecommendedFacesStay(stores, events, k, n - 1, flow, id);
      RunRrtFaces(stores, events, n - 1, flow, id);
    }
  }
}

/** What a run of the store does to the tables of one flow, as runs of single tables. */
module StoreTraces {
  import opened Common
  import opened RateTable
  import opened DeficitRoundRobin
  import opened RateStore

  ghost predicate TableCounted(t: Table, trace: seq<Event>) {
    Consistent(t) && Counted(t, trace)
  }

  lemma OneStepCounted(t: Table, trace: seq<Event>, e: Event, u: Table)
    requires TableCounted(t, trace) && Step(t, e, u)
    ensures TableCounted(u, trace + [e])
  {
    StepConsistent(t, e, u);
    StepCounted(t, trace, e, u);
  }

  lemma NothingCounted()
    ensures TableCounted(EMPTY, [])
  {
  }

  lemma UpdatesOneMore(trace: seq<Event>, e: Event, id: FaceId)
    ensures UpdatesSince(trace + [e], id) == UpdatesAfter(UpdatesSince(trace, id), e, id)
  {
    assert (trace + [e])[..|trace|] == trace;
  }

  // ----- The available rates of a flow

  /** What one event of the store does to the available rates of a flow. */
  function ArtSteps(e: StoreEvent, flow: FlowKey): seq<Event> {
    match e
    case Interest(f, ingress, rate, _, _) =>
      if f == flow && rate.Some? then [Update(ingress, rate.value), Serve] else [Serve]
    case Timer => [EraseSilent]
    case _ => [Serve]
  }

  /** The count of a face's Interests with a rate, after one more event. */
  function HeardAfter(before: nat, e: StoreEvent, flow: FlowKey, id: FaceId): nat {
    match e
    case Interest(f, ingress, rate, _, _) => if f == flow && ingress == id && rate.Some? then before + 1 else before
    case Timer => 0
    case _ => before
  }

  /** How many Interests with a rate came from the face since the last timer, among the first `n` events. */
  function HeardSince(events: seq<StoreEvent>, flow: FlowKey, id: FaceId, n: nat): nat
    requires n <= |events|
  {
    if n == 0 then 0 else HeardAfter(HeardSince(events, flow, id, n - 1), events[n - 1], flow, id)
  }

  lemma HeardOneMore(trace: seq<Event>, e: StoreEvent, flow: FlowKey, id: FaceId)
    ensures UpdatesSince(trace + ArtSteps(e, flow), id) == HeardAfter(UpdatesSince(trace, id), e, flow, id)
  {
    match e
    case Interest(f, ingress, rate, _, _) =>
      if f == flow && rate.Some? {
        UpdatesTwoMore(trace, Update(ingress, rate.value), Serve, id);
      } else {
        UpdatesOneMore(trace, Serve, id);
      }
    case Timer => UpdatesOneMore(trace, EraseSilent, id);
    case _ => UpdatesOneMore(trace, Serve, id);
  }

  lemma UpdatesTwoMore(trace: seq<Event>, d: Event, e: Event, id: FaceId)
    ensures UpdatesSince(trace + [d, e], id) == UpdatesAfter(UpdatesAfter(UpdatesSince(trace, id), d, id), e, id)
  {
    UpdatesOneMore(trace, d, id);
    UpdatesOneMore(trace + [d], e, id);
    AppendTwo(trace, d, e);
  }

  /** The trace holds, for every face, the Interests with a rate since the last timer. */
  ghost predicate Hears(trace: seq<Event>, events: seq<StoreEvent>, flow: FlowKey, n: nat)
    requires n <= |events|
  {
    forall id :: UpdatesSince(trace, id) == HeardSince(events, flow, id, n)
  }

  lemma HearsOneMore(trace: seq<Event>, events: seq<StoreEvent>, flow: FlowKey, n: nat)
    requires n < |events| && Hears(trace, events, flow, n)
    ensures Hears(trace + ArtSteps(events[n], flow), events, flow, n + 1)
  {
    forall id ensures UpdatesSince(trace + ArtSteps(events[n], flow), id) == HeardSince(events, flow, id, n + 1) {
      HeardOneMore(trace, events[n], flow, id);
    }
  }

  lemma EnteredCounted(t: Table, trace: seq<Event>, ingress: FaceId, rate: Uint32, u: Table)
    requires TableCounted(t, trace) && RateEntered(t, ingress, rate, u)
    ensures TableCounted(u, trace + [Update(ingress, rate), Serve])
  {
    EnteredServes(t, ingress, rate, u);
    TwoStepsCounted(t, trace, Update(ingress, rate), AddOrUpdate(t, ingress, rate), Serve, u);
  }

  lemma TwoStepsCounted(t: Table, trace: seq<Event>, d: Event, u: Table, e: Event, v: Table)
    requires TableCounted(t, trace) && Step(t, d, u) && Step(u, e, v)
    ensures TableCounted(v, trace + [d, e])
  {
    OneStepCounted(t, trace, d, u);
    OneStepCounted(u, trace + [d], e, v);
    AppendTwo(trace, d, e);
  }

  lemma EnteredServes(t: Table, ingress: FaceId, rate: Uint32, u: Table)
    requires RateEntered(t, ingress, rate, u)
    ensures OnlyServes(AddOrUpdate(t, ingress, rate), u)
  {
    if !Has(t, ingress) {
      AllocationsKeep(AddOrUpdate(t, ingress, rate), u);
    }
  }

  lemma StoreStepCounted(s: Store, e: StoreEvent, u: Store, flow: FlowKey, trace: seq<Event>)
    requires StoreStep(s, e, u) && TableCounted(Get(s.art, flow), trace)
    ensures TableCounted(Get(u.art, flow), trace + ArtSteps(e, flow))
  {
    var t, v := Get(s.art, flow), Get(u.art, flow);
    match e
    case Interest(f, ingress, rate, _, _) =>
      if f == flow && rate.Some? {
        EnteredCounted(t, trace, ingress, rate.value, v);
      } else {
        OneStepCounted(t, trace, Serve, v);
      }
    case Data(_, _, _) => OneStepCounted(t, trace, Serve, v);
    case Send(f, _) =>
      if f == flow {
        AvailableKeeps(t, s.rrt[f].total, v);
      }
      OneStepCounted(t, trace, Serve, v);
    case Timer => OneStepCounted(t, trace, EraseSilent, v);
  }

  lemma RunStepCounted(stores: seq<Store>, events: seq<StoreEvent>, flow: FlowKey, n: nat, trace: seq<Event>)
    requires StoreRun(stores, events) && n < |events|
    requires TableCounted(Get(stores[n].art, flow), trace)
    ensures TableCounted(Get(stores[n + 1].art, flow), trace + ArtSteps(events[n], flow))
  {
    assert StoreStep(stores[n], events[n], stores[n + 1]);
    StoreStepCounted(stores[n], events[n], stores[n + 1], flow, trace);
  }

  lemma {:induction false} ArtCounted(stores: seq<Store>, events: seq<StoreEvent>, flow: FlowKey, n: nat)
    returns (trace: seq<Event>)
    requires StoreRun(stores, events) && n <= |events|
    ensures TableCounted(Get(stores[n].art, flow), trace) && Hears(trace, events, flow, n)
  {
    if n == 0 {
      trace := [];
      NothingCounted();
    } else {
      var before := ArtCounted(stores, events, flow, n - 1);
      RunStepCounted(stores, events, flow, n - 1, before);
      HearsOneMore(before, events, flow, n - 1);
      trace := before + ArtSteps(events[n - 1], flow);
    }
  }

  lemma TimerErases(stores: seq<Store>, events: seq<StoreEvent>, flow: FlowKey, n: nat)
    requires StoreRun(stores, events) && n < |events| && events[n] == Timer
    ensures Erased(Get(stores[n].art, flow), Get(stores[n + 1].art, flow))
  {
    assert StoreStep(stores[n], events[n], stores[n + 1]);
  }

  /**
   In every run, a timer keeps a face among those that ask for a flow exactly
   when an Interest with a rate came from it since the timer before, unless it
   was heard of a multiple of 2^32 times.
   */
  lemma TimerKeepsAskingFaces(stores: seq<Store>, events: seq<StoreEvent>, n: nat, flow: FlowKey, id: FaceId)
    requires StoreRun(stores, events) && n < |events| && events[n] == Timer
    ensures var heard := HeardSince(events, flow, id, n);
      && (Has(Get(stores[n + 1].art, flow), id) <==> Mod32(heard) != 0)
      && (heard < WRAP ==> (Has(Get(stores[n + 1].art, flow), id) <==> heard > 0))
  {
    var trace := ArtCounted(stores, events, flow, n);
    TimerErases(stores, events, flow, n);
    ErasedHas(Get(stores[n].art, flow), trace, Get(stores[n + 1].art, flow), id);
  }

  lemma ErasedHas(t: Table, trace: seq<Event>, u: Table, id: FaceId)
    requires TableCounted(t, trace) && Erased(t, u)
    ensures Has(u, id) <==> Mod32(UpdatesSince(trace, id)) != 0
  {
    EraseKeepsHeardFaces(t, u, id);
    if Has(t, id) {
      var k := Position(t.faces, id);
      assert t.faces[k].id == id;
    }
  }

  // ----- The recommended rates of a flow

  /** The next hops, each entered with the default rate. */
  function Defaults(nexthops: seq<FaceId>): seq<Event> {
    if nexthops == [] then [] else
      Defaults(nexthops[..|nexthops| - 1]) + [Update(nexthops[|nexthops| - 1], DEFAULT_RATE)]
  }

  /** Whether an Interest fills the table of its flow from the next hops. */
  predicate Fills(s: Store, e: StoreEvent, flow: FlowKey) {
    e.Interest? && e.flow == flow && Get(s.rrt, flow).faces == []
  }

  /** What one event of the store does to the recommended rates of a flow. */
  function RrtSteps(s: Store, e: StoreEvent, flow: FlowKey): seq<Event> {
    match e
    case Interest(_, _, _, nexthops, _) => (if Fills(s, e, flow) then Defaults(nexthops) else []) + [Serve]
    case Data(f, ingress, rate) => if f == flow then [Update(ingress, TargetOf(rate))] else [Serve]
    case Send(_, _) => [Serve]
    case Timer => [ResetSilent(DEFAULT_RATE)]
  }

  /** How often a rate was told for a face, after one more event. */
  function ToldAfter(before: nat, s: Store, e: StoreEvent, flow: FlowKey, id: FaceId): nat {
    match e
    case Interest(_, _, _, nexthops, _) => before + if Fills(s, e, flow) then Occurrences(nexthops, id) else 0
    case Data(f, ingress, _) => if f == flow && ingress == id then before + 1 else before
    case Send(_, _) => before
    case Timer => 0
  }

  /**
   How often a rate was told for the face since the last timer, among the first
   `n` events: once by each Data from it, and by the Interest that filled the table.
   */
  function ToldSince(stores: seq<Store>, events: seq<StoreEvent>, flow: FlowKey, id: FaceId, n: nat): nat
    requires n <= |events| < |stores|
  {
    if n == 0 then 0 else
      ToldAfter(ToldSince(stores, events, flow, id, n - 1), stores[n - 1], events[n - 1], flow, id)
  }

  lemma {:induction false} UpdatesOfDefaults(trace: seq<Event>, nexthops: seq<FaceId>, id: FaceId)
    ensures UpdatesSince(trace + Defaults(nexthops), id) == UpdatesSince(trace, id) + Occurrences(nexthops, id)
  {
    if nexthops == [] {
      assert trace + [] == trace;
    } else {
      var n := |nexthops| - 1;
      UpdatesOfDefaults(trace, nexthops[..n], id);
      var update := Update(nexthops[n], DEFAULT_RATE);
      UpdatesOneMore(trace + Defaults(nexthops[..n]), update, id);
      assert trace + Defaults(nexthops) == trace + Defaults(nexthops[..n]) + [update];
      OccurrencesLast(nexthops, id);
    }
  }

  lemma OccurrencesLast(ids: seq<FaceId>, id: FaceId)
    requires ids != []
    ensures Occurrences(ids, id) == Occurrences(ids[..|ids| - 1], id) + if ids[|ids| - 1] == id then 1 else 0
  {
    var n := |ids| - 1;
    assert ids == ids[..n] + [ids[n]];
    OccurrencesSplit(ids[..n], [ids[n]], id);
    assert [ids[n]][1..] == [];
  }

  lemma ToldOneMore(trace: seq<Event>, s: Store, e: StoreEvent, flow: FlowKey, id: FaceId)
    ensures UpdatesSince(trace + RrtSteps(s, e, flow), id) == ToldAfter(UpdatesSince(trace, id), s, e, flow, id)
  {
    match e
    case Interest(_, _, _, nexthops, _) =>
      if Fills(s, e, flow) {
        UpdatesOfDefaults(trace, nexthops, id);
        UpdatesOneMore(trace + Defaults(nexthops), Serve, id);
        assert trace + (Defaults(nexthops) + [Serve]) == trace + Defaults(nexthops) + [Serve];
      } else {
        UpdatesOneMore(trace, Serve, id);
        assert [] + [Serve] == [Serve];
      }
    case Data(f, ingress, rate) =>
      UpdatesOneMore(trace, if f == flow then Update(ingress, TargetOf(rate)) else Serve, id);
    case Send(_, _) => UpdatesOneMore(trace, Serve, id);
    case Timer => UpdatesOneMore(trace, ResetSilent(DEFAULT_RATE), id);
  }

  /** The trace holds, for every face, the rates told since the last timer. */
  ghost predicate Tells(trace: seq<Event>, stores: seq<Store>, events: seq<StoreEvent>, flow: FlowKey, n: nat)
    requires n <= |events| < |stores|
  {
    forall id :: UpdatesSince(trace, id) == ToldSince(stores, events, flow, id, n)
  }

  lemma TellsOneMore(trace: seq<Event>, stores: seq<Store>, events: seq<StoreEvent>, flow: FlowKey, n: nat)
    requires n < |events| < |stores| && Tells(trace, stores, events, flow, n)
    ensures Tells(trace + RrtSteps(stores[n], events[n], flow), stores, events, flow, n + 1)
  {
    forall id
      ensures UpdatesSince(trace + RrtSteps(stores[n], events[n], flow), id)
           == ToldSince(stores, events, flow, id, n + 1)
    {
      ToldOneMore(trace, stores[n], events[n], flow, id);
    }
  }

  lemma {:induction false} AddAllCounted(t: Table, trace: seq<Event>, nexthops: seq<FaceId>)
    requires TableCounted(t, trace)
    ensures TableCounted(AddAll(t, nexthops), trace + Defaults(nexthops))
  {
    if nexthops == [] {
      assert trace + [] == trace;
    } else {
      var n := |nexthops| - 1;
      var update := Update(nexthops[n], DEFAULT_RATE);
      AddAllCounted(t, trace, nexthops[..n]);
      OneStepCounted(AddAll(t, nexthops[..n]), trace + Defaults(nexthops[..n]), update, AddAll(t, nexthops));
      assert trace + Defaults(nexthops) == trace + Defaults(nexthops[..n]) + [update];
    }
  }

  lemma SelectionCounted(s: Store, e: StoreEvent, trace: seq<Event>)
    requires e.Interest? && Answerable(s, e) && TableCounted(Get(s.rrt, e.flow), trace)
    ensures TableCounted(Selected(s, e).table, trace + RrtSteps(s, e, e.flow))
  {
    var t := Get(s.rrt, e.flow);
    var filling := if t.faces == [] then Defaults(e.nexthops) else [];
    if t.faces == [] {
      AddAllCounted(t, trace, e.nexthops);
    } else {
      assert trace + [] == trace;
    }
    SelectedFace(t, e.ingress, e.nexthops, e.dsz);
    BalancesKeep(Seed(t, e.nexthops), Selected(s, e).table);
    OneStepCounted(Seed(t, e.nexthops), trace + filling, Serve, Selected(s, e).table);
    assert trace + (filling + [Serve]) == trace + filling + [Serve];
  }

  lemma RrtStepCounted(s: Store, e: StoreEvent, u: Store, flow: FlowKey, trace: seq<Event>)
    requires StoreStep(s, e, u) && TableCounted(Get(s.rrt, flow), trace)
    ensures TableCounted(Get(u.rrt, flow), trace + RrtSteps(s, e, flow))
  {
    var t, v := Get(s.rrt, flow), Get(u.rrt, flow);
    match e
    case Interest(f, _, _, _, _) =>
      if f == flow {
        SelectionCounted(s, e, trace);
      } else {
        OneStepCounted(t, trace, Serve, v);
        assert [] + [Serve] == [Serve];
      }
    case Data(f, ingress, rate) =>
      OneStepCounted(t, trace, if f == flow then Update(ingress, TargetOf(rate)) else Serve, v);
    case Send(_, _) => OneStepCounted(t, trace, Serve, v);
    case Timer => OneStepCounted(t, trace, ResetSilent(DEFAULT_RATE), v);
  }

  lemma RunRrtCounted(stores: seq<Store>, events: seq<StoreEvent>, flow: FlowKey, n: nat, trace: seq<Event>)
    requires StoreRun(stores, events) && n < |events|
    requires TableCounted(Get(stores[n].rrt, flow), trace)
    ensures TableCounted(Get(stores[n + 1].rrt, flow), trace + RrtSteps(stores[n], events[n], flow))
  {
    assert StoreStep(stores[n], events[n], stores[n + 1]);
    RrtStepCounted(stores[n], events[n], stores[n + 1], flow, trace);
  }

  lemma {:induction false} RrtCounted(stores: seq<Store>, events: seq<StoreEvent>, flow: FlowKey, n: nat)
    returns (trace: seq<Event>)
    requires StoreRun(stores, events) && n <= |events|
    ensures TableCounted(Get(stores[n].rrt, flow), trace) && Tells(trace, stores, events, flow, n)
  {
    if n == 0 {
      trace := [];
      NothingCounted();
    } else {
      var before := RrtCounted(stores, events, flow, n - 1);
      RunRrtCounted(stores, events, flow, n - 1, before);
      TellsOneMore(before, stores, events, flow, n - 1);
      trace := before + RrtSteps(stores[n - 1], events[n - 1], flow);
    }
  }

  lemma TimerResets(stores: seq<Store>, events: seq<StoreEvent>, flow: FlowKey, n: nat)
    requires StoreRun(stores, events) && n < |events| && events[n] == Timer
    ensures Reset(Get(stores[n].rrt, flow), DEFAULT_RATE, Get(stores[n + 1].rrt, flow))
  {
    assert StoreStep(stores[n], events[n], stores[n + 1]);
  }

  /**
   In every run, a timer lets a recommended face fall back to the default rate
   exactly when no rate was told for it since the timer before, or a multiple of
   2^32 times; any other face keeps the rate that it has.
   */
  lemma SilentFacesFallBack(stores: seq<Store>, events: seq<StoreEvent>, n: nat, flow: FlowKey, i: nat)
    requires StoreRun(stores, events) && n < |events| && events[n] == Timer
    requires i < |Get(stores[n].rrt, flow).faces|
    ensures var f, faces := Get(stores[n].rrt, flow).faces[i], Get(stores[n + 1].rrt, flow).faces;
      var told := ToldSince(stores, events, flow, f.id, n);
      && i < |faces| && faces[i].id == f.id
      && faces[i].rate == (if Mod32(told) == 0 then DEFAULT_RATE else f.rate)
      && (told == 0 ==> faces[i].rate == DEFAULT_RATE)
      && (0 < told < WRAP ==> faces[i].rate == f.rate)
  {
    var id := Get(stores[n].rrt, flow).faces[i].id;
    var trace := RrtCounted(stores, events, flow, n);
    TimerResets(stores, events, flow, n);
    var told := ToldSince(stores, events, flow, id, n);
    if told < WRAP {
      Mod32Small(told);
    }
  }
}

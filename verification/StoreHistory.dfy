/**
 What the tables of a store hold, read off the history of its events: for every
 flow and face, whether there is a rate on record, and which.
 */
module StoreHistory {
  import opened Common
  import opened RateTable
  import opened DeficitRoundRobin
  import opened RateStore
  import opened StoreTraces

  /** The table lists the face with this rate, or does not list it. */
  ghost predicate RateIs(t: Table, id: FaceId, rate: Option<Uint32>) {
    match rate
    case None => !Has(t, id)
    case Some(r) => exists i :: 0 <= i < |t.faces| && t.faces[i].id == id && t.faces[i].rate == r
  }

  lemma SameRates(t: Table, u: Table, id: FaceId, rate: Option<Uint32>)
    requires RateIs(t, id, rate) && OnlyServes(t, u)
    ensures RateIs(u, id, rate)
  {
    if rate.Some? {
      var i :| 0 <= i < |t.faces| && t.faces[i].id == id && t.faces[i].rate == rate.value;
      assert u.faces[i].id == id && u.faces[i].rate == rate.value;
    }
  }

  lemma UpdatedRate(t: Table, x: FaceId, r: Uint32, id: FaceId, rate: Option<Uint32>)
    requires RateIs(t, id, rate)
    ensures RateIs(AddOrUpdate(t, x, r), id, if id == x then Some(r) else rate)
  {
    var u := AddOrUpdate(t, x, r);
    UpdateKeepsFaces(t, x, r, id);
    if id == x {
      var k := if Has(t, x) then Position(t.faces, x) else |t.faces|;
      assert u.faces[k].id == x && u.faces[k].rate == r;
    } else if rate.Some? {
      var i :| 0 <= i < |t.faces| && t.faces[i].id == id && t.faces[i].rate == rate.value;
      assert u.faces[i].id == id && u.faces[i].rate == rate.value;
    }
  }

  // ----- The rates asked for

  /** The rate that the last Interest from the face has asked for, forgotten at a timer that finds the face silent. */
  function LastAsked(events: seq<StoreEvent>, flow: FlowKey, id: FaceId, n: nat): Option<Uint32>
    requires n <= |events|
  {
    if n == 0 then None else
      var before := LastAsked(events, flow, id, n - 1);
      match events[n - 1]
      case Interest(f, ingress, rate, _, _) => if f == flow && ingress == id && rate.Some? then rate else before
      case Timer => if HeardSince(events, flow, id, n - 1) % 0x1_0000_0000 == 0 then None else before
      case _ => before
  }

  lemma ErasedRate(t: Table, u: Table, id: FaceId, rate: Option<Uint32>, trace: seq<Event>)
    requires TableCounted(t, trace) && Erased(t, u) && RateIs(t, id, rate)
    ensures RateIs(u, id, if Mod32(UpdatesSince(trace, id)) == 0 then None else rate)
  {
    ErasedHas(t, trace, u, id);
    if rate.Some? && Mod32(UpdatesSince(trace, id)) != 0 {
      var i :| 0 <= i < |t.faces| && t.faces[i].id == id && t.faces[i].rate == rate.value;
      var kept := t.faces[i].(received := 0);
      SurvivorMembers(t.faces, kept);
      assert kept in multiset(u.faces);
      var k :| 0 <= k < |u.faces| && u.faces[k] == kept;
      assert u.faces[k].id == id && u.faces[k].rate == rate.value;
    }
  }

  lemma EnteredRate(t: Table, ingress: FaceId, r: Uint32, u: Table, id: FaceId, rate: Option<Uint32>)
    requires RateEntered(t, ingress, r, u) && RateIs(t, id, rate)
    ensures RateIs(u, id, if id == ingress then Some(r) else rate)
  {
    UpdatedRate(t, ingress, r, id, rate);
    EnteredServes(t, ingress, r, u);
    SameRates(AddOrUpdate(t, ingress, r), u, id, if id == ingress then Some(r) else rate);
  }

  lemma AskedStep(stores: seq<Store>, events: seq<StoreEvent>, flow: FlowKey, id: FaceId, n: nat)
    requires StoreRun(stores, events) && n < |events|
    requires RateIs(Get(stores[n].art, flow), id, LastAsked(events, flow, id, n))
    ensures RateIs(Get(stores[n + 1].art, flow), id, LastAsked(events, flow, id, n + 1))
  {
    var s, u, rate := stores[n], stores[n + 1], LastAsked(events, flow, id, n);
    var t, v := Get(s.art, flow), Get(u.art, flow);
    assert StoreStep(s, events[n], u);
    match events[n]
    case Interest(f, ingress, r, _, _) =>
      if f == flow && r.Some? {
        EnteredRate(t, ingress, r.value, v, id, rate);
      }
    case Data(_, _, _) =>
    case Send(f, _) =>
      if f == flow {
        AvailableKeeps(t, s.rrt[f].total, v);
        SameRates(t, v, id, rate);
      }
    case Timer =>
      var trace := ArtCounted(stores, events, flow, n);
      Mod32IsRemainder(HeardSince(events, flow, id, n));
      ErasedRate(t, v, id, rate, trace);
  }

  /** After any run the available rates of a flow are, face by face, what was asked for last. */
  lemma {:induction false} AskedRatesExactly(stores: seq<Store>, events: seq<StoreEvent>,
                                             flow: FlowKey, id: FaceId, n: nat)
    requires StoreRun(stores, events) && n <= |events|
    ensures RateIs(Get(stores[n].art, flow), id, LastAsked(events, flow, id, n))
  {
    if n > 0 {
      AskedRatesExactly(stores, events, flow, id, n - 1);
      AskedStep(stores, events, flow, id, n - 1);
    }
  }

  // ----- The rates recommended

  /**
   The rate that the last Data from the face has recommended, the greatest one if
   it named none; 2000000 for a next hop with which the table was filled, and for
   a face that a timer finds silent.
   */
  function LastTold(stores: seq<Store>, events: seq<StoreEvent>, flow: FlowKey, id: FaceId, n: nat): Option<Uint32>
    requires n <= |events| < |stores|
  {
    if n == 0 then None else
      var before := LastTold(stores, events, flow, id, n - 1);
      match events[n - 1]
      case Interest(_, _, _, nexthops, _) =>
        if Fills(stores[n - 1], events[n - 1], flow) && id in nexthops then Some(2000000) else before
      case Data(f, ingress, rate) =>
        if f != flow || ingress != id then before else if rate.None? then Some(0xFFFF_FFFF) else rate
      case Send(_, _) => before
      case Timer =>
        if before.Some? && ToldSince(stores, events, flow, id, n - 1) % 0x1_0000_0000 == 0 then Some(2000000)
        else before
  }

  lemma {:induction false} SeededRate(t: Table, nexthops: seq<FaceId>, id: FaceId, rate: Option<Uint32>)
    requires RateIs(t, id, rate)
    ensures RateIs(AddAll(t, nexthops), id, if id in nexthops then Some(2000000) else rate)
  {
    if nexthops != [] {
      var n := |nexthops| - 1;
      assert nexthops == nexthops[..n] + [nexthops[n]];
      SeededRate(t, nexthops[..n], id, rate);
      UpdatedRate(AddAll(t, nexthops[..n]), nexthops[n], 2000000, id,
                  if id in nexthops[..n] then Some(2000000) else rate);
    }
  }

  lemma SelectedRate(s: Store, e: StoreEvent, id: FaceId, rate: Option<Uint32>)
    requires e.Interest? && Answerable(s, e) && RateIs(Get(s.rrt, e.flow), id, rate)
    ensures RateIs(Selected(s, e).table, id, if Fills(s, e, e.flow) && id in e.nexthops then Some(2000000) else rate)
  {
    var t := Get(s.rrt, e.flow);
    SeededRate(t, e.nexthops, id, rate);
    SelectedFace(t, e.ingress, e.nexthops, e.dsz);
    BalancesKeep(Seed(t, e.nexthops), Selected(s, e).table);
    SameRates(Seed(t, e.nexthops), Selected(s, e).table, id,
              if Fills(s, e, e.flow) && id in e.nexthops then Some(2000000) else rate);
  }

  lemma ResetRate(stores: seq<Store>, events: seq<StoreEvent>, flow: FlowKey, id: FaceId, n: nat, rate: Option<Uint32>)
    requires StoreRun(stores, events) && n < |events| && events[n] == Timer
    requires RateIs(Get(stores[n].rrt, flow), id, rate)
    ensures RateIs(Get(stores[n + 1].rrt, flow), id,
                   if rate.Some? && ToldSince(stores, events, flow, id, n) % 0x1_0000_0000 == 0 then Some(2000000)
                   else rate)
  {
    var t, u := Get(stores[n].rrt, flow), Get(stores[n + 1].rrt, flow);
    if rate.Some? {
      var i :| 0 <= i < |t.faces| && t.faces[i].id == id && t.faces[i].rate == rate.value;
      SilentFacesFallBack(stores, events, n, flow, i);
      Mod32IsRemainder(ToldSince(stores, events, flow, id, n));
    } else {
      TimerResets(stores, events, flow, n);
      ResetKeepsFaces(t, u, id);
    }
  }

  lemma ToldStep(stores: seq<Store>, events: seq<StoreEvent>, flow: FlowKey, id: FaceId, n: nat)
    requires StoreRun(stores, events) && n < |events|
    requires RateIs(Get(stores[n].rrt, flow), id, LastTold(stores, events, flow, id, n))
    ensures RateIs(Get(stores[n + 1].rrt, flow), id, LastTold(stores, events, flow, id, n + 1))
  {
    var s, u, rate := stores[n], stores[n + 1], LastTold(stores, events, flow, id, n);
    assert StoreStep(s, events[n], u);
    match events[n]
    case Interest(f, _, _, _, _) =>
      if f == flow {
        SelectedRate(s, events[n], id, rate);
      }
    case Data(f, ingress, r) =>
      if f == flow {
        UpdatedRate(Get(s.rrt, flow), ingress, TargetOf(r), id, rate);
      }
    case Send(_, _) =>
    case Timer => ResetRate(stores, events, flow, id, n, rate);
  }

  /** After any run the recommended rates of a flow are, face by face, what was told last. */
  lemma {:induction false} ToldRatesExactly(stores: seq<Store>, events: seq<StoreEvent>,
                                            flow: FlowKey, id: FaceId, n: nat)
    requires StoreRun(stores, events) && n <= |events|
    ensures RateIs(Get(stores[n].rrt, flow), id, LastTold(stores, events, flow, id, n))
  {
    if n > 0 {
      ToldRatesExactly(stores, events, flow, id, n - 1);
      ToldStep(stores, events, flow, id, n - 1);
    }
  }

  // ----- The credit of the recommended faces

  /** The j-th face of `u` is the j-th of `t` with the balance that it had, or is new and has none. */
  ghost predicate CreditKept(t: Table, u: Table, j: nat)
    requires j < |u.faces|
  {
    && u.next == t.next
    && if j < |t.faces| then u.faces[j].id == t.faces[j].id && u.faces[j].balance == t.faces[j].balance
       else u.faces[j].balance == 0.0
  }

  lemma UpdateKeepsCredit(t: Table, id: FaceId, rate: Uint32, j: nat)
    requires j < |AddOrUpdate(t, id, rate).faces|
    ensures CreditKept(t, AddOrUpdate(t, id, rate), j)
  {
    StepKeepsCredit(t, Update(id, rate), AddOrUpdate(t, id, rate), j);
    if j >= |t.faces| {
      assert forall i :: 0 <= i < |t.faces| ==> t.faces[i].id != AddOrUpdate(t, id, rate).faces[j].id;
    }
  }

  lemma ResetKeepsCredit(t: Table, u: Table, j: nat)
    requires Reset(t, DEFAULT_RATE, u) && j < |u.faces|
    ensures CreditKept(t, u, j)
  {
    StepKeepsCredit(t, ResetSilent(DEFAULT_RATE), u, j);
  }

  /**
   Only an Interest of its flow moves the credit of a recommended face: any other
   event leaves it where it is in the list, with the balance that it has, and the
   selector resumes where it would have; a face that is new has no credit.
   */
  lemma OnlyInterestsMoveCredit(stores: seq<Store>, events: seq<StoreEvent>, flow: FlowKey, n: nat, j: nat)
    requires StoreRun(stores, events) && n < |events| && !(events[n].Interest? && events[n].flow == flow)
    requires j < |Get(stores[n + 1].rrt, flow).faces|
    ensures CreditKept(Get(stores[n].rrt, flow), Get(stores[n + 1].rrt, flow), j)
  {
    assert StoreStep(stores[n], events[n], stores[n + 1]);
    match events[n]
    case Interest(_, _, _, _, _) =>
    case Data(f, ingress, rate) =>
      if f == flow {
        UpdateKeepsCredit(Get(stores[n].rrt, flow), ingress, TargetOf(rate), j);
      }
    case Send(_, _) =>
    case Timer =>
      TimerResets(stores, events, flow, n);
      ResetKeepsCredit(Get(stores[n].rrt, flow), Get(stores[n + 1].rrt, flow), j);
  }
}

/**
 The ratios and balances by which the faces of a flow take turns, over runs of
 the store: bounded exactly as long as no rate on record is above its total.
 */
module StoreBalances {
  import opened Common
  import opened RateTable
  import opened DeficitRoundRobin
  import opened RateShares
  import opened RateStore
  import opened UpstreamRates

  /** Every rate is a share of the total, which a total that reads zero leaves open. */
  ghost predicate Within(t: Table) {
    t.total == 0 || forall i :: 0 <= i < |t.faces| ==> t.faces[i].rate <= t.total
  }

  ghost predicate RatiosOk(t: Table) {
    forall i :: 0 <= i < |t.faces| ==> 0.0 <= t.faces[i].ratio <= 1.0
  }

  /** Balances of the faces, whatever their ratios. */
  ghost predicate BalancesOk(faces: seq<Face>) {
    forall i :: 0 <= i < |faces| ==> 0.0 <= faces[i].balance < CREDIT_CAP + 16000.0
  }

  ghost predicate AllBounded(tables: map<FlowKey, Table>) {
    forall k :: k in tables ==> Bounded(tables[k])
  }

  ghost predicate AllWithin(tables: map<FlowKey, Table>) {
    forall k :: k in tables ==> Within(tables[k])
  }

  lemma FreshRatio(t: Table, i: nat)
    requires Fresh(t) && i < |t.faces|
    ensures 0.0 <= t.faces[i].ratio <= 1.0 <==> t.total == 0 || t.faces[i].rate <= t.total
  {
    if t.total >= 1 {
      ShareOf(t.faces[i].rate as real, t.total as real);
    }
  }

  /** The ratios of an up-to-date table are shares exactly if no rate is above the total. */
  lemma RatiosExactly(t: Table)
    requires Fresh(t)
    ensures RatiosOk(t) <==> Within(t)
  {
    forall i | 0 <= i < |t.faces|
      ensures 0.0 <= t.faces[i].ratio <= 1.0 <==> t.total == 0 || t.faces[i].rate <= t.total
    {
      FreshRatio(t, i);
    }
  }

  lemma BoundedExactly(t: Table)
    requires Fresh(t)
    ensures Bounded(t) <==> Within(t) && BalancesOk(t.faces)
  {
    RatiosExactly(t);
  }

  /** Without an overflow every rate is within the total. */
  lemma NoOverflowIsWithin(t: Table)
    requires Consistent(t) && !Overflows(t)
    ensures Within(t)
  {
    if t.total != 0 {
      Mod32Small(SumRates(t.faces));
      forall i | 0 <= i < |t.faces| ensures t.faces[i].rate <= t.total {
        RateWithinSum(t.faces, i);
      }
    }
  }

  // ----- What every step keeps

  lemma UpdateBalances(t: Table, id: FaceId, rate: Uint32)
    requires BalancesOk(t.faces)
    ensures BalancesOk(AddOrUpdate(t, id, rate).faces)
  {
  }

  lemma {:induction false} AddAllBalances(t: Table, nexthops: seq<FaceId>)
    requires BalancesOk(t.faces)
    ensures BalancesOk(AddAll(t, nexthops).faces)
  {
    if nexthops != [] {
      var n := |nexthops| - 1;
      AddAllBalances(t, nexthops[..n]);
      UpdateBalances(AddAll(t, nexthops[..n]), nexthops[n], DEFAULT_RATE);
    }
  }

  lemma BalancesMoveWithin(t: Table, u: Table)
    requires OnlyBalances(t, u)
    ensures Within(t) <==> Within(u)
  {
  }

  lemma SelectionBounded(s: Store, e: StoreEvent)
    requires e.Interest? && Answerable(s, e) && RrtInvariant(s.rrt) && AllBounded(s.rrt)
    requires Within(Selected(s, e).table)
    ensures Bounded(Selected(s, e).table)
  {
    var t := Get(s.rrt, e.flow);
    var seeded := Seed(t, e.nexthops);
    EmptyTable();
    AddAllKeeps(t, e.nexthops);
    AddAllBalances(t, e.nexthops);
    SelectedFace(t, e.ingress, e.nexthops, e.dsz);
    BalancesMoveWithin(seeded, Selected(s, e).table);
    BoundedExactly(seeded);
    if |seeded.faces| >= 2 {
      SelectKeepsBounds(seeded, DataSize(e.dsz), e.ingress);
    }
  }

  lemma ResetBalances(t: Table, u: Table)
    requires Reset(t, DEFAULT_RATE, u) && BalancesOk(t.faces)
    ensures BalancesOk(u.faces)
  {
  }

  lemma StepKeepsBounds(s: Store, e: StoreEvent, u: Store)
    requires StoreStep(s, e, u) && RrtInvariant(s.rrt) && RrtInvariant(u.rrt)
    requires AllBounded(s.rrt) && AllWithin(u.rrt)
    ensures AllBounded(u.rrt)
  {
    match e
    case Interest(flow, _, _, _, _) =>
      assert Within(u.rrt[flow]);
      SelectionBounded(s, e);
    case Data(flow, ingress, rate) =>
      UpdateBalances(Get(s.rrt, flow), ingress, TargetOf(rate));
      BoundedExactly(u.rrt[flow]);
    case Send(_, _) =>
    case Timer =>
      forall k | k in u.rrt ensures Bounded(u.rrt[k]) {
        ResetBalances(s.rrt[k], u.rrt[k]);
        BoundedExactly(u.rrt[k]);
      }
  }

  lemma RunStepBounds(stores: seq<Store>, events: seq<StoreEvent>, n: nat)
    requires StoreRun(stores, events) && n < |events|
    requires AllBounded(stores[n].rrt) && AllWithin(stores[n + 1].rrt)
    ensures AllBounded(stores[n + 1].rrt)
  {
    assert StoreStep(stores[n], events[n], stores[n + 1]);
    StoreInvariant(stores, events, n);
    StoreInvariant(stores, events, n + 1);
    StepKeepsBounds(stores[n], events[n], stores[n + 1]);
  }

  // ----- Bounds over runs

  lemma {:induction false} RunKeepsBounds(stores: seq<Store>, events: seq<StoreEvent>, n: nat)
    requires StoreRun(stores, events) && n <= |events|
    requires forall k :: 0 <= k <= n ==> AllWithin(stores[k].rrt)
    ensures AllBounded(stores[n].rrt)
  {
    if n > 0 {
      RunKeepsBounds(stores, events, n - 1);
      RunStepBounds(stores, events, n - 1);
    }
  }

  lemma BoundedIsWithin(stores: seq<Store>, events: seq<StoreEvent>, n: nat)
    requires StoreRun(stores, events) && n <= |events| && AllBounded(stores[n].rrt)
    ensures AllWithin(stores[n].rrt)
  {
    StoreInvariant(stores, events, n);
    forall k | k in stores[n].rrt ensures Within(stores[n].rrt[k]) {
      BoundedExactly(stores[n].rrt[k]);
    }
  }

  /**
   Up to any point of a run, all ratios are shares and all balances at least 0
   and below the cap and one quantum, exactly if no rate on record has been above
   a total other than zero.
   */
  lemma RunBoundsExactly(stores: seq<Store>, events: seq<StoreEvent>, n: nat)
    requires StoreRun(stores, events) && n <= |events|
    ensures (forall k :: 0 <= k <= n ==> AllBounded(stores[k].rrt))
        <==> (forall k :: 0 <= k <= n ==> AllWithin(stores[k].rrt))
  {
    if forall k :: 0 <= k <= n ==> AllWithin(stores[k].rrt) {
      forall k | 0 <= k <= n ensures AllBounded(stores[k].rrt) {
        RunKeepsBounds(stores, events, k);
      }
    }
    if forall k :: 0 <= k <= n ==> AllBounded(stores[k].rrt) {
      forall k | 0 <= k <= n ensures AllWithin(stores[k].rrt) {
        BoundedIsWithin(stores, events, k);
      }
    }
  }

  /** An overflow alone does not break the bounds: three rates of 2^31 have a total of 2^31. */
  lemma OverflowMayStayBounded(t: Table)
    requires |t.faces| == 3 && Consistent(t) && Fresh(t) && BalancesOk(t.faces)
    requires forall i :: 0 <= i < 3 ==> t.faces[i].rate == 0x8000_0000
    ensures Overflows(t) && Bounded(t)
  {
    SumOfThree(t.faces);
    Mod32IsRemainder(0x1_8000_0000);
    BoundedExactly(t);
  }

  lemma SumOfThree(faces: seq<Face>)
    requires |faces| == 3
    ensures SumRates(faces) == faces[0].rate + faces[1].rate + faces[2].rate
  {
    SumOfTwo(faces[..2]);
    assert faces == faces[..2] + [faces[2]];
    SumAppend(faces[..2], faces[2]);
  }

  // ----- An overflow that breaks the bounds

  /** The first sweep finds empty balances, the second pays from a quantum that is far too large. */
  lemma HugeQuantum(t: Table)
    requires t.next == 0 && |t.faces| == 2 && t.faces[0].id == 1 && t.faces[1].id == 2
    requires t.faces[0].balance == 0.0 == t.faces[1].balance
    requires t.faces[0].ratio >= 1000.0 && t.faces[1].ratio >= 1.0
    ensures Proper(t) && Settles(t, DEFAULT_SIZE, 3)
    ensures var faces := Select(t, DEFAULT_SIZE, 3).table.faces;
      |faces| == 2 && faces[0].ratio == t.faces[0].ratio && faces[0].balance >= CREDIT_CAP + 16000.0
  {
    SmallDataSettles(t, DEFAULT_SIZE, 3);
    ScanFinds(t.faces, 0, DEFAULT_SIZE, 3, 2);
    SelectUnfolds(t, DEFAULT_SIZE, 3);
    var u := OnePass(t, DEFAULT_SIZE, 3).table;
    assert u == t.(next := 2);
    ScanFinds(TopUp(u.faces), 0, DEFAULT_SIZE, 3, 0);
    SelectUnfolds(u, DEFAULT_SIZE, 3);
  }

  lemma HugeRatio()
    ensures var t := TwoFaces(MAX_TARGET_RATE, 2);
      && t.next == 0 && |t.faces| == 2 && t.faces[0].id == 1 && t.faces[1].id == 2
      && t.faces[0].balance == 0.0 == t.faces[1].balance
      && t.faces[0].ratio >= 1000.0 && t.faces[1].ratio >= 1.0
      && !Within(t)
  {
    var t := TwoFaces(MAX_TARGET_RATE, 2);
    Mod32IsRemainder(MAX_TARGET_RATE + 2);
    TwoFacesAre(MAX_TARGET_RATE, 2);
    assert t.total == 1;
  }

  lemma SumOfTwo(faces: seq<Face>)
    requires |faces| == 2
    ensures SumRates(faces) == faces[0].rate + faces[1].rate
  {
    assert faces == [faces[0]] + [faces[1]];
    SumAppend([faces[0]], faces[1]);
    assert [faces[0]] == [] + [faces[0]];
    SumAppend([], faces[0]);
  }

  /** A rate of 2^32 - 1 and one of 2 add up to a total of 1: a ratio far above one, and a balance to match. */
  lemma OverflowBreaksBounds()
    ensures StoreRun(ScriptStores(None, Some(2)), Script(None, Some(2)))
    ensures !Within(AfterData(None, Some(2)).rrt["/p"])
    ensures var faces := AfterInterest(None, Some(2)).rrt["/p"].faces;
      |faces| == 2 && faces[0].ratio > 1.0 && faces[0].balance >= CREDIT_CAP + 16000.0
  {
    ScriptRuns(None, Some(2));
    ScriptAnswerable(None, Some(2));
    HugeRatio();
    HugeQuantum(TwoFaces(MAX_TARGET_RATE, 2));
  }
}

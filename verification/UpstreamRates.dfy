/**
 The rate that an Interest asks for upstream: when it is no more than all the
 downstream faces ask for, and a run in which it is more.
 */
module UpstreamRates {
  import opened Common
  import opened RateTable
  import opened DeficitRoundRobin
  import opened RateShares
  import opened RateStore

  // ----- The rate asked for upstream

  /** The rate written into an Interest that leaves through `face`. */
  ghost function DownstreamRate(u: Store, flow: FlowKey, face: FaceId): real
    requires flow in u.rrt && flow in u.art
  {
    Scaled(RatioByFace(u.rrt[flow], face), u.art[flow].total as real)
  }

  /** Some part of a whole; it is no more than the whole exactly if the ratio is at most one. */
  ghost function Scaled(ratio: real, whole: real): (part: real)
    ensures ratio >= 0.0 && whole > 0.0 ==> part >= 0.0 && (part <= whole <==> ratio <= 1.0)
    ensures whole == 0.0 ==> part == 0.0
  {
    PartOf(ratio, whole);
    ratio * whole
  }

  lemma PartOf(ratio: real, whole: real)
    ensures ratio >= 0.0 && whole > 0.0 ==> ratio * whole >= 0.0 && (ratio * whole <= whole <==> ratio <= 1.0)
    ensures whole == 0.0 ==> ratio * whole == 0.0
  {
    assert (1.0 - ratio) * whole == whole - ratio * whole;
    if ratio >= 0.0 && whole > 0.0 {
      assert ratio * whole >= 0.0;
      if ratio <= 1.0 {
        assert (1.0 - ratio) * whole >= 0.0;
      } else {
        assert (ratio - 1.0) * whole > 0.0;
      }
    }
  }

  lemma ShareOf(a: real, b: real)
    requires a >= 0.0 && b > 0.0
    ensures 0.0 <= a * 1.0 / b
    ensures a * 1.0 / b <= 1.0 <==> a <= b
  {
    var q := a / b;
    assert q * b == a;
    if q <= 1.0 {
      assert (1.0 - q) * b >= 0.0;
    } else {
      assert (q - 1.0) * b > 0.0;
    }
  }

  lemma RatioAtMostOne(t: Table, face: FaceId)
    ensures 0.0 <= RatioByFace(t, face)
    ensures RatioByFace(t, face) <= 1.0 <==> t.total == 0 || RecordedRate(t, face) <= t.total
  {
    if t.total == 0 && |t.faces| > 0 {
      ShareOf(1.0, |t.faces| as real);
    } else if Has(t, face) {
      ShareOf(t.faces[Position(t.faces, face)].rate as real, t.total as real);
    }
  }

  /** The rate asked for is no more than all the downstream faces ask for, exactly under a test on the two totals. */
  lemma DownstreamRateExactly(u: Store, flow: FlowKey, face: FaceId)
    requires flow in u.rrt && flow in u.art
    ensures 0.0 <= DownstreamRate(u, flow, face)
    ensures DownstreamRate(u, flow, face) <= u.art[flow].total as real <==>
      u.art[flow].total == 0 || u.rrt[flow].total == 0 || RecordedRate(u.rrt[flow], face) <= u.rrt[flow].total
  {
    RatioAtMostOne(u.rrt[flow], face);
  }

  lemma {:induction false} RateWithinSum(faces: seq<Face>, k: nat)
    requires k < |faces|
    ensures faces[k].rate <= SumRates(faces)
  {
    var n := |faces| - 1;
    if k < n {
      RateWithinSum(faces[..n], k);
    }
  }

  /** Without an overflow no rate on record is above the total. */
  lemma RecordedWithinTotal(t: Table, face: FaceId)
    requires Consistent(t) && !Overflows(t) && t.total != 0
    ensures RecordedRate(t, face) <= t.total
  {
    Mod32Small(SumRates(t.faces));
    if Has(t, face) {
      RateWithinSum(t.faces, Position(t.faces, face));
    }
  }

  /** A selection only moves balances, so the rates are those on record before it. */
  lemma SelectionRates(s: Store, e: StoreEvent, face: FaceId)
    requires e.Interest? && Answerable(s, e)
    ensures var t, v := Seed(Get(s.rrt, e.flow), e.nexthops), Selected(s, e).table;
      v.total == t.total && RecordedRate(v, face) == RecordedRate(t, face) && SumRates(v.faces) == SumRates(t.faces)
  {
    var t, v := Seed(Get(s.rrt, e.flow), e.nexthops), Selected(s, e).table;
    SelectedFace(Get(s.rrt, e.flow), e.ingress, e.nexthops, e.dsz);
    OnlyBalancesFaces(t, v, face);
    SamePosition(t.faces, v.faces, face);
    SumOfSameRates(t.faces, v.faces);
  }

  lemma {:induction false} SamePosition(a: seq<Face>, b: seq<Face>, id: FaceId)
    requires |a| == |b| && forall i :: 0 <= i < |a| ==> a[i].id == b[i].id
    ensures (exists i :: 0 <= i < |a| && a[i].id == id) <==> (exists i :: 0 <= i < |b| && b[i].id == id)
    ensures (exists i :: 0 <= i < |a| && a[i].id == id) ==> Position(a, id) == Position(b, id)
  {
    if i :| 0 <= i < |a| && a[i].id == id {
      assert b[i].id == id;
      if a[|a| - 1].id != id {
        assert a[..|a| - 1][i].id == id;
        SamePosition(a[..|a| - 1], b[..|b| - 1], id);
      }
    }
    if i :| 0 <= i < |b| && b[i].id == id {
      assert a[i].id == id;
    }
  }

  /**
   An Interest that has a face to go to asks for no more upstream than all the
   faces that ask for its flow, exactly if nothing is asked for, or the total of
   the recommended rates reads zero, or the rate on record for that face is not
   above that total; so it does whenever the total has not overflowed.
   */
  lemma UpstreamAsksNoMoreExactly(s: Store, e: StoreEvent, u: Store)
    requires StoreStep(s, e, u) && e.Interest? && Selected(s, e).face != 0
    ensures e.flow in u.rrt && e.flow in u.art && Has(u.rrt[e.flow], Selected(s, e).face)
    ensures var t, face := Seed(Get(s.rrt, e.flow), e.nexthops), Selected(s, e).face;
      DownstreamRate(u, e.flow, face) <= u.art[e.flow].total as real <==>
        u.art[e.flow].total == 0 || t.total == 0 || RecordedRate(t, face) <= t.total
    ensures Consistent(u.rrt[e.flow]) && !Overflows(u.rrt[e.flow]) ==>
      DownstreamRate(u, e.flow, Selected(s, e).face) <= u.art[e.flow].total as real
  {
    var face := Selected(s, e).face;
    SelectedFace(Get(s.rrt, e.flow), e.ingress, e.nexthops, e.dsz);
    SelectionRates(s, e, face);
    DownstreamRateExactly(u, e.flow, face);
    var v := u.rrt[e.flow];
    if Consistent(v) && !Overflows(v) && v.total != 0 {
      RecordedWithinTotal(v, face);
    }
  }

  // ----- Two Data and an Interest

  function OneFace(r1: Uint32): Table {
    AddOrUpdate(EMPTY, 1, r1)
  }

  function TwoFaces(r1: Uint32, r2: Uint32): Table {
    AddOrUpdate(OneFace(r1), 2, r2)
  }

  lemma OneFaceIs(r1: Uint32)
    ensures var t := OneFace(r1);
      && |t.faces| == 1 && t.faces[0].id == 1 && t.faces[0].rate == r1
      && t.faces[0].balance == 0.0 && t.faces[0].allocation == 0 && t.faces[0].received == 1
      && t.total == r1 && t.next == 0 && t.available == 0 && !Has(t, 2)
      && Consistent(t) && Fresh(t)
  {
    EmptyTable();
    UpdateConsistent(EMPTY, 1, r1);
    UpdateFresh(EMPTY, 1, r1);
    Mod32Small(r1);
  }

  lemma TwoFacesAre(r1: Uint32, r2: Uint32)
    ensures var t := TwoFaces(r1, r2);
      && t.total == Mod32(r1 + r2) && t.next == 0 && t.available == 0
      && t.faces == [Face(1, r1, CurrentRatio(r1, t.total, 2), 0.0, 0, 1),
                     Face(2, r2, CurrentRatio(r2, t.total, 2), 0.0, 0, 1)]
      && Consistent(t) && Fresh(t)
  {
    OneFaceIs(r1);
    UpdateConsistent(OneFace(r1), 2, r2);
    UpdateFresh(OneFace(r1), 2, r2);
  }

  /** Data from the faces 1 and 2, then an Interest from face 3 that asks for 1000. */
  function Script(r1: Option<Uint32>, r2: Option<Uint32>): seq<StoreEvent> {
    [Data("/p", 1, r1), Data("/p", 2, r2)] + [ASKING]
  }

  const ASKING := Interest("/p", 3, Some(1000), [], None)

  function AfterOne(r1: Option<Uint32>): Store {
    Store(map[], map["/p" := OneFace(TargetOf(r1))])
  }

  /** The store before the Interest. */
  function AfterData(r1: Option<Uint32>, r2: Option<Uint32>): Store {
    Store(map[], map["/p" := TwoFaces(TargetOf(r1), TargetOf(r2))])
  }

  lemma FirstData(r1: Option<Uint32>)
    ensures StoreStep(NEW_STORE, Data("/p", 1, r1), AfterOne(r1))
  {
  }

  lemma SecondData(r1: Option<Uint32>, r2: Option<Uint32>)
    ensures StoreStep(AfterOne(r1), Data("/p", 2, r2), AfterData(r1, r2))
  {
    assert Get(AfterOne(r1).rrt, "/p") == OneFace(TargetOf(r1));
    assert AfterOne(r1).rrt["/p" := TwoFaces(TargetOf(r1), TargetOf(r2))] == AfterData(r1, r2).rrt;
  }

  lemma ScriptAnswerable(r1: Option<Uint32>, r2: Option<Uint32>)
    ensures Answerable(AfterData(r1, r2), ASKING)
  {
    var t := TwoFaces(TargetOf(r1), TargetOf(r2));
    TwoFacesAre(TargetOf(r1), TargetOf(r2));
    forall i | 0 <= i < |t.faces| ensures t.faces[i].ratio >= 0.0 {
      if t.total >= 1 {
        ShareOf(t.faces[i].rate as real, t.total as real);
      }
    }
    SmallDataSettles(t, DEFAULT_SIZE, 3);
  }

  /** The store after the Interest. */
  ghost function AfterInterest(r1: Option<Uint32>, r2: Option<Uint32>): Store {
    ScriptAnswerable(r1, r2);
    Store(map["/p" := AddOrUpdate(EMPTY, 3, 1000)], map["/p" := Selected(AfterData(r1, r2), ASKING).table])
  }

  lemma AskedFor()
    ensures var t := AddOrUpdate(EMPTY, 3, 1000); t.total == 1000 && RateEntered(EMPTY, 3, 1000, t)
  {
    Mod32Small(1000);
  }

  lemma InterestSteps(s: Store, e: StoreEvent, u: Store)
    requires e.Interest? && e.downstreamRate.Some? && Answerable(s, e)
    requires s.art == map[] && s.rrt.Keys == {e.flow}
    requires u.art.Keys == {e.flow} && RateEntered(EMPTY, e.ingress, e.downstreamRate.value, u.art[e.flow])
    requires u.rrt == map[e.flow := Selected(s, e).table]
    ensures StoreStep(s, e, u)
  {
    assert s.rrt[e.flow := Selected(s, e).table] == u.rrt;
    assert s.art[e.flow := u.art[e.flow]] == u.art;
  }

  lemma ScriptInterest(r1: Option<Uint32>, r2: Option<Uint32>)
    ensures StoreStep(AfterData(r1, r2), ASKING, AfterInterest(r1, r2))
  {
    var s, u := AfterData(r1, r2), AfterInterest(r1, r2);
    ScriptAnswerable(r1, r2);
    AskedFor();
    InterestSteps(s, ASKING, u);
  }

  ghost function ScriptStores(r1: Option<Uint32>, r2: Option<Uint32>): seq<Store> {
    [NEW_STORE, AfterOne(r1), AfterData(r1, r2)] + [AfterInterest(r1, r2)]
  }

  lemma RunOfOne(r1: Option<Uint32>)
    ensures StoreRun([NEW_STORE, AfterOne(r1)], [Data("/p", 1, r1)])
  {
    RunStarts();
    FirstData(r1);
    RunOneMore([NEW_STORE], [], Data("/p", 1, r1), AfterOne(r1));
    assert [NEW_STORE] + [AfterOne(r1)] == [NEW_STORE, AfterOne(r1)];
    assert [] + [Data("/p", 1, r1)] == [Data("/p", 1, r1)];
  }

  lemma RunOfTwo(r1: Option<Uint32>, r2: Option<Uint32>)
    ensures StoreRun([NEW_STORE, AfterOne(r1), AfterData(r1, r2)], [Data("/p", 1, r1), Data("/p", 2, r2)])
  {
    RunOfOne(r1);
    SecondData(r1, r2);
    var stores, events := [NEW_STORE, AfterOne(r1)], [Data("/p", 1, r1)];
    RunOneMore(stores, events, Data("/p", 2, r2), AfterData(r1, r2));
    assert stores + [AfterData(r1, r2)] == [NEW_STORE, AfterOne(r1), AfterData(r1, r2)];
    assert events + [Data("/p", 2, r2)] == [Data("/p", 1, r1), Data("/p", 2, r2)];
  }

  /** The three events make a run. */
  lemma ScriptRuns(r1: Option<Uint32>, r2: Option<Uint32>)
    ensures StoreRun(ScriptStores(r1, r2), Script(r1, r2))
  {
    RunOfTwo(r1, r2);
    ScriptInterest(r1, r2);
    var stores, events := [NEW_STORE, AfterOne(r1), AfterData(r1, r2)], [Data("/p", 1, r1), Data("/p", 2, r2)];
    RunOneMore(stores, events, ASKING, AfterInterest(r1, r2));
  }

  /** Both rates are above a total that has overflowed. */
  predicate BothAbove(r1: Option<Uint32>, r2: Option<Uint32>) {
    var total := Mod32(TargetOf(r1) + TargetOf(r2));
    0 < total < TargetOf(r1) && total < TargetOf(r2)
  }

  lemma AboveOne(a: real, b: real)
    requires 0.0 < b < a
    ensures a * 1.0 / b > 1.0
  {
    ShareOf(a, b);
  }

  lemma BothAboveEligible(r1: Uint32, r2: Uint32)
    requires 0 < Mod32(r1 + r2) < r1
    ensures SomeEligible(TwoFaces(r1, r2), 3)
  {
    var t := TwoFaces(r1, r2);
    TwoFacesAre(r1, r2);
    AboveOne(r1 as real, t.total as real);
    assert !Idle(t.faces[0], 3);
  }

  lemma OneOfTwo(t: Table, face: FaceId)
    requires |t.faces| == 2 && t.faces[0].id == 1 && t.faces[1].id == 2
    ensures Has(t, face) ==> face in {1, 2}
  {
  }

  lemma BothAboveSelects(r1: Option<Uint32>, r2: Option<Uint32>)
    requires BothAbove(r1, r2)
    ensures Answerable(AfterData(r1, r2), ASKING)
    ensures Selected(AfterData(r1, r2), ASKING).face in {1, 2}
  {
    var t := TwoFaces(TargetOf(r1), TargetOf(r2));
    ScriptAnswerable(r1, r2);
    BothAboveEligible(TargetOf(r1), TargetOf(r2));
    TwoFacesAre(TargetOf(r1), TargetOf(r2));
    SelectResult(t, DEFAULT_SIZE, 3);
    OneOfTwo(t, Select(t, DEFAULT_SIZE, 3).face);
  }

  lemma RecordedAbove(r1: Option<Uint32>, r2: Option<Uint32>, face: FaceId)
    requires BothAbove(r1, r2) && face in {1, 2}
    ensures var t := TwoFaces(TargetOf(r1), TargetOf(r2)); 0 < t.total < RecordedRate(t, face)
  {
    var t := TwoFaces(TargetOf(r1), TargetOf(r2));
    TwoFacesAre(TargetOf(r1), TargetOf(r2));
    assert t.faces[face - 1].id == face;
    assert t.faces[Position(t.faces, face)].id == face;
  }

  lemma BothAboveAsksMore(r1: Option<Uint32>, r2: Option<Uint32>)
    requires BothAbove(r1, r2)
    ensures Answerable(AfterData(r1, r2), ASKING) && Selected(AfterData(r1, r2), ASKING).face != 0
    ensures AfterInterest(r1, r2).art["/p"].total == 1000
    ensures DownstreamRate(AfterInterest(r1, r2), "/p", Selected(AfterData(r1, r2), ASKING).face) > 1000.0
  {
    var s, u := AfterData(r1, r2), AfterInterest(r1, r2);
    BothAboveSelects(r1, r2);
    ScriptInterest(r1, r2);
    AskedFor();
    RecordedAbove(r1, r2, Selected(s, ASKING).face);
    UpstreamAsksNoMoreExactly(s, ASKING, u);
  }

  /**
   Data without a rate from two faces, then an Interest that asks for 1000: more
   than 1000 is asked for upstream.
   */
  lemma DataWithoutRatesAskMore()
    ensures StoreRun(ScriptStores(None, None), Script(None, None))
    ensures Answerable(AfterData(None, None), ASKING)
    ensures var u, face := AfterInterest(None, None), Selected(AfterData(None, None), ASKING).face;
      face != 0 && DownstreamRate(u, "/p", face) > 1000.0 && u.art["/p"].total == 1000
  {
    Mod32IsRemainder(2 * MAX_TARGET_RATE);
    ScriptRuns(None, None);
    BothAboveAsksMore(None, None);
  }
}

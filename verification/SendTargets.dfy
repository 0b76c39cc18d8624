/** The target rates that sent Data hands to the faces that ask for a flow, over runs of the store. */
module SendTargets {
  import opened Common
  import opened RateTable
  import opened DeficitRoundRobin
  import opened WaterFilling
  import opened RateShares
  import opened RateStore
  import opened UpstreamRates

  lemma SendTables(stores: seq<Store>, events: seq<StoreEvent>, n: nat)
    requires StoreRun(stores, events) && n < |events| && events[n].Send?
    ensures events[n].flow in stores[n].rrt && events[n].flow in stores[n + 1].art
    ensures Consistent(stores[n + 1].art[events[n].flow])
  {
    assert StoreStep(stores[n], events[n], stores[n + 1]);
    StoreInvariant(stores, events, n + 1);
  }

  /**
   When Data of a flow is sent after any run, the target rates of all its n >= 2
   faces, each told in its own Data, add up to more than the recommended total
   less n, and to at most that total exactly if the rates asked for have not
   overflowed, for any total that leaves a unit for each face.
   */
  lemma SendSplitsExactly(stores: seq<Store>, events: seq<StoreEvent>, n: nat)
    requires StoreRun(stores, events) && n < |events| && events[n].Send?
    ensures events[n].flow in stores[n].rrt && events[n].flow in stores[n + 1].art
    ensures var t, whole := stores[n + 1].art[events[n].flow], stores[n].rrt[events[n].flow].total;
      var sum := SumTargets(t, whole, |t.faces|);
      |t.faces| >= 2 ==>
        && sum > whole - |t.faces|
        && (!Overflows(t) ==> sum <= whole)
        && (whole >= |t.faces| ==> (sum <= whole <==> !Overflows(t)))
  {
    SendTables(stores, events, n);
    var t, whole := stores[n + 1].art[events[n].flow], stores[n].rrt[events[n].flow].total;
    if |t.faces| >= 2 {
      SplitConservation(t, whole);
    }
  }

  // ----- When the split is renewed

  /**
   When Data is sent, the recommended total becomes the available rate, and is
   split max-min fairly among the faces that ask, if it is more than 6/5 or less
   than 4/5 of the available rate before; otherwise the old allocations stay.
   */
  lemma SendRenewsExactly(stores: seq<Store>, events: seq<StoreEvent>, n: nat)
    requires StoreRun(stores, events) && n < |events| && events[n].Send?
    ensures events[n].flow in stores[n].rrt && events[n].flow in stores[n + 1].art
    ensures var t, u := Get(stores[n].art, events[n].flow), stores[n + 1].art[events[n].flow];
      var whole := stores[n].rrt[events[n].flow].total;
      && u.available == whole
      && if 5 * whole > 6 * t.available || 5 * whole < 4 * t.available then
           OnlyAllocations(t.(available := whole), u)
           && if whole == 0 || t.faces == [] then u == t.(available := whole) else MaxMinSplit(u.faces, whole)
         else u == t.(available := whole)
  {
    SendTables(stores, events, n);
    assert StoreStep(stores[n], events[n], stores[n + 1]);
  }

  /**
   When an Interest carries a rate, the split is renewed, for the available rate
   there is, exactly if the face has not asked before; otherwise all allocations
   stay, whatever the new rate.
   */
  lemma InterestRenewsExactly(stores: seq<Store>, events: seq<StoreEvent>, n: nat)
    requires StoreRun(stores, events) && n < |events| && events[n].Interest? && events[n].downstreamRate.Some?
    ensures events[n].flow in stores[n + 1].art
    ensures var t, u := Get(stores[n].art, events[n].flow), stores[n + 1].art[events[n].flow];
      && u.available == t.available
      && |u.faces| == |t.faces| + (if Has(t, events[n].ingress) then 0 else 1)
      && if Has(t, events[n].ingress) || t.available == 0 then
           forall i :: 0 <= i < |u.faces| ==>
             u.faces[i].allocation == if i < |t.faces| then t.faces[i].allocation else 0
         else MaxMinSplit(u.faces, t.available)
  {
    assert StoreStep(stores[n], events[n], stores[n + 1]);
  }

  // ----- What each face is told

  /** `part` out of `of`, of the whole, rounded down. */
  ghost function Portion(part: nat, of: nat, whole: nat): nat
    requires of > 0
  {
    part * whole / of
  }

  lemma NotBelow(x: real, q: int, d: real)
    requires d > 0.0 && x * d >= q as real * d
    ensures x >= q as real
  {
    assert x < q as real ==> (q as real - x) * d > 0.0;
  }

  lemma Below(x: real, q: int, d: real)
    requires d > 0.0 && x * d < q as real * d
    ensures x < q as real
  {
    assert x >= q as real ==> (x - q as real) * d >= 0.0;
  }

  lemma ProductAsReal(a: int, b: int)
    ensures (a * b) as real == a as real * b as real
  {
  }

  lemma FloorIsQuotient(x: real, n: nat, d: nat)
    requires d > 0 && x * d as real == n as real
    ensures x.Floor == n / d
  {
    var q := n / d;
    assert n == q * d + n % d;
    ProductAsReal(q, d);
    ProductAsReal(q + 1, d);
    NotBelow(x, q, d as real);
    Below(x, q + 1, d as real);
  }

  /** What is left of a ratio of the whole when the fraction is dropped. */
  lemma FloorOfRatio(part: nat, of: nat, whole: nat, ratio: real)
    requires of > 0 && ratio == part as real * 1.0 / of as real
    ensures (ratio * whole as real).Floor == Portion(part, of, whole)
  {
    var p, o, w := part as real, of as real, whole as real;
    assert ratio * o == p;
    assert ratio * w * o == ratio * o * w;
    ProductAsReal(part, whole);
    FloorIsQuotient(ratio * w, part * whole, of);
  }

  /**
   A lone asker is told the whole recommended total.  Among several, each is told
   the whole part of its share of it; all shares are equal when nothing is asked
   for, and a face that does not ask is told a hundredth.
   */
  ghost predicate ToldRightly(t: Table, egress: FaceId, whole: Uint32, target: int) {
    if |t.faces| <= 1 then target == whole
    else if t.total == 0 then target == Portion(1, |t.faces|, whole)
    else if Has(t, egress) then
      exists i :: 0 <= i < |t.faces| && t.faces[i].id == egress && target == Portion(t.faces[i].rate, t.total, whole)
    else target == Portion(1, 100, whole)
  }

  lemma ListedTarget(t: Table, egress: FaceId, whole: Uint32) returns (i: nat)
    requires |t.faces| >= 2 && t.total != 0 && Has(t, egress)
    ensures i < |t.faces| && t.faces[i].id == egress
    ensures TargetRate(t, egress, whole) == Portion(t.faces[i].rate, t.total, whole)
  {
    i := Position(t.faces, egress);
    FloorOfRatio(t.faces[i].rate, t.total, whole, RatioByFace(t, egress));
  }

  lemma EqualTarget(t: Table, egress: FaceId, whole: Uint32)
    requires |t.faces| >= 2 && t.total == 0
    ensures TargetRate(t, egress, whole) == Portion(1, |t.faces|, whole)
  {
    FloorOfRatio(1, |t.faces|, whole, RatioByFace(t, egress));
  }

  lemma StrangerTarget(t: Table, egress: FaceId, whole: Uint32)
    requires |t.faces| >= 2 && t.total != 0 && !Has(t, egress)
    ensures TargetRate(t, egress, whole) == Portion(1, 100, whole)
  {
    FloorOfRatio(1, 100, whole, RatioByFace(t, egress));
  }

  lemma TargetIsRight(t: Table, egress: FaceId, whole: Uint32)
    ensures ToldRightly(t, egress, whole, TargetRate(t, egress, whole))
  {
    if |t.faces| >= 2 {
      if t.total == 0 {
        EqualTarget(t, egress, whole);
      } else if Has(t, egress) {
        var i := ListedTarget(t, egress, whole);
      } else {
        StrangerTarget(t, egress, whole);
      }
    }
  }

  /** The target rate written into the Data that is sent at step `n`. */
  ghost function SentTarget(stores: seq<Store>, events: seq<StoreEvent>, n: nat): int
    requires n < |events| < |stores| && events[n].Send?
    requires events[n].flow in stores[n].rrt && events[n].flow in stores[n + 1].art
  {
    TargetRate(stores[n + 1].art[events[n].flow], events[n].egress, stores[n].rrt[events[n].flow].total)
  }

  /** In every run every Data that is sent carries the right target rate for the face it goes to. */
  lemma SendTargetsExactly(stores: seq<Store>, events: seq<StoreEvent>, n: nat)
    requires StoreRun(stores, events) && n < |events| && events[n].Send?
    ensures events[n].flow in stores[n].rrt && events[n].flow in stores[n + 1].art
    ensures ToldRightly(stores[n + 1].art[events[n].flow], events[n].egress, stores[n].rrt[events[n].flow].total,
                        SentTarget(stores, events, n))
  {
    SendTables(stores, events, n);
    TargetIsRight(stores[n + 1].art[events[n].flow], events[n].egress, stores[n].rrt[events[n].flow].total);
  }

  // ----- A run in which more is handed out than there is

  /** An Interest that asks for the greatest rate, with one next hop. */
  function Asking(ingress: FaceId): StoreEvent {
    Interest("/p", ingress, Some(MAX_TARGET_RATE), [3], None)
  }

  /** The recommended rates after it: the next hop with the default rate. */
  function Recommended(): Table {
    AddOrUpdate(EMPTY, 3, DEFAULT_RATE)
  }

  const ASKED_ONCE := Store(map["/p" := OneFace(MAX_TARGET_RATE)], map["/p" := Recommended()])

  const ASKED_TWICE :=
    Store(map["/p" := TwoFaces(MAX_TARGET_RATE, MAX_TARGET_RATE)], map["/p" := Recommended()])

  lemma RecommendedIs()
    ensures |Recommended().faces| == 1 && Recommended().faces[0].id == 3 && Recommended().total == DEFAULT_RATE
    ensures Seed(EMPTY, [3]) == Recommended() == Seed(Recommended(), [3])
  {
    assert [3][..0] == [];
    Mod32Small(DEFAULT_RATE);
  }

  /** With one face to choose, the selection leaves the table as it is. */
  lemma AskingSelects(s: Store, ingress: FaceId)
    requires ingress != 3 && Get(s.rrt, "/p") in {EMPTY, Recommended()}
    ensures Answerable(s, Asking(ingress)) && Selected(s, Asking(ingress)).table == Recommended()
  {
    RecommendedIs();
  }

  lemma FirstAsking()
    ensures StoreStep(NEW_STORE, Asking(1), ASKED_ONCE)
  {
    AskingSelects(NEW_STORE, 1);
    OneFaceIs(MAX_TARGET_RATE);
    assert NEW_STORE.rrt["/p" := Recommended()] == ASKED_ONCE.rrt;
    assert NEW_STORE.art["/p" := OneFace(MAX_TARGET_RATE)] == ASKED_ONCE.art;
  }

  lemma SecondAsking()
    ensures StoreStep(ASKED_ONCE, Asking(2), ASKED_TWICE)
  {
    AskingSelects(ASKED_ONCE, 2);
    OneFaceIs(MAX_TARGET_RATE);
    TwoFacesAre(MAX_TARGET_RATE, MAX_TARGET_RATE);
    assert ASKED_ONCE.rrt["/p" := Recommended()] == ASKED_TWICE.rrt;
    assert ASKED_ONCE.art["/p" := TwoFaces(MAX_TARGET_RATE, MAX_TARGET_RATE)] == ASKED_TWICE.art;
  }

  /** The available rates after sending: the default rate, split among the two. */
  function SplitTable(): Table {
    var t := TwoFaces(MAX_TARGET_RATE, MAX_TARGET_RATE);
    t.(available := DEFAULT_RATE, faces := WaterFill(t.faces, DEFAULT_RATE))
  }

  lemma SplitTableIs()
    ensures AvailableUpdated(TwoFaces(MAX_TARGET_RATE, MAX_TARGET_RATE), DEFAULT_RATE, SplitTable())
    ensures |SplitTable().faces| == 2 && Overflows(SplitTable()) && Consistent(SplitTable())
  {
    var t, u := TwoFaces(MAX_TARGET_RATE, MAX_TARGET_RATE), SplitTable();
    TwoFacesAre(MAX_TARGET_RATE, MAX_TARGET_RATE);
    FillKeepsFaces(t.faces, DEFAULT_RATE);
    WaterFillIsMaxMin(t.faces, DEFAULT_RATE);
    TwoGreatestRates(t);
    SumOfSameRates(t.faces, u.faces);
  }

  const SENT := Store(map["/p" := SplitTable()], map["/p" := Recommended()])

  lemma Sending()
    ensures StoreStep(ASKED_TWICE, Send("/p", 1), SENT)
  {
    RecommendedIs();
    SplitTableIs();
    assert ASKED_TWICE.art["/p" := SplitTable()] == SENT.art;
  }

  lemma AskedOnceRuns()
    ensures StoreRun([NEW_STORE] + [ASKED_ONCE], [] + [Asking(1)])
  {
    RunStarts();
    FirstAsking();
    RunOneMore([NEW_STORE], [], Asking(1), ASKED_ONCE);
  }

  lemma AskedTwiceRuns()
    ensures StoreRun([NEW_STORE] + [ASKED_ONCE] + [ASKED_TWICE], [] + [Asking(1)] + [Asking(2)])
  {
    AskedOnceRuns();
    SecondAsking();
    RunOneMore([NEW_STORE] + [ASKED_ONCE], [] + [Asking(1)], Asking(2), ASKED_TWICE);
  }

  /** Two Interests that ask for the greatest rate: the Data sent to the two faces hands out more than there is. */
  lemma TwoInterestsOverflow()
    ensures StoreRun([NEW_STORE] + [ASKED_ONCE] + [ASKED_TWICE] + [SENT],
                     [] + [Asking(1)] + [Asking(2)] + [Send("/p", 1)])
    ensures |SENT.art["/p"].faces| == 2
    ensures SumTargets(SENT.art["/p"], ASKED_TWICE.rrt["/p"].total, 2) > ASKED_TWICE.rrt["/p"].total
  {
    AskedTwiceRuns();
    Sending();
    RunOneMore([NEW_STORE] + [ASKED_ONCE] + [ASKED_TWICE], [] + [Asking(1)] + [Asking(2)], Send("/p", 1), SENT);
    RecommendedIs();
    SplitTableIs();
    SplitConservation(SplitTable(), DEFAULT_RATE);
  }
}

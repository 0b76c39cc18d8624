/**
 Which Interests are given a face, in terms of the rates on record: a face
 counts as soon as its share of the total is one part in 100000.
 */
module FirstInterests {
  import opened Common
  import opened RateTable
  import opened DeficitRoundRobin
  import opened RateStore
  import opened StoreTables

  // ----- Tables

  /** The face has a share that the selector waits for. */
  ghost predicate HasShare(f: Face, except: FaceId) {
    f.id != except && f.ratio >= 0.00001
  }

  /** The face can pay for the data at once. */
  ghost predicate Pays(f: Face, size: nat, except: FaceId) {
    f.id != except && f.balance > size as real
  }

  /** The face can pay for the data after one more top-up. */
  ghost predicate PaysNext(f: Face, size: nat, except: FaceId) {
    f.id != except && (if f.balance < 100000.0 then f.balance + f.ratio * 16000.0 else f.balance) > size as real
  }

  /**
   A face is returned exactly if some face other than the excluded one has a
   share of 0.00001, or can pay in what is left of the sweep, or can pay after
   the top-up, which comes only if the sweep did not begin at the first face.
   */
  lemma ServesExactly(t: Table, size: nat, except: FaceId)
    requires Proper(t) && Settles(t, size, except)
    ensures Select(t, size, except).face != 0 <==>
      || (exists i :: 0 <= i < |t.faces| && HasShare(t.faces[i], except))
      || (exists i :: t.next <= i < |t.faces| && Pays(t.faces[i], size, except))
      || (t.next > 0 && exists i :: 0 <= i < |t.faces| && PaysNext(t.faces[i], size, except))
  {
    ChoosesExactly(t, size, except);
    assert forall i :: 0 <= i < |t.faces| ==> (HasShare(t.faces[i], except) <==> !Idle(t.faces[i], except));
    assert forall i :: 0 <= i < |t.faces| ==> (Pays(t.faces[i], size, except) <==> Affords(t.faces[i], size, except));
    assert forall i :: 0 <= i < |t.faces| ==>
      (PaysNext(t.faces[i], size, except) <==> Affords(TopUp(t.faces)[i], size, except));
  }

  /** A share of one part in 100000, without a division. */
  lemma ShareExactly(rate: Uint32, total: Uint32)
    requires total > 0
    ensures rate as real * 1.0 / total as real >= 0.00001 <==> rate * 100000 >= total
  {
    var q := rate as real / total as real;
    assert q * total as real == rate as real;
    if q >= 0.00001 {
      assert (q - 0.00001) * total as real >= 0.0;
    } else {
      assert (0.00001 - q) * total as real > 0.0;
    }
  }

  /** The rate on record is at least one part in 100000 of a total that does not read zero. */
  ghost predicate RateCounts(t: Table, i: nat, except: FaceId)
    requires i < |t.faces|
  {
    t.faces[i].id != except && t.total > 0 && t.faces[i].rate * 100000 >= t.total
  }

  lemma RateCountsExactly(t: Table, i: nat, except: FaceId)
    requires Fresh(t) && |t.faces| >= 2 && i < |t.faces|
    ensures HasShare(t.faces[i], except) <==> RateCounts(t, i, except)
  {
    if t.total > 0 {
      ShareExactly(t.faces[i].rate, t.total);
    }
  }

  // ----- Interests over runs of the store

  lemma SeededFresh(stores: seq<Store>, events: seq<StoreEvent>, e: StoreEvent)
    requires StoreRun(stores, events) && e.Interest?
    ensures Fresh(Seed(Get(stores[|events|].rrt, e.flow), e.nexthops))
  {
    StoreInvariant(stores, events, |events|);
    EmptyTable();
    AddAllKeeps(Get(stores[|events|].rrt, e.flow), e.nexthops);
  }

  /**
   After any run, an Interest that has several faces to choose from is given one
   exactly if a face other than the one it came from has a rate on record of at
   least one part in 100000 of the total, or can pay at once, or after a top-up.
   */
  lemma InterestServedExactly(stores: seq<Store>, events: seq<StoreEvent>, e: StoreEvent)
    requires StoreRun(stores, events) && e.Interest? && Answerable(stores[|events|], e)
    requires |Seed(Get(stores[|events|].rrt, e.flow), e.nexthops).faces| >= 2
    ensures var t := Seed(Get(stores[|events|].rrt, e.flow), e.nexthops);
      var size := if e.dsz.Some? then e.dsz.value else 9000;
      Selected(stores[|events|], e).face != 0 <==>
        || (exists i :: 0 <= i < |t.faces| && RateCounts(t, i, e.ingress))
        || (exists i :: t.next <= i < |t.faces| && Pays(t.faces[i], size, e.ingress))
        || (t.next > 0 && exists i :: 0 <= i < |t.faces| && PaysNext(t.faces[i], size, e.ingress))
  {
    var t := Seed(Get(stores[|events|].rrt, e.flow), e.nexthops);
    SeededFresh(stores, events, e);
    ServesExactly(t, DataSize(e.dsz), e.ingress);
    forall i | 0 <= i < |t.faces| ensures HasShare(t.faces[i], e.ingress) <==> RateCounts(t, i, e.ingress) {
      RateCountsExactly(t, i, e.ingress);
    }
  }

  // ----- The first Interest of a flow

  lemma RunStepFaceless(stores: seq<Store>, events: seq<StoreEvent>, flow: FlowKey, n: nat)
    requires StoreRun(stores, events) && n < |events|
    requires Get(stores[n].rrt, flow).faces == [] ==> Get(stores[n].rrt, flow) == EMPTY
    ensures Get(stores[n + 1].rrt, flow).faces == [] ==> Get(stores[n + 1].rrt, flow) == EMPTY
  {
    var s, e, u := stores[n], events[n], stores[n + 1];
    assert StoreStep(s, e, u);
    if e.Interest? && e.flow == flow {
      var t := Get(s.rrt, flow);
      SelectedFace(t, e.ingress, e.nexthops, e.dsz);
      if Selected(s, e).table.faces == [] && e.nexthops != [] {
        AddAllFaces(t, e.nexthops, e.nexthops[0]);
      }
    }
  }

  /** A table without faces is as new. */
  lemma {:induction false} FacelessIsNew(stores: seq<Store>, events: seq<StoreEvent>, flow: FlowKey, n: nat)
    requires StoreRun(stores, events) && n <= |events|
    ensures Get(stores[n].rrt, flow).faces == [] ==> Get(stores[n].rrt, flow) == EMPTY
  {
    if n > 0 {
      FacelessIsNew(stores, events, flow, n - 1);
      RunStepFaceless(stores, events, flow, n - 1);
    }
  }

  /** Every next hop once, with a rate of 2000000 and no credit. */
  ghost predicate JustSeeded(t: Table, nexthops: seq<FaceId>) {
    && t.next == 0
    && (forall i :: 0 <= i < |t.faces| ==> t.faces[i].rate == 2000000 && t.faces[i].balance == 0.0)
    && |t.faces| == |ToSet(nexthops)|
    && forall id :: Has(t, id) <==> id in nexthops
  }

  lemma SeedOneMore(t: Table, nexthops: seq<FaceId>, id: FaceId)
    requires JustSeeded(t, nexthops)
    ensures JustSeeded(AddOrUpdate(t, id, 2000000), nexthops + [id])
  {
    var u := AddOrUpdate(t, id, 2000000);
    assert ToSet(nexthops + [id]) == ToSet(nexthops) + {id};
    assert |u.faces| == |t.faces| + if Has(t, id) then 0 else 1;
    assert forall i :: 0 <= i < |u.faces| ==> u.faces[i].rate == 2000000 && u.faces[i].balance == 0.0;
    forall x ensures Has(u, x) <==> x in nexthops + [id] {
      UpdateKeepsFaces(t, id, 2000000, x);
    }
  }

  lemma {:induction false} SeedsAll(nexthops: seq<FaceId>)
    ensures JustSeeded(AddAll(EMPTY, nexthops), nexthops)
  {
    if nexthops != [] {
      var n := |nexthops| - 1;
      SeedsAll(nexthops[..n]);
      SeedOneMore(AddAll(EMPTY, nexthops[..n]), nexthops[..n], nexthops[n]);
      assert nexthops == nexthops[..n] + [nexthops[n]];
    }
  }

  lemma {:induction false} SumOfDefaults(faces: seq<Face>)
    requires forall i :: 0 <= i < |faces| ==> faces[i].rate == 2000000
    ensures SumRates(faces) == 2000000 * |faces|
  {
    if faces != [] {
      SumOfDefaults(faces[..|faces| - 1]);
    }
  }

  lemma AtLeastOneTimes(d: int, j: int)
    requires d > 0
    ensures j >= 1 ==> d * j >= d
    ensures j <= -1 ==> d * j <= -d
  {
  }

  lemma MultipleLeavesNothing(n: int, d: int, k: int)
    requires d > 0 && n == d * k
    ensures n % d == 0
  {
    var j := k - n / d;
    assert n % d == d * j;
    AtLeastOneTimes(d, j);
  }

  /** An inverse of 15625 modulo 2^25. */
  lemma OddFactor(m: int, k: int)
    requires 2000000 * m == 0x1_0000_0000 * k
    ensures m == 0x200_0000 * (12738873 * k - 5932 * m)
  {
  }

  /** 2000000 is 2^7 times an odd number, so a sum of m default rates wraps to zero at the multiples of 2^25. */
  lemma WrapsToZero(m: nat)
    ensures Mod32(2000000 * m) == 0 <==> m % 0x200_0000 == 0
  {
    Mod32IsRemainder(2000000 * m);
    if Mod32(2000000 * m) == 0 {
      OddFactor(m, 2000000 * m / WRAP);
      MultipleLeavesNothing(m, 0x200_0000, 12738873 * (2000000 * m / WRAP) - 5932 * m);
    }
    if m % 0x200_0000 == 0 {
      MultipleLeavesNothing(2000000 * m, WRAP, 15625 * (m / 0x200_0000));
    }
  }

  lemma SeededTotal(t: Table, nexthops: seq<FaceId>)
    requires Consistent(t) && JustSeeded(t, nexthops)
    ensures t.total == 0 <==> |ToSet(nexthops)| % 0x200_0000 == 0
  {
    SumOfDefaults(t.faces);
    WrapsToZero(|t.faces|);
  }

  /** With one next hop it is taken, unless the Interest came from it. */
  lemma OneHop(t: Table, nexthops: seq<FaceId>, ingress: FaceId)
    requires JustSeeded(t, nexthops) && |t.faces| == 1
    ensures (exists hop :: hop in nexthops && hop != ingress && hop != 0)
        <==> t.faces[0].id != ingress && t.faces[0].id != 0
    ensures |ToSet(nexthops)| % 0x200_0000 != 0
  {
    assert forall id :: Has(t, id) <==> id == t.faces[0].id;
  }

  lemma SeveralHops(t: Table, nexthops: seq<FaceId>, ingress: FaceId)
    requires Proper(t) && Consistent(t) && JustSeeded(t, nexthops) && |t.faces| >= 2
    ensures (exists i :: 0 <= i < |t.faces| && RateCounts(t, i, ingress)) <==>
      (exists hop :: hop in nexthops && hop != ingress && hop != 0) && |ToSet(nexthops)| % 0x200_0000 != 0
  {
    SeededTotal(t, nexthops);
    if i :| 0 <= i < |t.faces| && RateCounts(t, i, ingress) {
      assert Has(t, t.faces[i].id);
    }
    if hop :| hop in nexthops && hop != ingress && hop != 0 {
      assert Has(t, hop);
      var i := Position(t.faces, hop);
      assert t.total > 0 ==> RateCounts(t, i, ingress);
    }
  }

  lemma NobodyPays(t: Table, nexthops: seq<FaceId>, size: nat, except: FaceId)
    requires JustSeeded(t, nexthops)
    ensures !exists i :: t.next <= i < |t.faces| && Pays(t.faces[i], size, except)
  {
  }

  /**
   After any run, an Interest that fills the table of its flow is given a face
   exactly if some next hop is not the face it came from, unless the number of
   different next hops is a multiple of 2^25, for which the total reads zero.
   */
  lemma FirstInterestServedExactly(stores: seq<Store>, events: seq<StoreEvent>, e: StoreEvent)
    requires StoreRun(stores, events) && e.Interest? && Answerable(stores[|events|], e)
    requires Get(stores[|events|].rrt, e.flow).faces == []
    ensures Selected(stores[|events|], e).face != 0 <==>
      (exists hop :: hop in e.nexthops && hop != e.ingress && hop != 0) && |ToSet(e.nexthops)| % 0x200_0000 != 0
  {
    FacelessIsNew(stores, events, e.flow, |events|);
    var t := Seed(EMPTY, e.nexthops);
    SeedsAll(e.nexthops);
    EmptyTable();
    AddAllKeeps(EMPTY, e.nexthops);
    if t.faces == [] {
      assert forall hop :: hop in e.nexthops ==> Has(t, hop);
    } else if |t.faces| == 1 {
      OneHop(t, e.nexthops, e.ingress);
    } else {
      InterestServedExactly(stores, events, e);
      SeveralHops(t, e.nexthops, e.ingress);
      NobodyPays(t, e.nexthops, if e.dsz.Some? then e.dsz.value else 9000, e.ingress);
    }
  }

  /**
   So with fewer than 2^25 next hops, none of them called 0, and data below the
   credit cap, the first Interest of a flow is given one of them as soon as there
   is one that it did not come from.
   */
  lemma FirstInterestServed(stores: seq<Store>, events: seq<StoreEvent>, e: StoreEvent)
    requires StoreRun(stores, events) && e.Interest? && Get(stores[|events|].rrt, e.flow).faces == []
    requires 0 !in e.nexthops && |e.nexthops| < 0x200_0000
    requires e.dsz.Some? ==> e.dsz.value < 100000
    ensures Answerable(stores[|events|], e)
    ensures Selected(stores[|events|], e).face != 0 <==> exists hop :: hop in e.nexthops && hop != e.ingress
    ensures Selected(stores[|events|], e).face != 0 ==>
      Selected(stores[|events|], e).face in e.nexthops && Selected(stores[|events|], e).face != e.ingress
  {
    var s := stores[|events|];
    FacelessIsNew(stores, events, e.flow, |events|);
    SeededFresh(stores, events, e);
    AddAllFaces(EMPTY, e.nexthops, 0);
    FreshIsProper(Seed(EMPTY, e.nexthops));
    SmallDataSettles(Seed(EMPTY, e.nexthops), DataSize(e.dsz), e.ingress);
    FirstInterestServedExactly(stores, events, e);
    if e.nexthops != [] {
      FewDifferent(e.nexthops);
    }
    SelectedFace(EMPTY, e.ingress, e.nexthops, e.dsz);
    SelectionFaces(s, e, Selected(s, e).face);
  }

  lemma FewDifferent(nexthops: seq<FaceId>)
    requires nexthops != [] && |nexthops| < 0x200_0000
    ensures |ToSet(nexthops)| % 0x200_0000 != 0
  {
    CoverBound(nexthops, ToSet(nexthops));
    assert nexthops[0] in ToSet(nexthops);
  }

  // ----- Three next hops

  /** The state of a table whose three faces have the same balance, before a sweep. */
  ghost predicate ThreeEqual(t: Table, balance: real) {
    && |t.faces| == 3
    && t.faces[0].id == 1 && t.faces[1].id == 2 && t.faces[2].id == 3
    && forall i :: 0 <= i < 3 ==> t.faces[i].ratio == 1.0 / 3.0 && t.faces[i].balance == balance
  }

  lemma NewFaceLast(t: Table, id: FaceId)
    requires !Has(t, id)
    ensures var u := AddOrUpdate(t, id, 2000000);
      && |u.faces| == |t.faces| + 1 && u.faces[|t.faces|].id == id
      && forall i :: 0 <= i < |t.faces| ==> u.faces[i].id == t.faces[i].id
  {
  }

  lemma ThreeIds()
    ensures var t := AddAll(EMPTY, [1, 2, 3]);
      |t.faces| == 3 && t.faces[0].id == 1 && t.faces[1].id == 2 && t.faces[2].id == 3
  {
    assert [1, 2, 3][..2] == [1, 2] && [1, 2][..1] == [1] && [1][..0] == [];
    NewFaceLast(EMPTY, 1);
    NewFaceLast(AddAll(EMPTY, [1]), 2);
    NewFaceLast(AddAll(EMPTY, [1, 2]), 3);
  }

  lemma ThreeShares(t: Table)
    requires Consistent(t) && Fresh(t) && |t.faces| == 3
    requires forall i :: 0 <= i < 3 ==> t.faces[i].rate == 2000000
    ensures forall i :: 0 <= i < 3 ==> t.faces[i].ratio == 1.0 / 3.0
  {
    SumOfDefaults(t.faces);
    Mod32Small(6000000);
    assert 2000000.0 * 1.0 / 6000000.0 == 1.0 / 3.0;
  }

  lemma ThreeSeeded()
    ensures var t := Seed(EMPTY, [1, 2, 3]); ThreeEqual(t, 0.0) && t.next == 0 && Proper(t)
  {
    SeedsAll([1, 2, 3]);
    EmptyTable();
    AddAllKeeps(EMPTY, [1, 2, 3]);
    ThreeIds();
    ThreeShares(AddAll(EMPTY, [1, 2, 3]));
  }

  /** A pass over three equal faces that cannot pay serves nobody and goes on. */
  lemma NobodyServed(t: Table, balance: real)
    requires ThreeEqual(t, balance) && Proper(t) && Settles(t, 9000, 4)
    requires if t.next >= 3 then balance + 16000.0 / 3.0 <= 9000.0 else t.next == 0 && balance <= 9000.0
    requires balance < 100000.0
    ensures var u := OnePass(t, 9000, 4).table;
      && ThreeEqual(u, if t.next >= 3 then balance + 16000.0 / 3.0 else balance) && u.next == 3
      && Proper(u) && Settles(u, 9000, 4)
      && Select(t, 9000, 4).face == Select(u, 9000, 4).face
      && Select(t, 9000, 4).table == Select(u, 9000, 4).table
  {
    var s := StartSweep(t);
    ScanFinds(s.faces, 0, 9000, 4, 3);
    SelectUnfolds(t, 9000, 4);
  }

  /** The next pass serves the first of three equal faces. */
  lemma FirstServed(t: Table, balance: real)
    requires ThreeEqual(t, balance) && t.next == 3 && Proper(t) && Settles(t, 9000, 4)
    requires balance < 100000.0 && balance + 16000.0 / 3.0 > 9000.0
    ensures var r := Select(t, 9000, 4);
      r.face == 1 && |r.table.faces| == 3 && r.table.faces[0].balance == balance + 16000.0 / 3.0 - 9000.0
  {
    ScanFinds(StartSweep(t).faces, 0, 9000, 4, 0);
    SelectUnfolds(t, 9000, 4);
  }

  lemma ThreeEqualServed(t: Table)
    requires ThreeEqual(t, 0.0) && t.next == 0 && Proper(t)
    ensures Settles(t, 9000, 4)
    ensures var r := Select(t, 9000, 4);
      r.face == 1 && |r.table.faces| == 3 && r.table.faces[0].balance == 5000.0 / 3.0
  {
    SmallDataSettles(t, 9000, 4);
    NobodyServed(t, 0.0);
    var u := OnePass(t, 9000, 4).table;
    NobodyServed(u, 0.0);
    FirstServed(OnePass(u, 9000, 4).table, 16000.0 / 3.0);
  }

  /**
   The first Interest of a flow with the next hops 1, 2 and 3, from face 4, is
   given face 1 after two top-ups of 16000/3 units, 9000 of which it pays.
   */
  lemma ThreeNextHops()
    ensures Selectable(EMPTY, 4, [1, 2, 3], None)
    ensures var r := SelectByRatio(EMPTY, 4, [1, 2, 3], None);
      r.face == 1 && |r.table.faces| == 3 && r.table.faces[0].balance == 5000.0 / 3.0
  {
    ThreeSeeded();
    ThreeEqualServed(Seed(EMPTY, [1, 2, 3]));
  }
}

/** A store takes every event that does not read a missing table: no run of events comes to a halt. */
module StoreProgress {
  import opened Common
  import opened RateTable
  import opened DeficitRoundRobin
  import opened WaterFilling
  import opened RateStore

  // ----- Cleanings

  ghost function ErasedTable(t: Table): (u: Table)
    requires DistinctIds(t.faces)
    ensures Erased(t, u)
  {
    SurvivorsDistinct(t.faces);
    Table(Survivors(t.faces), Mod32(t.total - SilentRates(t.faces)), t.next, t.available)
  }

  ghost function ResetFaces(faces: seq<Face>, d: Uint32): (silent: seq<Face>)
    ensures |silent| == |faces|
    ensures forall i :: 0 <= i < |faces| ==> silent[i] == ResetFace(faces[i], d)
  {
    seq(|faces|, i requires 0 <= i < |faces| => ResetFace(faces[i], d))
  }

  ghost function ResetTable(t: Table, d: Uint32): (u: Table)
    ensures Reset(t, d, u)
  {
    var faces := ResetFaces(t.faces, d);
    var total := Mod32(t.total - SumRates(t.faces) + SumRates(faces));
    SumOfSameRates(faces, Refresh(faces, total));
    t.(faces := Refresh(faces, total), total := total)
  }

  // ----- Splits

  lemma SortedInsert(sorted: seq<Face>, f: Face) returns (longer: seq<Face>)
    requires SortedByRate(sorted)
    ensures SortedByRate(longer) && multiset(longer) == multiset(sorted) + multiset{f}
  {
    var k := |sorted|;
    while k > 0 && sorted[k - 1].rate > f.rate
      invariant 0 <= k <= |sorted|
      invariant forall j :: k <= j < |sorted| ==> sorted[j].rate > f.rate
    {
      k := k - 1;
    }
    longer := sorted[..k] + [f] + sorted[k..];
    InsertKeepsSorted(sorted, k, f);
    MultisetInserted(sorted, k, f);
  }

  lemma MultisetInserted(faces: seq<Face>, k: nat, f: Face)
    requires k <= |faces|
    ensures multiset(faces[..k] + [f] + faces[k..]) == multiset(faces) + multiset{f}
  {
    assert faces == faces[..k] + faces[k..];
  }

  lemma {:induction false} SortedFaces(faces: seq<Face>) returns (sorted: seq<Face>)
    ensures SortedByRate(sorted) && multiset(sorted) == multiset(faces)
  {
    if faces == [] {
      sorted := [];
    } else {
      var n := |faces| - 1;
      assert faces == faces[..n] + [faces[n]];
      var before := SortedFaces(faces[..n]);
      sorted := SortedInsert(before, faces[n]);
    }
  }

  /** The filled faces in the order of the table. */
  ghost function Rearranged(faces: seq<Face>, sorted: seq<Face>, filled: seq<Face>): (back: seq<Face>)
    requires |sorted| == |filled| && forall i :: 0 <= i < |faces| ==> faces[i] in sorted
    ensures |back| == |faces|
    ensures forall i :: 0 <= i < |faces| ==> back[i] == filled[IndexOf(sorted, faces[i])]
  {
    seq(|faces|, i requires 0 <= i < |faces| => filled[IndexOf(sorted, faces[i])])
  }

  lemma SortedMembers(faces: seq<Face>, sorted: seq<Face>)
    requires multiset(sorted) == multiset(faces) && DistinctIds(faces)
    ensures |sorted| == |faces| && Distinct(sorted)
    ensures forall f :: f in sorted <==> f in faces
  {
    MultisetMembers(sorted, faces);
    assert Distinct(faces);
    DistinctPermutation(faces, sorted);
  }

  lemma RearrangedIsPermutation(faces: seq<Face>, sorted: seq<Face>, filled: seq<Face>)
    requires multiset(sorted) == multiset(faces) && DistinctIds(faces) && |filled| == |sorted|
    requires forall i :: 0 <= i < |sorted| ==> filled[i].id == sorted[i].id
    requires forall i :: 0 <= i < |faces| ==> faces[i] in sorted
    ensures multiset(Rearranged(faces, sorted, filled)) == multiset(filled)
  {
    var back := Rearranged(faces, sorted, filled);
    SortedMembers(faces, sorted);
    forall i | 0 <= i < |back| ensures back[i].id == faces[i].id {
      assert sorted[IndexOf(sorted, faces[i])] == faces[i];
    }
    forall j | 0 <= j < |filled| ensures filled[j] in back {
      assert sorted[j] in faces;
      var i := IndexOf(faces, sorted[j]);
      assert IndexOf(sorted, faces[i]) == j;
      assert back[i] == filled[j];
    }
    FilledDistinct(faces, sorted, filled);
    DistinctMultisets(back, filled);
  }

  lemma FilledDistinct(faces: seq<Face>, sorted: seq<Face>, filled: seq<Face>)
    requires multiset(sorted) == multiset(faces) && DistinctIds(faces) && |filled| == |sorted|
    requires forall i :: 0 <= i < |sorted| ==> filled[i].id == sorted[i].id
    ensures Distinct(filled)
  {
    SortedMembers(faces, sorted);
    forall i, j | 0 <= i < j < |filled| ensures filled[i] != filled[j] {
      assert sorted[i] in faces && sorted[j] in faces;
    }
  }

  /** Every table can be split. */
  lemma SplitExists(t: Table) returns (u: Table)
    requires DistinctIds(t.faces)
    ensures SplitOf(t, u)
  {
    if t.available == 0 || t.faces == [] {
      u := t;
    } else {
      var sorted := SortedFaces(t.faces);
      SortedMembers(t.faces, sorted);
      var filled := WaterFill(sorted, t.available);
      FillKeepsFaces(sorted, t.available);
      WaterFillIsMaxMin(sorted, t.available);
      assert forall i :: 0 <= i < |t.faces| ==> t.faces[i] in sorted;
      u := t.(faces := Rearranged(t.faces, sorted, filled));
      RearrangedIsPermutation(t.faces, sorted, filled);
      MaxMinSplitPermutes(filled, u.faces, t.available);
    }
  }

  lemma EnteredExists(t: Table, ingress: FaceId, rate: Uint32) returns (u: Table)
    requires Consistent(t)
    ensures RateEntered(t, ingress, rate, u)
  {
    UpdateConsistent(t, ingress, rate);
    if Has(t, ingress) {
      u := AddOrUpdate(t, ingress, rate);
    } else {
      u := SplitExists(AddOrUpdate(t, ingress, rate));
    }
  }

  lemma AvailableExists(t: Table, rate: Uint32) returns (u: Table)
    requires DistinctIds(t.faces)
    ensures AvailableUpdated(t, rate, u)
  {
    u := t.(available := rate);
    var v := SplitExists(u);
    if !AvailableUpdated(t, rate, u) {
      u := v;
    }
  }

  // ----- Steps

  lemma InterestStep(s: Store, e: StoreEvent) returns (u: Store)
    requires e.Interest? && Answerable(s, e) && !Dereferences(s, e) && ArtInvariant(s.art)
    ensures StoreStep(s, e, u)
  {
    u := Store(s.art, s.rrt[e.flow := Selected(s, e).table]);
    if e.downstreamRate.Some? {
      EmptyTable();
      var t := EnteredExists(Get(s.art, e.flow), e.ingress, e.downstreamRate.value);
      u := u.(art := s.art[e.flow := t]);
    }
  }

  lemma SendStep(s: Store, e: StoreEvent) returns (u: Store)
    requires e.Send? && !Dereferences(s, e) && ArtInvariant(s.art)
    ensures StoreStep(s, e, u)
  {
    EmptyTable();
    var t := AvailableExists(Get(s.art, e.flow), s.rrt[e.flow].total);
    u := Store(s.art[e.flow := t], s.rrt);
  }

  lemma TimerStep(s: Store) returns (u: Store)
    requires ArtInvariant(s.art)
    ensures StoreStep(s, Timer, u)
  {
    u := Store(map k | k in s.art :: ErasedTable(s.art[k]), map k | k in s.rrt :: ResetTable(s.rrt[k], DEFAULT_RATE));
  }

  /**
   After any run the store takes every further event, unless it is an Interest for
   which the selector does not end, or reads a table that does not exist.
   */
  lemma RunGoesOn(stores: seq<Store>, events: seq<StoreEvent>, e: StoreEvent) returns (u: Store)
    requires StoreRun(stores, events)
    requires (e.Interest? ==> Answerable(stores[|events|], e)) && !Dereferences(stores[|events|], e)
    ensures StoreRun(stores + [u], events + [e])
  {
    var s := stores[|events|];
    StoreInvariant(stores, events, |events|);
    match e
    case Interest(_, _, _, _, _) => u := InterestStep(s, e);
    case Data(flow, ingress, rate) =>
      u := s.(rrt := s.rrt[flow := AddOrUpdate(Get(s.rrt, flow), ingress, TargetOf(rate))]);
    case Send(_, _) => u := SendStep(s, e);
    case Timer => u := TimerStep(s);
    RunOneMore(stores, events, e, u);
  }
}

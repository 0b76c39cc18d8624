/**
 The rate table of one flow as the program holds it: a hash index and a list
 that share their mutable entries, with a running 32-bit total.  Each method is
 proved against the value-level table of module RateTable.
 */
module RateCollections {
  import opened Common
  import opened RateTable
  import opened DeficitRoundRobin
  import opened WaterFilling
  import opened RateShares

  class RateItem {
    var rateValue: Uint32
    const id: FaceId
    var ratio: real
    var balance: real
    var allocateRate: Uint32
    var recvCount: Uint32

    constructor (value: Uint32, faceId: FaceId)
      ensures View() == Face(faceId, value, 0.0, 0.0, 0, 0)
    {
      rateValue, id, ratio, balance, allocateRate, recvCount := value, faceId, 0.0, 0.0, 0, 0;
    }

    function View(): Face
      reads this
    {
      Face(id, rateValue, ratio, balance, allocateRate, recvCount)
    }
  }

  function ViewAll(items: seq<RateItem>): (faces: seq<Face>)
    reads items
    ensures |faces| == |items|
    ensures forall i :: 0 <= i < |items| ==> faces[i] == items[i].View()
  {
    seq(|items|, i requires 0 <= i < |items| reads items => items[i].View())
  }

  class RateCollection {
    var rates: map<FaceId, RateItem>
    var items: seq<RateItem>
    var totalRate: Uint32
    var nextForwardFace: nat
    var totalAvailableRate: Uint32

    /** The hash index and the list hold the same entries, each once. */
    ghost predicate Valid()
      reads this
    {
      && |rates| == |items|
      && (forall i :: 0 <= i < |items| ==> items[i].id in rates && rates[items[i].id] == items[i])
      && (forall i, j :: 0 <= i < j < |items| ==> items[i].id != items[j].id)
    }

    /** The abstract value. */
    ghost function Contents(): Table
      reads this, items
    {
      Table(ViewAll(items), totalRate, nextForwardFace, totalAvailableRate)
    }

    constructor ()
      ensures Valid() && Contents() == EMPTY && items == []
    {
      rates, items, totalRate, nextForwardFace, totalAvailableRate := map[], [], 0, 0, 0;
    }

    /** Every key of the hash index is listed, for there are as many of one as of the other. */
    lemma ListedIffIndexed(id: FaceId)
      requires Valid()
      ensures Has(Contents(), id) <==> id in rates
    {
      var ids := seq(|items|, i requires 0 <= i < |items| reads this => items[i].id);
      if id !in ids && id in rates {
        DistinctBound(ids, rates.Keys - {id});
      }
      if i :| 0 <= i < |ids| && ids[i] == id {
        assert ViewAll(items)[i].id == id;
      }
    }

    /** The loop that brings every ratio up to date. */
    method RefreshRatios()
      requires Valid()
      modifies items
      ensures ViewAll(items) == Refresh(old(ViewAll(items)), totalRate)
    {
      ghost var before := ViewAll(items);
      for i := 0 to |items|
        invariant forall k :: 0 <= k < |items| ==>
          items[k].View() == if k < i then Refresh(before, totalRate)[k] else before[k]
      {
        items[i].ratio := CurrentRatio(items[i].rateValue, totalRate, |items|);
      }
    }

    method NewItem(id: FaceId, rate: Uint32) returns (item: RateItem)
      ensures fresh(item) && item.View() == Face(id, rate, 0.0, 0.0, 0, 1)
    {
      item := new RateItem(rate, id);
      item.recvCount := 1;
    }

    /** The branch of `AddOrUpdateRate` for a face that is not in the table. */
    method InsertFace(id: FaceId, rate: Uint32)
      requires Valid() && id !in rates
      modifies this
      ensures Valid() && rates.Keys == old(rates.Keys) + {id}
      ensures |items| == |old(items)| + 1 && items[..|old(items)|] == old(items) && fresh(items[|old(items)|])
      ensures ViewAll(items) == Insert(old(ViewAll(items)), id, rate)
      ensures totalRate == Mod32(old(totalRate) + rate)
      ensures nextForwardFace == old(nextForwardFace) && totalAvailableRate == old(totalAvailableRate)
    {
      var item := NewItem(id, rate);
      rates := rates[id := item];
      items := items + [item];
      totalRate := Mod32(totalRate + rate);
    }

    /** The branch for a face that is already there. */
    method UpdateFace(id: FaceId, rate: Uint32)
      requires Valid() && id in rates
      modifies this`totalRate, items
      ensures Valid()
      ensures Has(old(Contents()), id)
      ensures ViewAll(items) == Change(old(ViewAll(items)), id, rate)
      ensures totalRate == Mod32(old(totalRate) - RecordedRate(old(Contents()), id) + rate)
      ensures RecordedRate(old(Contents()), id) == old(rates[id].rateValue)
    {
      ListedIffIndexed(id);
      var item := rates[id];
      ghost var k := Position(ViewAll(items), id);
      assert items[k] == item;
      item.recvCount := Mod32(item.recvCount + 1);
      totalRate := Mod32(totalRate - item.rateValue + rate);
      item.rateValue := rate;
    }

    method AddOrUpdateRate(id: FaceId, rate: Uint32) returns (newFace: bool)
      requires Valid()
      modifies this, items
      ensures Valid()
      ensures Contents() == AddOrUpdate(old(Contents()), id, rate)
      ensures newFace <==> id !in old(rates)
      ensures rates.Keys == old(rates.Keys) + {id}
      ensures if newFace then
                |items| == |old(items)| + 1 && items[..|old(items)|] == old(items) && fresh(items[|old(items)|])
              else items == old(items) && rates == old(rates)
    {
      newFace := id !in rates;
      if newFace {
        AddRate(id, rate);
      } else {
        ChangeRate(id, rate);
      }
    }

    method AddRate(id: FaceId, rate: Uint32)
      requires Valid() && id !in rates
      modifies this, items
      ensures Valid() && rates.Keys == old(rates.Keys) + {id}
      ensures Contents() == AddOrUpdate(old(Contents()), id, rate)
      ensures |items| == |old(items)| + 1 && items[..|old(items)|] == old(items) && fresh(items[|old(items)|])
    {
      ListedIffIndexed(id);
      InsertFace(id, rate);
      RefreshRatios();
    }

    method ChangeRate(id: FaceId, rate: Uint32)
      requires Valid() && id in rates
      modifies this, items
      ensures Valid() && rates == old(rates) && items == old(items)
      ensures Contents() == AddOrUpdate(old(Contents()), id, rate)
    {
      ListedIffIndexed(id);
      var needUpdate := rate != rates[id].rateValue;
      UpdateFace(id, rate);
      if needUpdate {
        RefreshRatios();
      }
    }

    // ----- selectNextFace

    /** The top-up that starts a new sweep. */
    method BeginSweep()
      requires Valid()
      modifies this`nextForwardFace, items
      ensures Valid() && Contents() == StartSweep(old(Contents()))
    {
      ghost var before := ViewAll(items);
      if nextForwardFace >= |items| {
        for i := 0 to |items|
          invariant forall k :: 0 <= k < |items| ==>
            items[k].View() == if k < i then TopUpFace(before[k]) else before[k]
        {
          var item := items[i];
          if item.balance < CREDIT_CAP {
            item.balance := item.balance + item.ratio * 16000.0;
          }
        }
        nextForwardFace := 0;
      }
    }

    /** The face at the current position pays for the data. */
    method Pay(dataSize: nat)
      requires Valid() && nextForwardFace < |items|
      modifies items
      ensures ViewAll(items) == Charge(old(ViewAll(items)), nextForwardFace, dataSize)
    {
      var item := items[nextForwardFace];
      item.balance := item.balance - dataSize as real;
    }

    /** On to the first face that can pay, counting those that nobody waits for. */
    method FindPayer(dataSize: nat, exceptId: FaceId) returns (exceptCount: nat)
      requires Valid() && nextForwardFace <= |items|
      modifies this`nextForwardFace
      ensures nextForwardFace == Scan(ViewAll(items), old(nextForwardFace), dataSize, exceptId)
      ensures exceptCount == IdleCount(ViewAll(items), old(nextForwardFace), nextForwardFace, exceptId)
    {
      ghost var faces, start := ViewAll(items), nextForwardFace;
      exceptCount := 0;
      while nextForwardFace < |items|
        invariant start <= nextForwardFace <= |items|
        invariant forall j :: start <= j < nextForwardFace ==> !Affords(faces[j], dataSize, exceptId)
        invariant exceptCount == IdleCount(faces, start, nextForwardFace, exceptId)
        decreases |items| - nextForwardFace
      {
        var item := items[nextForwardFace];
        assert item.View() == faces[nextForwardFace];
        if item.balance > dataSize as real && item.id != exceptId {
          break;
        } else if item.id == exceptId || item.ratio < MIN_RATIO {
          exceptCount := exceptCount + 1;
        }
        nextForwardFace := nextForwardFace + 1;
      }
      ScanFinds(faces, start, dataSize, exceptId, nextForwardFace);
    }

    /** The sweep: the first face that can pay is selected and charged. */
    method Sweep(dataSize: nat, exceptId: FaceId) returns (selectedId: FaceId, exceptCount: nat)
      requires Valid() && nextForwardFace <= |items|
      modifies this`nextForwardFace, items
      ensures Valid()
      ensures var t := old(Contents());
        var k := Scan(t.faces, t.next, dataSize, exceptId);
        && Contents() == t.(faces := Charge(t.faces, k, dataSize), next := k)
        && selectedId == (if k < |t.faces| then t.faces[k].id else 0)
        && exceptCount == IdleCount(t.faces, t.next, k, exceptId)
    {
      exceptCount := FindPayer(dataSize, exceptId);
      selectedId := 0;
      if nextForwardFace < |items| {
        selectedId := items[nextForwardFace].id;
        Pay(dataSize);
      }
    }

    /**
     The deficit-round-robin selector.  It is called only where it returns;
     EndsExactlyWhenSettled says when that is.
     */
    method SelectNextFace(dataSize: nat, exceptId: FaceId) returns (selectedId: FaceId)
      requires Valid() && Proper(Contents()) && Settles(Contents(), dataSize, exceptId)
      modifies this`nextForwardFace, items
      ensures Valid()
      ensures Contents() == Select(old(Contents()), dataSize, exceptId).table
      ensures selectedId == Select(old(Contents()), dataSize, exceptId).face
      decreases TotalTopUpsLeft(Contents().faces), if nextForwardFace < |items| then 1 else 0
    {
      ghost var t := Contents();
      BeginSweep();
      var exceptCount;
      selectedId, exceptCount := Sweep(dataSize, exceptId);
      assert Contents() == OnePass(t, dataSize, exceptId).table;
      SelectUnfolds(t, dataSize, exceptId);
      if selectedId == 0 && |items| - exceptCount > 0 {
        selectedId := SelectNextFace(dataSize, exceptId);
      }
    }

    /** Entries are only ever added at the end of the list, and only new ones. */
    twostate predicate ItemsGrow()
      reads this
    {
      && old(items) <= items
      && forall k :: |old(items)| <= k < |items| ==> fresh(items[k])
    }

    twostate lemma OldOrNew()
      requires ItemsGrow()
      ensures forall x :: x in items ==> x in old(items) || fresh(x)
    {
      forall k | 0 <= k < |items| ensures items[k] in old(items) || fresh(items[k]) {
        if k < |old(items)| {
          assert items[k] == old(items)[k];
        }
      }
    }

    /** One round of the loop below. */
    method AddNexthop(ghost start: Table, nexthops: seq<FaceId>, i: nat)
      requires Valid() && i < |nexthops| && Contents() == AddAll(start, nexthops[..i])
      modifies this, items
      ensures Valid() && Contents() == AddAll(start, nexthops[..i + 1]) && ItemsGrow()
    {
      AddAllOneMore(start, nexthops, i);
      var _ := AddOrUpdateRate(nexthops[i], DEFAULT_RATE);
    }

    method AddNexthops(nexthops: seq<FaceId>)
      requires Valid()
      modifies this, items
      ensures Valid() && Contents() == AddAll(old(Contents()), nexthops) && ItemsGrow()
    {
      ghost var start := Contents();
      for i := 0 to |nexthops|
        invariant Valid() && Contents() == AddAll(start, nexthops[..i])
        invariant ItemsGrow()
      {
        OldOrNew();
        AddNexthop(start, nexthops, i);
      }
      WholeSlice(nexthops);
    }

    /** A table without faces is first filled from the next hops of the FIB entry. */
    method SeedFaces(nexthops: seq<FaceId>)
      requires Valid()
      modifies this, items
      ensures Valid() && Contents() == Seed(old(Contents()), nexthops) && ItemsGrow()
    {
      if |items| == 0 {
        AddNexthops(nexthops);
      }
    }

    method SelectFaceByRatio(ingress: FaceId, nexthops: seq<FaceId>, dsz: Option<nat>) returns (selectedId: FaceId)
      requires Valid() && Selectable(Contents(), ingress, nexthops, dsz)
      modifies this, items
      ensures Valid() && ItemsGrow()
      ensures Contents() == SelectByRatio(old(Contents()), ingress, nexthops, dsz).table
      ensures selectedId == SelectByRatio(old(Contents()), ingress, nexthops, dsz).face
    {
      SeedFaces(nexthops);
      if |items| == 0 {
        selectedId := 0;
      } else if |items| == 1 {
        selectedId := if items[0].id == ingress then 0 else items[0].id;
      } else {
        var dataSize := DEFAULT_SIZE;
        if dsz.Some? {
          dataSize := dsz.value;
        }
        OldOrNew();
        selectedId := SelectNextFace(dataSize, ingress);
      }
    }

    // ----- Shares of the total

    method GetFaceNum() returns (n: nat)
      requires Valid()
      ensures n == |Contents().faces|
    {
      n := |rates|;
    }

    /** The total of the rates on record, as far as 32 bits can say it. */
    method GetMergeRate() returns (rate: Uint32)
      ensures rate == Contents().total
      ensures Consistent(Contents()) ==> rate == Mod32(SumRates(Contents().faces))
    {
      rate := totalRate;
    }

    method GetRatioByFace(id: FaceId) returns (ratio: real)
      requires Valid()
      ensures ratio == RatioByFace(Contents(), id)
    {
      ListedIffIndexed(id);
      if totalRate == 0 && |rates| > 0 {
        ratio := 1.0 / |rates| as real;
      } else if id !in rates {
        ratio := 0.01;
      } else {
        var item := rates[id];
        AtPosition(id);
        assert |rates| > 0;
        ratio := item.rateValue as real * 1.0 / totalRate as real;
      }
    }

    lemma AtPosition(id: FaceId)
      requires Valid() && id in rates
      ensures Has(Contents(), id) && items[Position(ViewAll(items), id)] == rates[id]
    {
      ListedIffIndexed(id);
    }

    method GetAllocateRate(id: FaceId) returns (rate: Uint32)
      requires Valid()
      ensures rate == if Has(Contents(), id) then Contents().faces[Position(Contents().faces, id)].allocation else 0
    {
      ListedIffIndexed(id);
      if id !in rates {
        rate := 0;
      } else {
        AtPosition(id);
        rate := rates[id].allocateRate;
      }
    }

    // ----- doPeriodicCleaning

    /** The keys of the hash index in the order in which an iterator meets them. */
    method KeysInSomeOrder() returns (order: seq<FaceId>)
      ensures Distinct(order) && ToSet(order) == rates.Keys
    {
      order := [];
      var left := rates.Keys;
      while left != {}
        invariant Distinct(order) && ToSet(order) == rates.Keys - left && left <= rates.Keys
        decreases left
      {
        var id :| id in left;
        assert ToSet(order + [id]) == ToSet(order) + {id};
        left := left - {id};
        order := order + [id];
      }
    }

    lemma AtListPosition(id: FaceId) returns (k: nat)
      requires Valid() && id in rates
      ensures k < |items| && items[k] == rates[id] && items[k].id == id
      ensures ViewAll(items)[k] == rates[id].View()
    {
      ListedIffIndexed(id);
      k := Position(ViewAll(items), id);
    }

    /** A silent face is given the default rate, which counts as hearing of it once. */
    method GiveDefaultRate(ghost t: Table, ghost done: set<FaceId>, id: FaceId, defaultRate: Uint32)
      requires Valid() && id in rates && id !in done && rates[id].recvCount == 0
      requires DistinctIds(t.faces) && Resetting(t, defaultRate, done, Contents())
      modifies this, items
      ensures Valid() && items == old(items) && rates == old(rates)
      ensures Resetting(t, defaultRate, done, Contents()) && rates[id].recvCount == 1
    {
      ghost var u := Contents();
      ghost var k := AtListPosition(id);
      ResettingUpdates(t, defaultRate, done, u, k);
      var _ := AddOrUpdateRate(id, defaultRate);
      assert Contents().faces[k].received == 1 by {
        PositionIsUnique(u, k);
      }
      assert items[k].View() == Contents().faces[k];
    }

    /** The counter of a face that was heard of is cleared. */
    method ClearCounter(ghost t: Table, ghost done: set<FaceId>, id: FaceId, ghost defaultRate: Uint32)
      requires Valid() && id in rates && rates[id].recvCount != 0
      requires DistinctIds(t.faces) && Resetting(t, defaultRate, done, Contents())
      modifies items
      ensures Valid() && Resetting(t, defaultRate, done + {id}, Contents())
    {
      ghost var u := Contents();
      ghost var k := AtListPosition(id);
      var item := rates[id];
      item.recvCount := 0;
      assert ViewAll(items) == u.faces[k := u.faces[k].(received := 0)];
      ResettingAdvances(t, defaultRate, done, u, k, Contents());
    }

    /** The resetting loop has dealt with the first `it` keys. */
    ghost predicate ResetUpTo(t: Table, defaultRate: Uint32, order: seq<FaceId>, it: nat)
      reads this, items
    {
      && it <= |order| && Distinct(order) && ToSet(order) == rates.Keys
      && Valid() && DistinctIds(t.faces) && Resetting(t, defaultRate, ToSet(order[..it]), Contents())
    }

    /** The body of the resetting loop, which advances only past a face that was heard of. */
    method ResetStep(ghost t: Table, defaultRate: Uint32, order: seq<FaceId>, it: nat) returns (advance: bool)
      requires it < |order| && ResetUpTo(t, defaultRate, order, it)
      modifies this, items
      ensures items == old(items) && rates == old(rates) && order[it] in rates
      ensures advance <==> old(rates[order[it]].recvCount) != 0
      ensures !advance ==> rates[order[it]].recvCount != 0
      ensures ResetUpTo(t, defaultRate, order, if advance then it + 1 else it)
    {
      assert order[it] in ToSet(order);
      OneElementMore(order, it);
      advance := rates[order[it]].recvCount != 0;
      if advance {
        ClearCounter(t, ToSet(order[..it]), order[it], defaultRate);
      } else {
        GiveDefaultRate(t, ToSet(order[..it]), order[it], defaultRate);
      }
    }

    /**
     The cleaning of recommended rates.  A silent face is given the default rate
     without advancing the iterator, so it is met again, now no longer silent.
     */
    method ResetLoop(ghost t: Table, defaultRate: Uint32, order: seq<FaceId>)
      requires ResetUpTo(t, defaultRate, order, 0)
      modifies this, items
      ensures ResetUpTo(t, defaultRate, order, |order|)
      ensures items == old(items) && rates == old(rates)
    {
      var it := 0;
      ghost var updated := false;
      while it < |order|
        invariant ResetUpTo(t, defaultRate, order, it)
        invariant items == old(items) && rates == old(rates)
        invariant updated ==> it < |order| && order[it] in rates && rates[order[it]].recvCount != 0
        decreases |order| - it, if updated then 0 else 1
      {
        var advance := ResetStep(t, defaultRate, order, it);
        if advance {
          it := it + 1;
        }
        updated := !advance;
        assert ResetUpTo(t, defaultRate, order, it);
      }
    }

    method ResetSilentFaces(defaultRate: Uint32)
      requires Valid() && Consistent(Contents())
      modifies this, items
      ensures Valid() && items == old(items) && rates == old(rates)
      ensures Reset(old(Contents()), defaultRate, Contents())
    {
      ghost var t := Contents();
      var order := KeysInSomeOrder();
      ResettingStarts(t, defaultRate);
      assert ToSet(order[..0]) == {};
      ResetLoop(t, defaultRate, order);
      WholeSlice(order);
      ResettingEnds(t, defaultRate, ToSet(order), Contents());
    }

    /**
     Halfway through the erasing loop: the silent faces among `done` are out of
     the hash index but still listed, the others have their counters cleared.
     */
    ghost predicate Erasing(t: Table, done: set<FaceId>)
      reads this, items
    {
      && |items| == |t.faces| && nextForwardFace == t.next && totalAvailableRate == t.available
      && (forall i :: 0 <= i < |items| ==> items[i].View() == Visited(t.faces[i], items[i].id in done))
      && (forall i :: 0 <= i < |items| ==>
            (items[i].id in rates <==> !(items[i].id in done && t.faces[i].received == 0)))
      && (forall i :: 0 <= i < |items| && items[i].id in rates ==> rates[items[i].id] == items[i])
      && (forall id :: id in rates ==> rates[id].id == id && Has(t, id))
    }

    static function Visited(f: Face, done: bool): Face {
      if done && f.received != 0 then f.(received := 0) else f
    }

    lemma OthersDiffer(t: Table, done: set<FaceId>, k: nat)
      requires DistinctIds(t.faces) && Erasing(t, done) && k < |items| && items[k].id !in done
      ensures items[k].View() == t.faces[k] && items[k].id in rates
      ensures forall i :: 0 <= i < |items| && i != k ==> items[i].id != items[k].id
    {
      assert forall i :: 0 <= i < |items| ==> items[i].View().id == t.faces[i].id;
    }

    /** A silent entry leaves the hash index, and its rate the total. */
    method DropEntry(ghost t: Table, ghost done: set<FaceId>, item: RateItem, ghost k: nat)
      requires DistinctIds(t.faces) && Erasing(t, done) && k < |items| && items[k] == item
      requires item.id !in done && item.recvCount == 0
      modifies this`rates, this`totalRate
      ensures Erasing(t, done + {item.id})
      ensures totalRate == Mod32(old(totalRate) - t.faces[k].rate)
    {
      OthersDiffer(t, done, k);
      totalRate := Mod32(totalRate - item.rateValue);
      rates := rates - {item.id};
    }

    /** An entry that was updated stays, with its counter cleared. */
    method ClearEntry(ghost t: Table, ghost done: set<FaceId>, item: RateItem, ghost k: nat)
      requires DistinctIds(t.faces) && Erasing(t, done) && k < |items| && items[k] == item
      requires item.id !in done && item.recvCount != 0
      modifies item
      ensures Erasing(t, done + {item.id})
    {
      OthersDiffer(t, done, k);
      item.recvCount := 0;
    }

    /** One step of the erasing loop, for the entry that the iterator has reached. */
    method EraseStep(ghost t: Table, ghost done: set<FaceId>, id: FaceId, ghost k: nat) returns (erased: bool)
      requires DistinctIds(t.faces) && Erasing(t, done) && id !in done
      requires k < |items| && items[k].id == id
      modifies this`rates, this`totalRate, items
      ensures Erasing(t, done + {id})
      ensures erased <==> t.faces[k].received == 0
      ensures !erased ==> rates == old(rates)
      ensures totalRate == Mod32(old(totalRate) - SilentRateOf(t.faces[k]))
    {
      OthersDiffer(t, done, k);
      assert t.faces[k].received == items[k].recvCount;
      var item := rates[id];
      erased := item.recvCount == 0;
      if erased {
        DropEntry(t, done, item, k);
      } else {
        ClearEntry(t, done, item, k);
      }
    }

    /** The entries of the hash index in the order in which an iterator meets them. */
    method EntriesInSomeOrder() returns (entries: seq<RateItem>)
      requires forall id :: id in rates ==> rates[id].id == id
      ensures |entries| == |rates| && IsEntries(entries)
    {
      var order := KeysInSomeOrder();
      entries := [];
      for idx := 0 to |order|
        invariant |entries| == idx
        invariant forall i :: 0 <= i < idx ==> order[i] in rates && entries[i] == rates[order[i]]
      {
        assert order[idx] in ToSet(order);
        entries := entries + [rates[order[idx]]];
      }
      forall id | id in rates ensures rates[id] in entries {
        assert id in ToSet(order);
        var i :| 0 <= i < |order| && order[i] == id;
        assert entries[i] == rates[id];
      }
      DistinctBound(order, rates.Keys);
      CoverBound(order, rates.Keys);
    }

    lemma ErasingStarts(t: Table)
      requires Valid() && t == Contents()
      ensures Erasing(t, {}) && forall id :: id in rates ==> Has(t, id)
    {
      forall id | id in rates ensures rates[id].id == id && Has(t, id) {
        var k := AtListPosition(id);
        ListedIffIndexed(id);
      }
    }

    /** The erasing loop has dealt with the first `it` entries, in the table and in the total. */
    ghost predicate ErasedUpTo(t: Table, order: seq<FaceId>, it: nat)
      reads this, items
      requires Listed(t, order) && it <= |order|
    {
      Erasing(t, ToSet(order[..it])) && totalRate == Mod32(t.total - MetRates(t, order, it))
    }

    /** The erasing loop over all the entries. */
    method EraseLoop(ghost t: Table, order: seq<FaceId>) returns (hasClean: bool)
      requires DistinctIds(t.faces) && Distinct(order) && Listed(t, order) && ErasedUpTo(t, order, 0)
      modifies this`rates, this`totalRate, items
      ensures ErasedUpTo(t, order, |order|)
      ensures !hasClean ==> rates == old(rates)
    {
      hasClean := false;
      for it := 0 to |order|
        invariant ErasedUpTo(t, order, it)
        invariant !hasClean ==> rates == old(rates)
      {
        var erased := EraseNext(t, order, it);
        hasClean := hasClean || erased;
      }
    }

    /** While erasing, every face is still listed at its place. */
    lemma ListedAt(t: Table, done: set<FaceId>, id: FaceId) returns (k: nat)
      requires Erasing(t, done) && Has(t, id)
      ensures k == Position(t.faces, id) && k < |items| && items[k].id == id
    {
      k := Position(t.faces, id);
      assert items[k].View().id == t.faces[k].id;
    }

    method EraseNext(ghost t: Table, order: seq<FaceId>, it: nat) returns (erased: bool)
      requires DistinctIds(t.faces) && Distinct(order) && Listed(t, order)
      requires it < |order| && ErasedUpTo(t, order, it)
      modifies this`rates, this`totalRate, items
      ensures ErasedUpTo(t, order, it + 1)
      ensures !erased ==> rates == old(rates)
    {
      OneElementMore(order, it);
      ghost var k := ListedAt(t, ToSet(order[..it]), order[it]);
      ghost var before := totalRate;
      erased := EraseStep(t, ToSet(order[..it]), order[it], k);
      TotalOneMore(t, order, it, before, totalRate);
    }

    /** Once every face is done, the entries of the hash index are the survivors. */
    lemma KeptAreSurvivors(t: Table, done: set<FaceId>, kept: seq<RateItem>)
      requires DistinctIds(t.faces) && Erasing(t, done)
      requires forall i :: 0 <= i < |t.faces| ==> t.faces[i].id in done
      requires IsEntries(kept)
      ensures multiset(ViewAll(kept)) == multiset(Survivors(t.faces))
    {
      var faces := ViewAll(kept);
      forall i | 0 <= i < |faces| ensures faces[i] in Survivors(t.faces) {
        var k := Position(t.faces, kept[i].id);
        assert items[k].View().id == kept[i].id;
        SurvivorMembers(t.faces, faces[i]);
      }
      forall k | 0 <= k < |t.faces| && t.faces[k].received != 0 ensures t.faces[k].(received := 0) in faces {
        assert items[k].View() == t.faces[k].(received := 0);
        var i :| 0 <= i < |kept| && kept[i] == items[k];
        assert faces[i] == items[k].View();
      }
      SurvivorsInAnyOrder(t.faces, faces);
    }

    ghost predicate ErasedAll(t: Table, done: set<FaceId>)
      reads this, items
    {
      && DistinctIds(t.faces) && Erasing(t, done)
      && (forall i :: 0 <= i < |t.faces| ==> t.faces[i].id in done)
      && totalRate == Mod32(t.total - SilentRates(t.faces))
    }

    lemma ErasedUpToAll(t: Table, order: seq<FaceId>)
      requires DistinctIds(t.faces) && Distinct(order) && Listed(t, order) && ErasedUpTo(t, order, |order|)
      requires forall i :: 0 <= i < |t.faces| ==> t.faces[i].id in ToSet(order)
      ensures ErasedAll(t, ToSet(order))
    {
      assert order[..|order|] == order;
      AllFacesMet(t, order);
    }

    /** Before the first entry; every face is among those that will be met. */
    lemma NothingErased(t: Table, order: seq<FaceId>)
      requires Valid() && t == Contents() && Distinct(order) && ToSet(order) == rates.Keys
      ensures DistinctIds(t.faces) && Listed(t, order) && ErasedUpTo(t, order, 0)
      ensures forall i :: 0 <= i < |t.faces| ==> t.faces[i].id in ToSet(order)
    {
      ErasingStarts(t);
      assert ToSet(order[..0]) == {};
      forall j | 0 <= j < |order| ensures Has(t, order[j]) {
        assert order[j] in ToSet(order);
      }
      forall i | 0 <= i < |t.faces| ensures t.faces[i].id in ToSet(order) {
        assert items[i].id in rates;
      }
    }

    method EraseFromIndex() returns (hasClean: bool, ghost done: set<FaceId>)
      requires Valid()
      modifies this`rates, this`totalRate, items
      ensures ErasedAll(old(Contents()), done)
      ensures !hasClean ==> rates == old(rates)
    {
      ghost var t := Contents();
      var order := KeysInSomeOrder();
      NothingErased(t, order);
      hasClean := EraseLoop(t, order);
      done := ToSet(order);
      ErasedUpToAll(t, order);
    }

    method ListEntries(entries: seq<RateItem>)
      modifies this`items
      ensures items == entries && ViewAll(items) == old(ViewAll(entries))
    {
      items := entries;
    }

    /** The second loop: the list is made of the entries of the hash index. */
    method RebuildList(ghost t: Table, ghost done: set<FaceId>)
      requires ErasedAll(t, done)
      modifies this`items
      ensures Valid() && Erased(t, Contents())
      ensures forall x :: x in items ==> x in old(items)
    {
      var entries := EntriesInSomeOrder();
      EntriesAreListed(t, done, entries);
      ListReplaced(t, done, entries);
      ListEntries(entries);
    }

    ghost predicate IsEntries(entries: seq<RateItem>)
      reads this
    {
      && (forall i :: 0 <= i < |entries| ==> entries[i].id in rates && rates[entries[i].id] == entries[i])
      && (forall i, j :: 0 <= i < j < |entries| ==> entries[i].id != entries[j].id)
      && (forall id :: id in rates ==> rates[id] in entries)
    }

    /** What the table is once the entries that are left are listed. */
    lemma ListReplaced(t: Table, done: set<FaceId>, entries: seq<RateItem>)
      requires ErasedAll(t, done) && IsEntries(entries)
      ensures Erased(t, Table(ViewAll(entries), totalRate, nextForwardFace, totalAvailableRate))
    {
      KeptAreSurvivors(t, done, entries);
      var faces := ViewAll(entries);
      forall i, j | 0 <= i < j < |faces| ensures faces[i].id != faces[j].id {
        assert faces[i] == entries[i].View() && faces[j] == entries[j].View();
      }
    }

    /**
     The cleaning of available rates: silent faces are dropped, and the list is
     then rebuilt from the hash index if there were any.
     */
    method EraseSilentFaces()
      requires Valid()
      modifies this, items
      ensures Valid() && Erased(old(Contents()), Contents())
      ensures forall x :: x in items ==> x in old(items)
    {
      ghost var t := Contents();
      var hasClean, done := EraseFromIndex();
      if hasClean {
        RebuildList(t, done);
      } else {
        NothingToRebuild(t, done);
      }
    }

    lemma NothingToRebuild(t: Table, done: set<FaceId>)
      requires Valid() && ErasedAll(t, done)
      ensures Erased(t, Contents())
    {
      forall id | id in rates ensures rates[id] in items {
        var k := AtListPosition(id);
      }
      KeptAreSurvivors(t, done, items);
    }

    lemma EntriesAreListed(t: Table, done: set<FaceId>, entries: seq<RateItem>)
      requires Erasing(t, done)
      requires IsEntries(entries)
      ensures forall x :: x in entries ==> x in items
    {
      forall i | 0 <= i < |entries| ensures entries[i] in items {
        var k := Position(t.faces, entries[i].id);
        assert items[k].View().id == entries[i].id;
      }
    }

    /**
     The loop of the source takes one of two forms, according to a flag that it
     does not change.
     */
    method DoPeriodicCleaning(needErase: bool, defaultValue: Uint32)
      requires Valid() && Consistent(Contents())
      modifies this, items
      ensures Valid()
      ensures Step(old(Contents()), if needErase then EraseSilent else ResetSilent(defaultValue), Contents())
    {
      if needErase {
        EraseSilentFaces();
      } else {
        ResetSilentFaces(defaultValue);
      }
    }

    // ----- calSplitRateByRate

    /** A sorted copy of the list; faces of equal rate may come in any order. */
    method SortedItems() returns (sorted: seq<RateItem>)
      ensures multiset(sorted) == multiset(items)
      ensures SortedByRate(ViewAll(sorted))
    {
      sorted := [];
      for i := 0 to |items|
        invariant multiset(sorted) == multiset(items[..i])
        invariant SortedByRate(ViewAll(sorted))
      {
        assert items[..i + 1] == items[..i] + [items[i]];
        sorted := InsertInOrder(sorted, items[i]);
      }
      assert items[..|items|] == items;
    }

    static method InsertInOrder(sorted: seq<RateItem>, item: RateItem) returns (longer: seq<RateItem>)
      requires SortedByRate(ViewAll(sorted))
      ensures multiset(longer) == multiset(sorted) + multiset{item}
      ensures SortedByRate(ViewAll(longer))
    {
      var k := 0;
      while k < |sorted| && sorted[k].rateValue < item.rateValue
        invariant 0 <= k <= |sorted|
        invariant forall j :: 0 <= j < k ==> ViewAll(sorted)[j].rate < item.rateValue
      {
        k := k + 1;
      }
      InsertKeepsSorted(ViewAll(sorted), k, item.View());
      longer := sorted[..k] + [item] + sorted[k..];
      assert sorted == sorted[..k] + sorted[k..];
      ViewOfInsertion(sorted, k, item);
    }

    static lemma ViewOfInsertion(sorted: seq<RateItem>, k: nat, item: RateItem)
      requires k <= |sorted|
      ensures ViewAll(sorted[..k] + [item] + sorted[k..]) == ViewAll(sorted)[..k] + [item.View()] + ViewAll(sorted)[k..]
    {
    }

    /** One turn, in the mixed signed and unsigned arithmetic of the source. */
    static method TakeTurn(item: RateItem, remainRate: Uint32, remainCount: int) returns (rest: Uint32)
      requires 0 < remainCount < 0x8000_0000
      modifies item`allocateRate
      ensures item.allocateRate == Grant(remainRate, remainCount, item.rateValue)
      ensures rest == remainRate - item.allocateRate
    {
      QuotientBound(remainRate, remainCount);
      Int32RoundTrip(remainRate / remainCount);
      Int32Subtraction(remainRate, remainRate / remainCount);
      var thisTurn: int := ToInt32(remainRate / remainCount);
      if Mod32(thisTurn) <= item.rateValue {
        rest := Mod32(remainRate - thisTurn);
        item.allocateRate := Mod32(thisTurn);
      } else {
        rest := remainRate - item.rateValue;
        item.allocateRate := item.rateValue;
      }
    }

    /** The loop over the sorted entries. */
    static method FillSorted(sorted: seq<RateItem>, available: Uint32)
      requires Distinct(sorted) && |sorted| < 0x8000_0000
      modifies sorted
      ensures ViewAll(sorted) == WaterFill(old(ViewAll(sorted)), available)
    {
      ghost var faces := ViewAll(sorted);
      ghost var filled := WaterFill(faces, available);
      var remainRate := available;
      for k := 0 to |sorted|
        invariant filled[k..] == WaterFill(faces[k..], remainRate)
        invariant forall j :: 0 <= j < |sorted| ==> sorted[j].View() == if j < k then filled[j] else faces[j]
      {
        FillAfterTurn(faces, k, filled, remainRate);
        assert sorted[k].View() == faces[k];
        remainRate := TakeTurn(sorted[k], remainRate, |sorted| - k);
      }
    }

    static lemma ViewWithout(b: seq<RateItem>, k: nat)
      requires k < |b|
      ensures multiset(ViewAll(b)) == multiset(ViewAll(b[..k] + b[k + 1..])) + multiset{b[k].View()}
    {
      var faces := ViewAll(b);
      assert ViewAll(b[..k] + b[k + 1..]) == faces[..k] + faces[k + 1..];
      assert faces == faces[..k] + [faces[k]] + faces[k + 1..];
    }

    static lemma {:induction false} ViewPermutes(a: seq<RateItem>, b: seq<RateItem>)
      requires multiset(a) == multiset(b)
      ensures multiset(ViewAll(a)) == multiset(ViewAll(b))
    {
      MultisetMembers(a, b);
      if a != [] {
        assert a[0] in b;
        var k := IndexOf(b, a[0]);
        MultisetOneLess(a, b, k);
        ViewWithout(a, 0);
        ViewWithout(b, k);
        ViewPermutes(a[..0] + a[1..], b[..k] + b[k + 1..]);
      }
    }

    /** A split of the sorted entries is a split of the list. */
    lemma SplitOfSorted(t: Table, sorted: seq<RateItem>, sortedFaces: seq<Face>)
      requires multiset(sorted) == multiset(items) && |items| == |t.faces| && t.available == totalAvailableRate
      requires SortedByRate(sortedFaces) && ViewAll(sorted) == WaterFill(sortedFaces, totalAvailableRate)
      requires forall i, j :: 0 <= i < |items| && 0 <= j < |sorted| && sorted[j] == items[i] ==>
                 sortedFaces[j] == t.faces[i]
      ensures MaxMinSplit(ViewAll(items), totalAvailableRate)
      ensures forall i :: 0 <= i < |items| ==> items[i].View() == t.faces[i].(allocation := items[i].allocateRate)
    {
      MultisetMembers(items, sorted);
      FillKeepsFaces(sortedFaces, totalAvailableRate);
      WaterFillIsMaxMin(sortedFaces, totalAvailableRate);
      ViewPermutes(sorted, items);
      MaxMinSplitPermutes(ViewAll(sorted), ViewAll(items), totalAvailableRate);
      forall i | 0 <= i < |items|
        ensures items[i].View() == t.faces[i].(allocation := items[i].allocateRate)
      {
        assert items[i] in sorted;
        var j :| 0 <= j < |sorted| && sorted[j] == items[i];
        assert ViewAll(sorted)[j] == items[i].View();
      }
    }

    lemma SortedAreListed(sorted: seq<RateItem>)
      requires Valid() && multiset(sorted) == multiset(items)
      ensures |sorted| == |items| && Distinct(sorted)
      ensures forall j :: 0 <= j < |sorted| ==> sorted[j] in items
    {
      MultisetMembers(items, sorted);
      assert Distinct(items);
      DistinctPermutation(items, sorted);
      assert forall j :: 0 <= j < |sorted| ==> sorted[j] in sorted;
    }

    /** The case of several faces. */
    method SplitAmongMany()
      requires Valid() && |items| < 0x8000_0000
      modifies items
      ensures Valid() && OnlyAllocations(old(Contents()), Contents())
      ensures MaxMinSplit(Contents().faces, totalAvailableRate)
    {
      ghost var t := Contents();
      var sortedItems := SortedItems();
      ghost var sortedFaces := ViewAll(sortedItems);
      SortedAreListed(sortedItems);
      FillSorted(sortedItems, totalAvailableRate);
      SplitOfSorted(t, sortedItems, sortedFaces);
    }

    method CalSplitRateByRate()
      requires Valid() && |items| < 0x8000_0000
      modifies items
      ensures Valid() && SplitOf(old(Contents()), Contents())
    {
      if totalAvailableRate == 0 || |items| == 0 {
        return;
      }
      if |items| == 1 {
        var item := items[0];
        item.allocateRate := if item.rateValue < totalAvailableRate then item.rateValue else totalAvailableRate;
        OneFaceSplit(ViewAll(items), totalAvailableRate);
        return;
      }
      SplitAmongMany();
    }

    /** The split is renewed only when the available rate has moved by more than a fifth. */
    method UpdateTotalAvailableRate(rate: Uint32)
      requires Valid() && |items| < 0x8000_0000
      modifies this`totalAvailableRate, items
      ensures Valid()
      ensures AvailableUpdated(old(Contents()), rate, Contents())
    {
      if rate as real > 1.2 * totalAvailableRate as real || (rate as real) < 0.8 * totalAvailableRate as real {
        totalAvailableRate := rate;
        CalSplitRateByRate();
      } else {
        totalAvailableRate := rate;
      }
    }
  }
}

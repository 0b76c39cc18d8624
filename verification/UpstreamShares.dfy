/** How much of the rate asked for downstream an Interest asks for upstream, to the last digit. */
module UpstreamShares {
  import opened Common
  import opened RateTable
  import opened DeficitRoundRobin
  import opened RateShares
  import opened RateStore
  import opened UpstreamRates

  /** The rate asked for through a face is to all that is asked for as its rate on record is to the total. */
  ghost predicate InShare(t: Table, i: nat, asked: Uint32, rate: real)
    requires i < |t.faces|
  {
    if t.total == 0 then rate * |t.faces| as real == asked as real
    else rate * t.total as real == t.faces[i].rate as real * asked as real
  }

  lemma ShareTimes(a: real, b: real, whole: real)
    requires b > 0.0
    ensures a * 1.0 / b * whole * b == a * whole
  {
    var q := a / b;
    assert q * b == a;
    assert q * whole * b == q * b * whole;
  }

  lemma ShareOfListed(u: Store, flow: FlowKey, i: nat)
    requires flow in u.rrt && flow in u.art && DistinctIds(u.rrt[flow].faces) && i < |u.rrt[flow].faces|
    ensures InShare(u.rrt[flow], i, u.art[flow].total, DownstreamRate(u, flow, u.rrt[flow].faces[i].id))
  {
    var t, asked := u.rrt[flow], u.art[flow].total as real;
    PositionIsUnique(t, i);
    if t.total == 0 {
      ShareTimes(1.0, |t.faces| as real, asked);
    } else {
      ShareTimes(t.faces[i].rate as real, t.total as real, asked);
    }
  }

  /** What would be asked for through the first `k` faces, taken together. */
  ghost function SumAsked(u: Store, flow: FlowKey, k: nat): real
    requires flow in u.rrt && flow in u.art && k <= |u.rrt[flow].faces|
  {
    if k == 0 then 0.0 else SumAsked(u, flow, k - 1) + DownstreamRate(u, flow, u.rrt[flow].faces[k - 1].id)
  }

  lemma PartIsWeighed(u: Store, flow: FlowKey, i: nat, c: real)
    requires flow in u.rrt && flow in u.art && DistinctIds(u.rrt[flow].faces) && i < |u.rrt[flow].faces|
    requires c == u.art[flow].total as real / Whole(u.rrt[flow]) as real
    ensures DownstreamRate(u, flow, u.rrt[flow].faces[i].id) == Times(Weight(u.rrt[flow], i), c)
  {
    var t, asked := u.rrt[flow], u.art[flow].total as real;
    PositionIsUnique(t, i);
    TimesIsProduct(Weight(t, i), c);
    ShareOfMerge(Weight(t, i) as real, Whole(t) as real, asked);
  }

  lemma {:induction false} SumIsWeighed(u: Store, flow: FlowKey, k: nat, c: real)
    requires flow in u.rrt && flow in u.art && DistinctIds(u.rrt[flow].faces) && k <= |u.rrt[flow].faces|
    requires k > 0 ==> c == u.art[flow].total as real / Whole(u.rrt[flow]) as real
    ensures SumAsked(u, flow, k) == Times(SumWeights(u.rrt[flow], k), c)
  {
    if k > 0 {
      SumIsWeighed(u, flow, k - 1, c);
      PartIsWeighed(u, flow, k - 1, c);
      Distribute(SumWeights(u.rrt[flow], k - 1), Weight(u.rrt[flow], k - 1), c);
    }
  }

  lemma TimesQuotient(w: nat, whole: nat, asked: real, c: real, sum: real)
    requires whole > 0 && c == asked / whole as real && sum == Times(w, c)
    ensures sum * whole as real == w as real * asked
    ensures w == whole ==> sum == asked
  {
    TimesIsProduct(w, c);
    assert c * whole as real == asked;
    assert w as real * c * whole as real == w as real * (c * whole as real);
  }

  /** Shares of a total that are all handed out make up the whole. */
  ghost predicate SharedOut(t: Table, asked: Uint32, sum: real) {
    if t.total == 0 then sum == asked as real
    else sum * t.total as real == SumRates(t.faces) as real * asked as real
  }

  lemma FacesShareAll(u: Store, flow: FlowKey)
    requires flow in u.rrt && flow in u.art && DistinctIds(u.rrt[flow].faces) && u.rrt[flow].faces != []
    ensures SharedOut(u.rrt[flow], u.art[flow].total, SumAsked(u, flow, |u.rrt[flow].faces|))
  {
    var t, n := u.rrt[flow], |u.rrt[flow].faces|;
    var c := QuotientOf(u.art[flow].total, Whole(t));
    SumIsWeighed(u, flow, n, c);
    SumWeightsIsSum(t, n);
    assert t.faces[..n] == t.faces;
    WeighedIsShared(t, u.art[flow].total, c, SumAsked(u, flow, n));
  }

  lemma QuotientOf(asked: nat, whole: nat) returns (c: real)
    requires whole > 0
    ensures c == asked as real / whole as real
  {
    c := asked as real / whole as real;
  }

  lemma WeighedIsShared(t: Table, asked: Uint32, c: real, sum: real)
    requires t.faces != [] && c == asked as real / Whole(t) as real
    requires sum == Times(if t.total == 0 then |t.faces| else SumRates(t.faces), c)
    ensures SharedOut(t, asked, sum)
  {
    TimesQuotient(if t.total == 0 then |t.faces| else SumRates(t.faces), Whole(t), asked as real, c, sum);
  }

  lemma WholeExactly(sum: real, rates: nat, asked: nat, total: nat)
    requires total > 0 && sum * total as real == rates as real * asked as real
    ensures sum == asked as real <==> asked == 0 || rates == total
  {
    if sum == asked as real {
      assert asked as real * (total as real - rates as real) == 0.0;
    } else if asked == 0 {
      CancelFactor(sum, 0.0, total as real);
    } else if rates == total {
      CancelFactor(sum, asked as real, total as real);
    }
  }

  lemma SharedOutExactly(t: Table, asked: Uint32, sum: real)
    requires Consistent(t) && SharedOut(t, asked, sum)
    ensures sum == asked as real <==> asked == 0 || !Overflows(t)
  {
    if t.total != 0 {
      WholeExactly(sum, SumRates(t.faces), asked, t.total);
      if SumRates(t.faces) < WRAP {
        Mod32Small(SumRates(t.faces));
      }
    }
  }

  /**
   At every Interest of every run that is given a face: the rate asked for through
   that face is to all that the asking faces ask for as its rate on record is to
   the total of the recommended rates (an equal part, if that total reads zero).
   The faces together would be asked for exactly as much as is asked for
   downstream, if and only if that is nothing or the total has not overflowed.
   */
  lemma UpstreamSharesExactly(stores: seq<Store>, events: seq<StoreEvent>, n: nat)
    requires StoreRun(stores, events) && n < |events| && events[n].Interest?
    requires Answerable(stores[n], events[n]) && Selected(stores[n], events[n]).face != 0
    ensures events[n].flow in stores[n + 1].rrt && events[n].flow in stores[n + 1].art
    ensures var u, flow, face := stores[n + 1], events[n].flow, Selected(stores[n], events[n]).face;
      var t, asked := u.rrt[flow], u.art[flow].total;
      && (exists i :: 0 <= i < |t.faces| && t.faces[i].id == face
            && InShare(t, i, asked, DownstreamRate(u, flow, face)))
      && SharedOut(t, asked, SumAsked(u, flow, |t.faces|))
      && (SumAsked(u, flow, |t.faces|) == asked as real <==> asked == 0 || !Overflows(t))
  {
    var s, e, u := stores[n], events[n], stores[n + 1];
    assert StoreStep(s, e, u);
    StoreInvariant(stores, events, n + 1);
    SelectedFace(Get(s.rrt, e.flow), e.ingress, e.nexthops, e.dsz);
    var t, face := u.rrt[e.flow], Selected(s, e).face;
    var i := Position(t.faces, face);
    ShareOfListed(u, e.flow, i);
    FacesShareAll(u, e.flow);
    SharedOutExactly(t, u.art[e.flow].total, SumAsked(u, e.flow, |t.faces|));
  }
}

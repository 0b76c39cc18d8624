/**
 How the rate recommended for a flow is split among the faces that ask for it:
 `getRatioByFace` and the target rates that `beforeSendData` writes.
 */
module RateShares {
  import opened Common
  import opened RateTable

  function RatioByFace(t: Table, id: FaceId): real {
    if t.total == 0 && |t.faces| > 0 then
      1.0 / |t.faces| as real
    else if !Has(t, id) then
      0.01
    else
      t.faces[Position(t.faces, id)].rate as real * 1.0 / t.total as real
  }

  /** The rate written into data that is sent to face `id`, truncated to an integer. */
  function TargetRate(t: Table, id: FaceId, mergeRate: Uint32): int {
    if |t.faces| <= 1 then mergeRate else (RatioByFace(t, id) * mergeRate as real).Floor
  }

  /** What the first `k` faces of the table are told, taken together. */
  ghost function SumTargets(t: Table, mergeRate: Uint32, k: nat): int
    requires k <= |t.faces|
  {
    if k == 0 then 0 else SumTargets(t, mergeRate, k - 1) + TargetRate(t, t.faces[k - 1].id, mergeRate)
  }

  /** A face counts with its rate, or, when the total reads zero, like any other. */
  ghost function Weight(t: Table, i: nat): nat
    requires i < |t.faces|
  {
    if t.total == 0 then 1 else t.faces[i].rate
  }

  ghost function SumWeights(t: Table, k: nat): nat
    requires k <= |t.faces|
  {
    if k == 0 then 0 else SumWeights(t, k - 1) + Weight(t, k - 1)
  }

  ghost function Whole(t: Table): nat {
    if t.total == 0 then |t.faces| else t.total
  }

  lemma {:induction false} SumWeightsIsSum(t: Table, k: nat)
    requires k <= |t.faces|
    ensures SumWeights(t, k) == if t.total == 0 then k else SumRates(t.faces[..k])
  {
    if k > 0 {
      SumWeightsIsSum(t, k - 1);
      assert t.faces[..k][..k - 1] == t.faces[..k - 1];
    }
  }

  lemma PositionIsUnique(t: Table, i: nat)
    requires DistinctIds(t.faces) && i < |t.faces|
    ensures Has(t, t.faces[i].id) && Position(t.faces, t.faces[i].id) == i
  {
    var k := Position(t.faces, t.faces[i].id);
    assert k == i by {
      assert t.faces[k].id == t.faces[i].id;
    }
  }

  lemma ShareOfMerge(w: real, whole: real, m: real)
    requires whole > 0.0
    ensures w * 1.0 / whole * m == w * (m / whole)
  {
    var a, b := w / whole, m / whole;
    assert a * whole == w && b * whole == m;
    assert a * m == a * (b * whole) == w * b;
  }

  /** The target is the whole part of the face's exact share of the merge rate. */
  lemma TargetIsShare(t: Table, mergeRate: Uint32, i: nat, c: real)
    requires DistinctIds(t.faces) && |t.faces| >= 2 && i < |t.faces|
    requires c == mergeRate as real / Whole(t) as real
    ensures TargetRate(t, t.faces[i].id, mergeRate) == Times(Weight(t, i), c).Floor
  {
    PositionIsUnique(t, i);
    TimesIsProduct(Weight(t, i), c);
    ShareOfMerge(Weight(t, i) as real, Whole(t) as real, mergeRate as real);
  }

  /** Truncation loses less than one unit for each face. */
  lemma {:induction false} TargetsNearShares(t: Table, mergeRate: Uint32, k: nat, c: real)
    requires DistinctIds(t.faces) && |t.faces| >= 2 && k <= |t.faces|
    requires c == mergeRate as real / Whole(t) as real
    ensures SumTargets(t, mergeRate, k) as real <= Times(SumWeights(t, k), c)
    ensures Times(SumWeights(t, k), c) <= SumTargets(t, mergeRate, k) as real + k as real
    ensures k > 0 ==> Times(SumWeights(t, k), c) < SumTargets(t, mergeRate, k) as real + k as real
  {
    if k > 0 {
      TargetsNearShares(t, mergeRate, k - 1, c);
      TargetIsShare(t, mergeRate, k - 1, c);
      Distribute(SumWeights(t, k - 1), Weight(t, k - 1), c);
    }
  }

  /**
   The rates add up to more than a 32-bit total can say, and what is left of the
   total is not zero; a total that reads zero shares equally, whatever the rates.
   */
  predicate Overflows(t: Table) {
    t.total != 0 && SumRates(t.faces) >= WRAP
  }

  lemma WholeBound(t: Table, mergeRate: Uint32, c: real)
    requires Consistent(t) && |t.faces| >= 2
    requires c == mergeRate as real / Whole(t) as real
    ensures var shares := Times(SumWeights(t, |t.faces|), c);
      if Overflows(t) then shares >= 2.0 * mergeRate as real else shares == mergeRate as real
  {
    var n, whole := |t.faces|, Whole(t);
    SumWeightsIsSum(t, n);
    assert t.faces[..n] == t.faces;
    WholeShare(whole, mergeRate, c);
    Mod32IsRemainder(SumRates(t.faces));
    if Overflows(t) {
      var more := SumRates(t.faces) - 2 * whole;
      Distribute(whole + whole, more, c);
      Distribute(whole, whole, c);
    }
  }

  lemma WholeShare(whole: nat, mergeRate: nat, c: real)
    requires whole > 0 && c == mergeRate as real / whole as real
    ensures c >= 0.0 && Times(whole, c) == mergeRate as real
  {
    TimesIsProduct(whole, c);
  }

  /**
   The targets handed to the n faces of a table add up to more than the merge
   rate less n, and to at most the merge rate exactly when the total has not
   overflowed, for any merge rate that leaves a unit for each face.
   */
  lemma SplitConservation(t: Table, mergeRate: Uint32)
    requires Consistent(t) && |t.faces| >= 2
    ensures SumTargets(t, mergeRate, |t.faces|) > mergeRate - |t.faces|
    ensures !Overflows(t) ==> SumTargets(t, mergeRate, |t.faces|) <= mergeRate
    ensures mergeRate >= |t.faces| ==>
      (SumTargets(t, mergeRate, |t.faces|) <= mergeRate <==> !Overflows(t))
  {
    var c := mergeRate as real / Whole(t) as real;
    TargetsNearShares(t, mergeRate, |t.faces|, c);
    WholeBound(t, mergeRate, c);
  }

  lemma TwoGreatestRates(t: Table)
    requires t == AddOrUpdate(AddOrUpdate(EMPTY, 1, WRAP - 1), 2, WRAP - 1)
    ensures Consistent(t) && |t.faces| == 2
    ensures SumRates(t.faces) == 2 * (WRAP - 1) && t.total == WRAP - 2
  {
    var one := AddOrUpdate(EMPTY, 1, WRAP - 1);
    OneGreatestRate();
    UpdateConsistent(one, 2, WRAP - 1);
    SumAfterUpdate(one, 2, WRAP - 1);
    Mod32IsRemainder(2 * (WRAP - 1));
  }

  lemma OneGreatestRate()
    ensures var t := AddOrUpdate(EMPTY, 1, WRAP - 1);
      && Consistent(t) && SumRates(t.faces) == WRAP - 1
      && |t.faces| == 1 && !Has(t, 2)
  {
    UpdateConsistent(EMPTY, 1, WRAP - 1);
    SumAfterUpdate(EMPTY, 1, WRAP - 1);
  }

  /** Two faces that each report the greatest rate make the total overflow. */
  lemma GreatestRatesOverflow(t: Table)
    requires t == AddOrUpdate(AddOrUpdate(EMPTY, 1, WRAP - 1), 2, WRAP - 1)
    ensures Consistent(t) && |t.faces| == 2 && SumTargets(t, 1000, 2) > 1000
  {
    TwoGreatestRates(t);
    SplitConservation(t, 1000);
  }
}

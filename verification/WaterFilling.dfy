/**
 The integer water-filling allocator: faces sorted by demand take, in turn, an
 equal part of what is left, or their demand where that is less.
 */
module WaterFilling {
  import opened RateTable

  function AllocationOf(f: Face): nat {
    f.allocation
  }

  function Min(a: nat, b: nat): nat {
    if a <= b then a else b
  }

  /** The turn of one face when `count` faces, itself included, share `remain`. */
  function Grant(remain: Uint32, count: nat, demand: Uint32): (granted: Uint32)
    requires count > 0
    ensures granted == Min(remain / count, demand) && granted <= remain
  {
    QuotientBound(remain, count);
    if remain / count <= demand then remain / count else demand
  }

  lemma Multiply(a: int, b: int, c: nat)
    requires a <= b
    ensures a * c <= b * c
  {
  }

  lemma QuotientBound(a: nat, n: nat)
    requires n > 0
    ensures a / n * n <= a < a / n * n + n
    ensures a / n <= a
  {
    var q, r := a / n, a % n;
    assert a == n * q + r;
    assert n * q == q * n;
    Multiply(1, n, q);
  }

  lemma QuotientAtLeast(a: nat, n: nat, t: nat)
    requires n > 0 && t * n <= a
    ensures t <= a / n
  {
    QuotientBound(a, n);
    if a / n < t {
      Multiply(a / n + 1, t, n);
    }
  }

  lemma QuotientAtMost(a: nat, n: nat, t: nat)
    requires n > 0 && a <= t * n
    ensures a / n <= t
  {
    QuotientBound(a, n);
    if a / n > t {
      Multiply(t + 1, a / n, n);
    }
  }

  function WaterFill(faces: seq<Face>, remain: Uint32): (filled: seq<Face>)
    ensures |filled| == |faces|
  {
    if faces == [] then [] else
      var g := Grant(remain, |faces|, faces[0].rate);
      [faces[0].(allocation := g)] + WaterFill(faces[1..], remain - g)
  }

  ghost predicate SortedByRate(faces: seq<Face>) {
    forall i, j :: 0 <= i < j < |faces| ==> faces[i].rate <= faces[j].rate
  }

  lemma InsertKeepsSorted(faces: seq<Face>, k: nat, f: Face)
    requires k <= |faces| && SortedByRate(faces)
    requires forall j :: 0 <= j < k ==> faces[j].rate <= f.rate
    requires k < |faces| ==> f.rate <= faces[k].rate
    ensures SortedByRate(faces[..k] + [f] + faces[k..])
  {
    var longer := faces[..k] + [f] + faces[k..];
    forall i, j | 0 <= i < j < |longer| ensures longer[i].rate <= longer[j].rate {
      assert longer[i] == if i < k then faces[i] else if i == k then f else faces[i - 1];
      assert longer[j] == if j < k then faces[j] else if j == k then f else faces[j - 1];
    }
  }

  /**
   The fair split: nobody gets more than asked for; all that is there, or all
   that is asked for, is given; and a face that gets less than it asked for is
   at most one unit behind any other.
   */
  ghost predicate MaxMinSplit(faces: seq<Face>, available: nat) {
    && (forall i :: 0 <= i < |faces| ==> faces[i].allocation <= faces[i].rate)
    && SumBy(AllocationOf, faces) == Min(available, SumRates(faces))
    && NoneEnvied(faces)
  }

  ghost predicate NoneEnvied(faces: seq<Face>) {
    forall i, j :: 0 <= i < |faces| && 0 <= j < |faces| && faces[i].allocation < faces[i].rate ==>
      faces[j].allocation <= faces[i].allocation + 1
  }

  lemma {:induction false} SumFront(weight: Face -> nat, faces: seq<Face>)
    requires faces != []
    ensures SumBy(weight, faces) == weight(faces[0]) + SumBy(weight, faces[1..])
  {
    var n := |faces| - 1;
    if n > 0 {
      SumFront(weight, faces[..n]);
      assert faces[..n][1..] == faces[1..][..n - 1];
    }
  }

  lemma {:induction false} SumAtLeast(faces: seq<Face>, low: nat)
    requires forall i :: 0 <= i < |faces| ==> low <= faces[i].rate
    ensures |faces| * low <= SumRates(faces)
  {
    if faces != [] {
      var n := |faces| - 1;
      SumAtLeast(faces[..n], low);
      assert |faces| * low == n * low + low;
    }
  }

  /** Filling only sets allocations, none above the demand. */
  lemma {:induction false} FillKeepsFaces(faces: seq<Face>, remain: Uint32)
    ensures var filled := WaterFill(faces, remain);
      forall i :: 0 <= i < |faces| ==>
        filled[i] == faces[i].(allocation := filled[i].allocation) && filled[i].allocation <= faces[i].rate
  {
    if faces != [] {
      FillKeepsFaces(faces[1..], remain - Grant(remain, |faces|, faces[0].rate));
    }
  }

  lemma {:induction false} FillKeepsRates(faces: seq<Face>, remain: Uint32)
    ensures SumRates(WaterFill(faces, remain)) == SumRates(faces)
  {
    FillKeepsFaces(faces, remain);
    SumOfSameRates(WaterFill(faces, remain), faces);
  }

  /** What a face does not take leaves no less for each of those after it. */
  lemma RestIsNoLess(remain: nat, n: nat, g: nat)
    requires n > 1 && g <= remain / n <= remain
    ensures remain / n <= (remain - g) / (n - 1)
  {
    var t := remain / n;
    QuotientBound(remain, n);
    assert t * (n - 1) == t * n - t;
    QuotientAtLeast(remain - g, n - 1, t);
  }

  /** After a turn of `remain / n`, the rest is at most one more for each. */
  lemma RestIsCapped(remain: nat, n: nat, cap: nat)
    requires n > 0 && remain <= cap * n
    ensures remain / n <= cap && remain - remain / n <= cap * (n - 1)
  {
    var t := remain / n;
    QuotientBound(remain, n);
    QuotientAtMost(remain, n, cap);
    if t == cap {
      assert cap * (n - 1) == cap * n - cap;
    } else {
      assert (t + 1) * (n - 1) == t * n - t + n - 1;
      Multiply(t + 1, cap, n - 1);
    }
  }

  lemma RestIsUsedUp(remain: nat, n: nat)
    requires n > 0
    ensures remain / n <= remain <= remain / n + (n - 1) * (remain / n + 1)
  {
    var t := remain / n;
    QuotientBound(remain, n);
    assert (n - 1) * (t + 1) == t * n - t + n - 1;
  }

  /** Past a face that is cut short, the others ask for more than there is. */
  lemma OthersUseUpRest(faces: seq<Face>, remain: Uint32)
    requires SortedByRate(faces) && faces != [] && remain / |faces| < faces[0].rate
    ensures remain - remain / |faces| <= SumRates(faces[1..])
  {
    SumAtLeast(faces[1..], remain / |faces| + 1);
    RestIsUsedUp(remain, |faces|);
  }

  /** Exactly the available rate is given away, unless less is asked for. */
  lemma SumOfTurn(faces: seq<Face>, remain: Uint32)
    requires faces != []
    ensures var g := Grant(remain, |faces|, faces[0].rate);
      SumBy(AllocationOf, WaterFill(faces, remain)) == g + SumBy(AllocationOf, WaterFill(faces[1..], remain - g))
  {
    var filled := WaterFill(faces, remain);
    SumFront(AllocationOf, filled);
    assert filled[1..] == WaterFill(faces[1..], remain - Grant(remain, |faces|, faces[0].rate));
  }

  lemma {:induction false} FillConserves(faces: seq<Face>, remain: Uint32)
    requires SortedByRate(faces)
    ensures SumBy(AllocationOf, WaterFill(faces, remain)) == Min(remain, SumRates(faces))
  {
    if faces != [] {
      var d := faces[0].rate;
      var g := Grant(remain, |faces|, d);
      FillConserves(faces[1..], remain - g);
      SumFront(RateOf, faces);
      SumOfTurn(faces, remain);
      if g < d {
        OthersUseUpRest(faces, remain);
      }
    }
  }

  lemma NextGrantIsNoLess(remain: Uint32, n: nat, demand: Uint32, next: Uint32)
    requires n > 1 && demand <= next
    ensures var g := Grant(remain, n, demand);
      g <= Grant(remain - g, n - 1, next)
  {
    QuotientBound(remain, n);
    RestIsNoLess(remain, n, Grant(remain, n, demand));
  }

  /** No face is left below the first one. */
  lemma {:induction false} FillIsAscending(faces: seq<Face>, remain: Uint32, j: nat)
    requires SortedByRate(faces) && j < |faces|
    ensures Grant(remain, |faces|, faces[0].rate) <= WaterFill(faces, remain)[j].allocation
  {
    if j > 0 {
      NextGrantIsNoLess(remain, |faces|, faces[0].rate, faces[1].rate);
      FillIsAscending(faces[1..], remain - Grant(remain, |faces|, faces[0].rate), j - 1);
    }
  }

  lemma {:induction false} FillIsCapped(faces: seq<Face>, remain: Uint32, cap: nat, j: nat)
    requires j < |faces| && cap > 0 && remain <= cap * |faces|
    requires forall i :: 0 <= i < |faces| ==> cap <= faces[i].rate
    ensures WaterFill(faces, remain)[j].allocation <= cap
  {
    RestIsCapped(remain, |faces|, cap);
    if j > 0 {
      FillIsCapped(faces[1..], remain - Grant(remain, |faces|, faces[0].rate), cap, j - 1);
    }
  }

  lemma {:induction false} FillIsFair(faces: seq<Face>, remain: Uint32, i: nat, j: nat)
    requires SortedByRate(faces) && i < |faces| && j < |faces|
    requires WaterFill(faces, remain)[i].allocation < faces[i].rate
    ensures WaterFill(faces, remain)[j].allocation <= WaterFill(faces, remain)[i].allocation + 1
  {
    var n := |faces|;
    var g := Grant(remain, n, faces[0].rate);
    if j == 0 {
      FillIsAscending(faces, remain, i);
    } else if i == 0 {
      RestIsUsedUp(remain, n);
      assert (n - 1) * (g + 1) == (g + 1) * (n - 1);
      FillIsCapped(faces[1..], remain - g, g + 1, j - 1);
    } else {
      FillIsFair(faces[1..], remain - g, i - 1, j - 1);
    }
  }

  /** Water filling in the order of the demands is the fair split. */
  lemma WaterFillIsMaxMin(faces: seq<Face>, available: Uint32)
    requires SortedByRate(faces)
    ensures MaxMinSplit(WaterFill(faces, available), available)
  {
    FillKeepsFaces(faces, available);
    FillKeepsRates(faces, available);
    FillConserves(faces, available);
    var filled := WaterFill(faces, available);
    forall i, j | 0 <= i < |filled| && 0 <= j < |filled| && filled[i].allocation < filled[i].rate
      ensures filled[j].allocation <= filled[i].allocation + 1
    {
      FillIsFair(faces, available, i, j);
    }
  }

  /** The rest of a filling is the filling of the rest. */
  lemma FillAfterTurn(faces: seq<Face>, k: nat, filled: seq<Face>, remain: Uint32)
    requires k < |faces| == |filled| && filled[k..] == WaterFill(faces[k..], remain)
    ensures var g := Grant(remain, |faces| - k, faces[k].rate);
      && filled[k] == faces[k].(allocation := g)
      && filled[k + 1..] == WaterFill(faces[k + 1..], remain - g)
  {
    assert faces[k..][1..] == faces[k + 1..];
    assert filled[k..][0] == filled[k] && filled[k..][1..] == filled[k + 1..];
  }

  lemma OneFaceSplit(faces: seq<Face>, available: Uint32)
    requires |faces| == 1 && faces[0].allocation == Min(faces[0].rate, available)
    ensures MaxMinSplit(faces, available)
  {
    assert SumBy(AllocationOf, faces[..0]) == 0 && SumBy(RateOf, faces[..0]) == 0;
  }

  /** Whether a split is fair does not depend on the order of the faces. */
  lemma MaxMinSplitPermutes(a: seq<Face>, b: seq<Face>, available: nat)
    requires multiset(a) == multiset(b) && MaxMinSplit(a, available)
    ensures MaxMinSplit(b, available)
  {
    SumOfPermutation(RateOf, a, b);
    SumOfPermutation(AllocationOf, a, b);
    forall i | 0 <= i < |b| ensures b[i] in a {
      assert b[i] in multiset(b);
    }
  }

  // ----- Splits of a table

  /** Splitting changes allocations and nothing else. */
  ghost predicate OnlyAllocations(t: Table, u: Table) {
    && |u.faces| == |t.faces| && u == t.(faces := u.faces)
    && forall i :: 0 <= i < |t.faces| ==> u.faces[i] == t.faces[i].(allocation := u.faces[i].allocation)
  }

  /**
   With nothing to give, or nobody to give to, the old allocations stay;
   otherwise the available rate is split fairly.
   */
  ghost predicate SplitOf(t: Table, u: Table) {
    && OnlyAllocations(t, u)
    && if t.available == 0 || t.faces == [] then u == t else MaxMinSplit(u.faces, t.available)
  }

  /** The split is renewed only when the available rate has moved by more than a fifth. */
  ghost predicate AvailableUpdated(t: Table, rate: Uint32, u: Table) {
    var moved := rate as real > 1.2 * t.available as real || (rate as real) < 0.8 * t.available as real;
    if moved then SplitOf(t.(available := rate), u) else u == t.(available := rate)
  }

  // ----- The 32-bit arithmetic of the source

  /** An unsigned value stored into a 32-bit `int`: large values come out negative. */
  function ToInt32(u: Uint32): int {
    if u < 0x8000_0000 then u else u - WRAP
  }

  /** Converting it back, as comparisons and assignments with unsigned operands do, loses nothing. */
  lemma Int32RoundTrip(u: Uint32)
    ensures Mod32(ToInt32(u)) == u
    ensures ToInt32(u) < 0 <==> u >= 0x8000_0000
  {
  }

  lemma Int32Subtraction(a: Uint32, u: Uint32)
    requires u <= a
    ensures Mod32(a - ToInt32(u)) == a - u
  {
  }
}

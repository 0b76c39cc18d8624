/**
 The rate table of one flow as a value: the faces in the order of `items`, the
 running 32-bit total, the next face to forward to, and the available rate.
 The class RateCollection is proved against the functions of this module.
 C++ doubles are read as real numbers.
 */
module RateTable {
  import opened Common

  const WRAP := 0x1_0000_0000

  type Uint32 = n: nat | n < WRAP

  /** Unsigned 32-bit arithmetic wraps around: the remainder, in a form the verifier unfolds sparingly. */
  function Mod32(n: int): Uint32
    decreases if n < 0 then WRAP - n else n
  {
    if n < 0 then Mod32(n + WRAP) else if n < WRAP then n else Mod32(n - WRAP)
  }

  lemma {:induction false} Mod32IsRemainder(n: int)
    ensures Mod32(n) == n % WRAP
    decreases if n < 0 then WRAP - n else n
  {
    if n < 0 {
      Mod32IsRemainder(n + WRAP);
    } else if n >= WRAP {
      Mod32IsRemainder(n - WRAP);
    }
  }

  type FaceId = nat

  datatype Face = Face(id: FaceId, rate: Uint32, ratio: real, balance: real, allocation: Uint32, received: Uint32)

  datatype Table = Table(faces: seq<Face>, total: Uint32, next: nat, available: Uint32)

  const EMPTY := Table([], 0, 0, 0)

  predicate Has(t: Table, id: FaceId) {
    exists i :: 0 <= i < |t.faces| && t.faces[i].id == id
  }

  ghost predicate DistinctIds(faces: seq<Face>) {
    forall i, j :: 0 <= i < j < |faces| ==> faces[i].id != faces[j].id
  }

  function RateOf(f: Face): nat {
    f.rate
  }

  function SumBy(weight: Face -> nat, faces: seq<Face>): nat {
    if faces == [] then 0 else SumBy(weight, faces[..|faces| - 1]) + weight(faces[|faces| - 1])
  }

  /** The true sum of the rates, which a 32-bit total may not be able to hold. */
  function SumRates(faces: seq<Face>): nat {
    SumBy(RateOf, faces)
  }

  /** Every face is listed once, and the total agrees with the rates modulo 2^32. */
  ghost predicate Consistent(t: Table) {
    DistinctIds(t.faces) && t.total == Mod32(SumRates(t.faces))
  }

  // ----- addOrUpdateRate

  function CurrentRatio(rate: Uint32, total: Uint32, count: nat): real
    requires count > 0
  {
    // the first quotient is an integer division
    if total < 1 then (1 / count) as real else rate as real * 1.0 / total as real
  }

  function Refresh(faces: seq<Face>, total: Uint32): (current: seq<Face>)
    ensures |current| == |faces|
    ensures forall i :: 0 <= i < |faces| ==>
      current[i] == faces[i].(ratio := CurrentRatio(faces[i].rate, total, |faces|))
  {
    seq(|faces|, i requires 0 <= i < |faces| =>
      faces[i].(ratio := CurrentRatio(faces[i].rate, total, |faces|)))
  }

  function Position(faces: seq<Face>, id: FaceId): (k: nat)
    requires exists i :: 0 <= i < |faces| && faces[i].id == id
    ensures k < |faces| && faces[k].id == id
  {
    if faces[|faces| - 1].id == id then |faces| - 1 else Position(faces[..|faces| - 1], id)
  }

  function Insert(faces: seq<Face>, id: FaceId, rate: Uint32): seq<Face> {
    faces + [Face(id, rate, 0.0, 0.0, 0, 1)]
  }

  function Change(faces: seq<Face>, id: FaceId, rate: Uint32): seq<Face>
    requires exists i :: 0 <= i < |faces| && faces[i].id == id
  {
    var k := Position(faces, id);
    faces[k := faces[k].(rate := rate, received := Mod32(faces[k].received + 1))]
  }

  /** The rate on record for a face, which a new face does not have. */
  function RecordedRate(t: Table, id: FaceId): Uint32 {
    if Has(t, id) then t.faces[Position(t.faces, id)].rate else 0
  }

  function AddOrUpdate(t: Table, id: FaceId, rate: Uint32): Table {
    var total := Mod32(t.total - RecordedRate(t, id) + rate);
    var faces := if Has(t, id) then Change(t.faces, id, rate) else Insert(t.faces, id, rate);
    var needUpdate := !Has(t, id) || rate != RecordedRate(t, id);
    t.(faces := if needUpdate then Refresh(faces, total) else faces, total := total)
  }

  /** The ratios say what share of the total each rate is. */
  ghost predicate Fresh(t: Table) {
    forall i :: 0 <= i < |t.faces| ==>
      t.faces[i].ratio == CurrentRatio(t.faces[i].rate, t.total, |t.faces|)
  }

  /** Up to date, a ratio is the rate over the total; with a total of zero all of it goes to a lone face. */
  lemma FreshExactly(t: Table)
    ensures Fresh(t) <==> forall i :: 0 <= i < |t.faces| ==>
      if t.total == 0 then t.faces[i].ratio == if |t.faces| == 1 then 1.0 else 0.0
      else t.faces[i].ratio * t.total as real == t.faces[i].rate as real
  {
    forall i | 0 <= i < |t.faces|
      ensures t.faces[i].ratio == CurrentRatio(t.faces[i].rate, t.total, |t.faces|) <==>
        if t.total == 0 then t.faces[i].ratio == if |t.faces| == 1 then 1.0 else 0.0
        else t.faces[i].ratio * t.total as real == t.faces[i].rate as real
    {
      if t.total > 0 {
        QuotientExactly(t.faces[i].ratio, t.faces[i].rate as real, t.total as real);
      }
    }
  }

  lemma QuotientExactly(q: real, a: real, b: real)
    requires b > 0.0
    ensures q == a * 1.0 / b <==> q * b == a
  {
    var r := a / b;
    assert r * b == a;
    if q * b == a {
      assert (q - r) * b == 0.0;
    }
  }

  // ----- Sums

  lemma {:induction false} SumOfSameRates(a: seq<Face>, b: seq<Face>)
    requires |a| == |b| && forall i :: 0 <= i < |a| ==> a[i].rate == b[i].rate
    ensures SumRates(a) == SumRates(b)
  {
    if a != [] {
      SumOfSameRates(a[..|a| - 1], b[..|b| - 1]);
    }
  }

  lemma {:induction false} SumAfterChange(faces: seq<Face>, k: nat, f: Face)
    requires k < |faces|
    ensures SumRates(faces[k := f]) == SumRates(faces) - faces[k].rate + f.rate
  {
    var n := |faces| - 1;
    if k < n {
      SumAfterChange(faces[..n], k, f);
      assert faces[k := f][..n] == faces[..n][k := f];
    } else {
      assert faces[k := f][..n] == faces[..n];
    }
  }

  lemma SumAppend(faces: seq<Face>, f: Face)
    ensures SumRates(faces + [f]) == SumRates(faces) + f.rate
  {
    assert (faces + [f])[..|faces|] == faces;
  }

  lemma {:induction false} SumOfPermutation(weight: Face -> nat, a: seq<Face>, b: seq<Face>)
    requires multiset(a) == multiset(b)
    ensures SumBy(weight, a) == SumBy(weight, b)
  {
    if a == [] {
      assert |multiset(b)| == 0;
    } else {
      var n := |a| - 1;
      assert a == a[..n] + [a[n]];
      assert a[n] in multiset(b);
      var k :| 0 <= k < |b| && b[k] == a[n];
      MultisetWithout(b, k);
      SumOfPermutation(weight, a[..n], b[..k] + b[k + 1..]);
      SumWithout(weight, b, k);
    }
  }

  lemma {:induction false} SumWithout(weight: Face -> nat, faces: seq<Face>, k: nat)
    requires k < |faces|
    ensures SumBy(weight, faces) == SumBy(weight, faces[..k] + faces[k + 1..]) + weight(faces[k])
  {
    var n := |faces| - 1;
    if k == n {
      assert faces[..k] + faces[k + 1..] == faces[..n];
    } else {
      SumWithout(weight, faces[..n], k);
      assert (faces[..k] + faces[k + 1..])[..n - 1] == faces[..n][..k] + faces[..n][k + 1..];
    }
  }

  lemma Mod32Shift(sum: int, d: int, shifted: int)
    requires shifted == sum + d
    ensures Mod32(Mod32(sum) + d) == Mod32(shifted)
  {
    Mod32IsRemainder(sum);
    Mod32IsRemainder(Mod32(sum) + d);
    Mod32IsRemainder(shifted);
  }

  lemma Mod32Small(n: nat)
    requires n < WRAP
    ensures Mod32(n) == n
  {
  }

  lemma SumAfterUpdate(t: Table, id: FaceId, rate: Uint32)
    ensures SumRates(AddOrUpdate(t, id, rate).faces) == SumRates(t.faces) - RecordedRate(t, id) + rate
  {
    var u := AddOrUpdate(t, id, rate);
    if !Has(t, id) {
      var longer := Insert(t.faces, id, rate);
      SumAppend(t.faces, longer[|t.faces|]);
      SumOfSameRates(u.faces, longer);
    } else {
      var k := Position(t.faces, id);
      var changed := Change(t.faces, id, rate);
      SumAfterChange(t.faces, k, changed[k]);
      SumOfSameRates(u.faces, changed);
    }
  }

  lemma UpdateConsistent(t: Table, id: FaceId, rate: Uint32)
    requires Consistent(t)
    ensures Consistent(AddOrUpdate(t, id, rate))
  {
    var u, d := AddOrUpdate(t, id, rate), rate - RecordedRate(t, id);
    SumAfterUpdate(t, id, rate);
    Mod32Shift(SumRates(t.faces), d, SumRates(u.faces));
    assert u.total == Mod32(t.total + d);
    assert DistinctIds(u.faces);
  }

  lemma UpdateFresh(t: Table, id: FaceId, rate: Uint32)
    requires Fresh(t)
    ensures Fresh(AddOrUpdate(t, id, rate))
  {
    if Has(t, id) && rate == RecordedRate(t, id) {
      assert AddOrUpdate(t, id, rate).total == t.total;
    }
  }

  // ----- doPeriodicCleaning

  /** What the erasing form keeps: the faces heard of, their counters back at zero. */
  function Survivors(faces: seq<Face>): seq<Face> {
    if faces == [] then [] else
      var f, before := faces[|faces| - 1], Survivors(faces[..|faces| - 1]);
      if f.received == 0 then before else before + [f.(received := 0)]
  }

  function SilentRateOf(f: Face): nat {
    if f.received == 0 then f.rate else 0
  }

  function SilentRates(faces: seq<Face>): nat {
    SumBy(SilentRateOf, faces)
  }

  /**
   The erasing form rebuilds the list from the hash index as soon as a face is
   dropped, so the order of what is left is not known.
   */
  ghost predicate Erased(t: Table, u: Table) {
    && multiset(u.faces) == multiset(Survivors(t.faces))
    && DistinctIds(u.faces)
    && u.total == Mod32(t.total - SilentRates(t.faces))
    && u.next == t.next && u.available == t.available
  }

  /** The other form resets a silent face to a default rate. */
  function ResetFace(f: Face, defaultRate: Uint32): Face {
    f.(rate := if f.received == 0 then defaultRate else f.rate, received := 0)
  }

  ghost predicate Reset(t: Table, defaultRate: Uint32, u: Table) {
    && |u.faces| == |t.faces|
    && (forall i :: 0 <= i < |t.faces| ==>
          u.faces[i] == ResetFace(t.faces[i], defaultRate).(ratio := u.faces[i].ratio))
    && u.total == Mod32(t.total - SumRates(t.faces) + SumRates(u.faces))
    && (Fresh(t) ==> Fresh(u))
    && u.next == t.next && u.available == t.available
  }

  lemma {:induction false} SurvivorsSum(faces: seq<Face>)
    ensures SumRates(faces) == SumRates(Survivors(faces)) + SilentRates(faces)
  {
    if faces != [] {
      var n := |faces| - 1;
      SurvivorsSum(faces[..n]);
      if faces[n].received != 0 {
        SumAppend(Survivors(faces[..n]), faces[n].(received := 0));
      }
    }
  }

  lemma {:induction false} SurvivorMembers(faces: seq<Face>, g: Face)
    ensures g in Survivors(faces) <==>
      exists i :: 0 <= i < |faces| && faces[i].received != 0 && g == faces[i].(received := 0)
  {
    if faces != [] {
      var n := |faces| - 1;
      SurvivorMembers(faces[..n], g);
      if i :| 0 <= i < n && faces[i].received != 0 && g == faces[i].(received := 0) {
        assert faces[..n][i] == faces[i];
      }
    }
  }

  lemma EraseConsistent(t: Table, u: Table)
    requires Consistent(t) && Erased(t, u)
    ensures Consistent(u)
  {
    SurvivorsSum(t.faces);
    SumOfPermutation(RateOf, u.faces, Survivors(t.faces));
    Mod32Shift(SumRates(t.faces), 0 - SilentRates(t.faces), SumRates(u.faces));
  }

  // ----- Whole runs of one table

  /** Serving traffic moves balances and allocations, and nothing else. */
  ghost predicate OnlyServes(t: Table, u: Table) {
    && |u.faces| == |t.faces| && u.total == t.total
    && forall i :: 0 <= i < |t.faces| ==>
         u.faces[i] == t.faces[i].(balance := u.faces[i].balance, allocation := u.faces[i].allocation)
  }

  datatype Event = Update(id: FaceId, rate: Uint32) | EraseSilent | ResetSilent(defaultRate: Uint32) | Serve

  ghost predicate Step(t: Table, e: Event, u: Table) {
    match e
    case Update(id, rate) => u == AddOrUpdate(t, id, rate)
    case EraseSilent => Erased(t, u)
    case ResetSilent(defaultRate) => Reset(t, defaultRate, u)
    case Serve => OnlyServes(t, u)
  }

  ghost predicate Run(tables: seq<Table>, events: seq<Event>) {
    && |tables| == |events| + 1
    && tables[0] == EMPTY
    && forall k :: 0 <= k < |events| ==> Step(tables[k], events[k], tables[k + 1])
  }

  /** The count of a face's updates, after one more event. */
  function UpdatesAfter(before: nat, e: Event, id: FaceId): nat {
    match e
    case Update(i, _) => if i == id then before + 1 else before
    case EraseSilent => 0
    case ResetSilent(_) => 0
    case Serve => before
  }

  /** How often the face was updated since the last cleaning of either form. */
  function UpdatesSince(events: seq<Event>, id: FaceId): nat {
    if events == [] then 0 else
      var n := |events| - 1;
      UpdatesAfter(UpdatesSince(events[..n], id), events[n], id)
  }

  /** The counters tell, modulo 2^32, how often each face was heard of. */
  ghost predicate Counted(t: Table, events: seq<Event>) {
    && (forall i :: 0 <= i < |t.faces| ==> t.faces[i].received == Mod32(UpdatesSince(events, t.faces[i].id)))
    && (forall id :: !Has(t, id) ==> UpdatesSince(events, id) == 0)
  }

  lemma StepConsistent(t: Table, e: Event, u: Table)
    requires Consistent(t) && Step(t, e, u)
    ensures Consistent(u)
  {
    match e
    case Update(id, rate) => UpdateConsistent(t, id, rate);
    case EraseSilent => EraseConsistent(t, u);
    case ResetSilent(_) => Mod32Shift(SumRates(t.faces), SumRates(u.faces) - SumRates(t.faces), SumRates(u.faces));
    case Serve => SumOfSameRates(t.faces, u.faces);
  }

  lemma UpdateKeepsFaces(t: Table, id: FaceId, rate: Uint32, x: FaceId)
    ensures Has(AddOrUpdate(t, id, rate), x) <==> Has(t, x) || x == id
  {
    var u := AddOrUpdate(t, id, rate);
    if Has(t, x) {
      var i :| 0 <= i < |t.faces| && t.faces[i].id == x;
      assert u.faces[i].id == x;
    }
    if Has(t, id) {
      assert u.faces[Position(t.faces, id)].id == id;
      if Has(u, x) {
        var i :| 0 <= i < |u.faces| && u.faces[i].id == x;
        assert t.faces[i].id == x;
      }
    } else {
      assert u.faces[|t.faces|].id == id;
    }
  }

  lemma UpdateCounted(t: Table, events: seq<Event>, id: FaceId, rate: Uint32)
    requires Consistent(t) && Counted(t, events)
    ensures Counted(AddOrUpdate(t, id, rate), events + [Update(id, rate)])
  {
    var u, more := AddOrUpdate(t, id, rate), events + [Update(id, rate)];
    assert more[..|events|] == events;
    forall i | 0 <= i < |u.faces|
      ensures u.faces[i].received == Mod32(UpdatesSince(more, u.faces[i].id))
    {
      Mod32Shift(UpdatesSince(events, id), 1, UpdatesSince(events, id) + 1);
    }
    forall x | !Has(u, x) ensures UpdatesSince(more, x) == 0 {
      UpdateKeepsFaces(t, id, rate, x);
    }
  }

  lemma EraseCounted(t: Table, events: seq<Event>, u: Table)
    requires Erased(t, u)
    ensures Counted(u, events + [EraseSilent])
  {
    assert (events + [EraseSilent])[..|events|] == events;
    forall i | 0 <= i < |u.faces| ensures u.faces[i].received == 0 {
      assert u.faces[i] in multiset(u.faces);
      SurvivorMembers(t.faces, u.faces[i]);
    }
  }

  lemma ServeCounted(t: Table, events: seq<Event>, u: Table)
    requires Counted(t, events) && OnlyServes(t, u)
    ensures Counted(u, events + [Serve])
  {
    assert (events + [Serve])[..|events|] == events;
    forall id | Has(t, id) ensures Has(u, id) {
      var i :| 0 <= i < |t.faces| && t.faces[i].id == id;
      assert u.faces[i].id == id;
    }
  }

  lemma StepCounted(t: Table, events: seq<Event>, e: Event, u: Table)
    requires Consistent(t) && Counted(t, events) && Step(t, e, u)
    ensures Counted(u, events + [e])
  {
    match e
    case Update(id, rate) => UpdateCounted(t, events, id, rate);
    case EraseSilent => EraseCounted(t, events, u);
    case ResetSilent(_) => assert (events + [e])[..|events|] == events;
    case Serve => ServeCounted(t, events, u);
  }

  lemma RunPrefix(tables: seq<Table>, events: seq<Event>)
    requires Run(tables, events) && events != []
    ensures Run(tables[..|events|], events[..|events| - 1])
  {
  }

  /**
   On every run, however updates, cleanings and traffic alternate, the total is
   the sum of the rates modulo 2^32 and the counters count since the last cleaning.
   */
  lemma {:induction false} RunInvariant(tables: seq<Table>, events: seq<Event>)
    requires Run(tables, events)
    ensures Consistent(tables[|events|]) && Counted(tables[|events|], events)
    decreases |events|
  {
    if events != [] {
      var n := |events| - 1;
      RunPrefix(tables, events);
      RunInvariant(tables[..n + 1], events[..n]);
      StepConsistent(tables[n], events[n], tables[n + 1]);
      StepCounted(tables[n], events[..n], events[n], tables[n + 1]);
      assert events == events[..n] + [events[n]];
    }
  }

  lemma EraseKeepsHeardFaces(t: Table, u: Table, id: FaceId)
    requires Erased(t, u)
    ensures Has(u, id) <==> exists i :: 0 <= i < |t.faces| && t.faces[i].id == id && t.faces[i].received != 0
  {
    if Has(u, id) {
      var i :| 0 <= i < |u.faces| && u.faces[i].id == id;
      assert u.faces[i] in multiset(u.faces);
      SurvivorMembers(t.faces, u.faces[i]);
    }
    if i :| 0 <= i < |t.faces| && t.faces[i].id == id && t.faces[i].received != 0 {
      SurvivorMembers(t.faces, t.faces[i].(received := 0));
      assert t.faces[i].(received := 0) in multiset(u.faces);
    }
  }

  /**
   An erasing cleaning keeps a face exactly when the number of its updates since
   the cleaning before is not a multiple of 2^32.
   */
  lemma EraseKeepsUpdatedFaces(tables: seq<Table>, events: seq<Event>, id: FaceId)
    requires Run(tables, events) && events != [] && events[|events| - 1] == EraseSilent
    ensures Has(tables[|events|], id) <==> Mod32(UpdatesSince(events[..|events| - 1], id)) != 0
    ensures UpdatesSince(events[..|events| - 1], id) < WRAP ==>
      (Has(tables[|events|], id) <==> UpdatesSince(events[..|events| - 1], id) > 0)
  {
    var n := |events| - 1;
    RunPrefix(tables, events);
    RunInvariant(tables[..n + 1], events[..n]);
    EraseKeepsHeardFaces(tables[n], tables[n + 1], id);
    var count := UpdatesSince(events[..n], id);
    if count < WRAP {
      Mod32Small(count);
    }
  }

  ghost predicate NeverErases(events: seq<Event>) {
    forall k :: 0 <= k < |events| ==> events[k] != EraseSilent
  }

  lemma StepKeepsFaces(t: Table, e: Event, u: Table, id: FaceId)
    requires Step(t, e, u) && e != EraseSilent && Has(t, id)
    ensures Has(u, id)
  {
    if e.Update? {
      UpdateKeepsFaces(t, e.id, e.rate, id);
    } else {
      var i :| 0 <= i < |t.faces| && t.faces[i].id == id;
      assert u.faces[i].id == id;
    }
  }

  lemma StepFresh(t: Table, e: Event, u: Table)
    requires Step(t, e, u) && e != EraseSilent && Fresh(t)
    ensures Fresh(u)
  {
    if e.Update? {
      UpdateFresh(t, e.id, e.rate);
    }
  }

  /**
   A table that is never erased, as those of recommended rates are, keeps every
   face it has had, and its ratios are always those of the current rates.
   */
  lemma {:induction false} NeverErasedRun(tables: seq<Table>, events: seq<Event>, k: nat, id: FaceId)
    requires Run(tables, events) && NeverErases(events) && k <= |events|
    ensures Fresh(tables[|events|])
    ensures Has(tables[k], id) ==> Has(tables[|events|], id)
    decreases |events|
  {
    if events != [] {
      var n := |events| - 1;
      RunPrefix(tables, events);
      NeverErasedRun(tables[..n + 1], events[..n], if k <= n then k else n, id);
      StepFresh(tables[n], events[n], tables[n + 1]);
      if Has(tables[n], id) {
        StepKeepsFaces(tables[n], events[n], tables[n + 1], id);
      }
    }
  }

  /**
   A resetting cleaning gives the default rate to exactly the faces not heard
   of since the cleaning before, and leaves the other rates alone.
   */
  lemma ResetAfterSilence(tables: seq<Table>, events: seq<Event>, i: nat)
    requires Run(tables, events) && events != [] && events[|events| - 1].ResetSilent?
    requires i < |tables[|events| - 1].faces|
    ensures var n := |events| - 1;
      var t, u := tables[n], tables[n + 1];
      && |u.faces| == |t.faces| && u.faces[i].id == t.faces[i].id
      && u.faces[i].rate == if Mod32(UpdatesSince(events[..n], t.faces[i].id)) == 0
                            then events[n].defaultRate else t.faces[i].rate
  {
    var n := |events| - 1;
    RunPrefix(tables, events);
    RunInvariant(tables[..n + 1], events[..n]);
  }

  /** The credit and the allocation of a face. */
  ghost predicate SameCredit(f: Face, g: Face) {
    g.id == f.id && g.balance == f.balance && g.allocation == f.allocation
  }

  lemma ErasedCredit(t: Table, u: Table, j: nat)
    requires Erased(t, u) && j < |u.faces|
    ensures exists i :: 0 <= i < |t.faces| && SameCredit(t.faces[i], u.faces[j])
  {
    assert u.faces[j] in multiset(u.faces);
    SurvivorMembers(t.faces, u.faces[j]);
    var i :| 0 <= i < |t.faces| && t.faces[i].received != 0 && u.faces[j] == t.faces[i].(received := 0);
    assert SameCredit(t.faces[i], u.faces[j]);
  }

  /**
   Only traffic moves credit: whatever rates are announced and whichever faces are
   cleaned, a face keeps what it has, and a new one starts with nothing.  Without
   an erasing the faces also keep their places, and the next call resumes where it would have.
   */
  lemma StepKeepsCredit(t: Table, e: Event, u: Table, j: nat)
    requires Step(t, e, u) && !e.Serve? && j < |u.faces|
    ensures u.next == t.next && u.available == t.available
    ensures (exists i :: 0 <= i < |t.faces| && SameCredit(t.faces[i], u.faces[j]))
         || (!Has(t, u.faces[j].id) && u.faces[j].balance == 0.0 && u.faces[j].allocation == 0)
    ensures e != EraseSilent ==> if j < |t.faces| then SameCredit(t.faces[j], u.faces[j]) else !Has(t, u.faces[j].id)
  {
    if e == EraseSilent {
      ErasedCredit(t, u, j);
    } else if j < |t.faces| {
      assert SameCredit(t.faces[j], u.faces[j]);
    }
  }

  // ----- Halfway through the loops of a cleaning

  /**
   The resetting loop: the faces of `done` have been dealt with, and any other
   one may just have been given the default rate.
   */
  ghost predicate Resetting(t: Table, d: Uint32, done: set<FaceId>, u: Table) {
    && |u.faces| == |t.faces|
    && (forall i :: 0 <= i < |t.faces| ==> FaceResetting(t.faces[i], d, t.faces[i].id in done, u.faces[i]))
    && u.total == Mod32(t.total - SumRates(t.faces) + SumRates(u.faces))
    && (Fresh(t) ==> Fresh(u))
    && u.next == t.next && u.available == t.available
  }

  ghost predicate FaceResetting(f: Face, d: Uint32, done: bool, g: Face) {
    && g == f.(rate := g.rate, received := g.received, ratio := g.ratio)
    && if done then g.rate == ResetFace(f, d).rate && g.received == 0
       else (g.rate == f.rate && g.received == f.received) || (f.received == 0 && g.rate == d && g.received == 1)
  }

  lemma ResettingStarts(t: Table, d: Uint32)
    requires Consistent(t)
    ensures Resetting(t, d, {}, t)
  {
  }

  lemma ResettingUpdates(t: Table, d: Uint32, done: set<FaceId>, u: Table, k: nat)
    requires DistinctIds(t.faces) && Resetting(t, d, done, u)
    requires k < |u.faces| && u.faces[k].id !in done && u.faces[k].received == 0
    ensures Resetting(t, d, done, AddOrUpdate(u, u.faces[k].id, d))
  {
    var id := u.faces[k].id;
    var v := AddOrUpdate(u, id, d);
    assert Has(u, id) && Position(u.faces, id) == k by {
      var p := Position(u.faces, id);
      assert t.faces[p].id == t.faces[k].id;
    }
    SumAfterUpdate(u, id, d);
    Mod32Shift(t.total - SumRates(t.faces) + SumRates(u.faces), d - u.faces[k].rate,
               t.total - SumRates(t.faces) + SumRates(v.faces));
    UpdateFreshIf(t, u, id, d);
    assert forall i :: 0 <= i < |t.faces| ==> FaceResetting(t.faces[i], d, t.faces[i].id in done, v.faces[i]);
  }

  lemma UpdateFreshIf(t: Table, u: Table, id: FaceId, d: Uint32)
    requires Fresh(t) ==> Fresh(u)
    ensures Fresh(t) ==> Fresh(AddOrUpdate(u, id, d))
  {
    if Fresh(t) {
      UpdateFresh(u, id, d);
    }
  }

  lemma ResettingAdvances(t: Table, d: Uint32, done: set<FaceId>, u: Table, k: nat, v: Table)
    requires DistinctIds(t.faces) && Resetting(t, d, done, u)
    requires k < |u.faces| && u.faces[k].received != 0
    requires v == u.(faces := u.faces[k := u.faces[k].(received := 0)])
    ensures Resetting(t, d, done + {u.faces[k].id}, v)
  {
    SumOfSameRates(u.faces, v.faces);
  }

  lemma ResettingEnds(t: Table, d: Uint32, done: set<FaceId>, u: Table)
    requires Resetting(t, d, done, u)
    requires forall i :: 0 <= i < |t.faces| ==> t.faces[i].id in done
    ensures Reset(t, d, u)
  {
  }

  lemma {:induction false} SurvivorsDistinct(faces: seq<Face>)
    requires DistinctIds(faces)
    ensures DistinctIds(Survivors(faces))
  {
    if faces != [] {
      var n := |faces| - 1;
      SurvivorsDistinct(faces[..n]);
      forall k | 0 <= k < |Survivors(faces[..n])|
        ensures Survivors(faces[..n])[k].id != faces[n].id
      {
        SurvivorMembers(faces[..n], Survivors(faces[..n])[k]);
      }
    }
  }

  /** A list of the survivors in any order. */
  lemma SurvivorsInAnyOrder(faces: seq<Face>, kept: seq<Face>)
    requires DistinctIds(faces) && DistinctIds(kept)
    requires forall i :: 0 <= i < |kept| ==> kept[i] in Survivors(faces)
    requires forall i :: 0 <= i < |faces| && faces[i].received != 0 ==> faces[i].(received := 0) in kept
    ensures multiset(kept) == multiset(Survivors(faces))
  {
    SurvivorsDistinct(faces);
    forall g ensures g in ToSet(kept) <==> g in ToSet(Survivors(faces)) {
      SurvivorMembers(faces, g);
    }
    DistinctMultisets(kept, Survivors(faces));
  }

  // ----- The erasing loop, in whatever order it meets the faces

  ghost predicate Listed(t: Table, order: seq<FaceId>) {
    forall j :: 0 <= j < |order| ==> Has(t, order[j])
  }

  /** What the first `n` entries met have taken off the total. */
  ghost function MetRates(t: Table, order: seq<FaceId>, n: nat): nat
    requires Listed(t, order) && n <= |order|
  {
    SumBy(SilentRateOf, Met(t, order, n))
  }

  ghost function Met(t: Table, order: seq<FaceId>, n: nat): (met: seq<Face>)
    requires Listed(t, order) && n <= |order|
    ensures |met| == n
    ensures forall j :: 0 <= j < n ==> met[j] == t.faces[Position(t.faces, order[j])]
  {
    if n == 0 then [] else Met(t, order, n - 1) + [t.faces[Position(t.faces, order[n - 1])]]
  }

  lemma MetOneMore(t: Table, order: seq<FaceId>, n: nat)
    requires Listed(t, order) && n < |order|
    ensures MetRates(t, order, n + 1) == MetRates(t, order, n) + SilentRateOf(t.faces[Position(t.faces, order[n])])
  {
    assert Met(t, order, n + 1)[..n] == Met(t, order, n);
  }

  /** The total without the silent faces met, after one more. */
  lemma TotalOneMore(t: Table, order: seq<FaceId>, n: nat, before: int, after: int)
    requires Listed(t, order) && n < |order|
    requires before == Mod32(t.total - MetRates(t, order, n))
    requires after == Mod32(before - SilentRateOf(t.faces[Position(t.faces, order[n])]))
    ensures after == Mod32(t.total - MetRates(t, order, n + 1))
  {
    MetOneMore(t, order, n);
    Mod32Shift(t.total - MetRates(t, order, n), 0 - SilentRateOf(t.faces[Position(t.faces, order[n])]),
               t.total - MetRates(t, order, n + 1));
  }

  lemma AllFacesMet(t: Table, order: seq<FaceId>)
    requires DistinctIds(t.faces) && Distinct(order) && Listed(t, order)
    requires forall i :: 0 <= i < |t.faces| ==> t.faces[i].id in order
    ensures MetRates(t, order, |order|) == SilentRates(t.faces)
  {
    var met := Met(t, order, |order|);
    forall f ensures f in ToSet(met) <==> f in ToSet(t.faces) {
      if f in t.faces {
        var i :| 0 <= i < |t.faces| && t.faces[i] == f;
        var j :| 0 <= j < |order| && order[j] == t.faces[i].id;
        assert met[j].id == f.id;
      }
    }
    DistinctMultisets(met, t.faces);
    SumOfPermutation(SilentRateOf, met, t.faces);
  }
}

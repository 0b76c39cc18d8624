/**
 The face selector: deficit round robin over the faces of a table.  A sweep
 starts by topping up every balance below a cap, and the selector starts
 another sweep whenever nobody could afford the data and somebody might later.
 */
module DeficitRoundRobin {
  import opened Common
  import opened RateTable

  const CREDIT_CAP := 100000.0
  const MIN_RATIO := 0.00001      // 10e-6

  /** The credit of one top-up: the share of MTU_QUANTA. */
  function Quantum(f: Face): real {
    f.ratio * 16000.0
  }

  function TopUpFace(f: Face): Face {
    if f.balance < CREDIT_CAP then f.(balance := f.balance + Quantum(f)) else f
  }

  function TopUp(faces: seq<Face>): (richer: seq<Face>)
    ensures |richer| == |faces|
    ensures forall i :: 0 <= i < |faces| ==> richer[i] == TopUpFace(faces[i])
  {
    seq(|faces|, i requires 0 <= i < |faces| => TopUpFace(faces[i]))
  }

  predicate Affords(f: Face, size: nat, except: FaceId) {
    f.balance > size as real && f.id != except
  }

  /** A face that the selector does not wait for. */
  predicate Idle(f: Face, except: FaceId) {
    f.id == except || f.ratio < MIN_RATIO
  }

  /** The first face from `next` on that can afford the data. */
  function Scan(faces: seq<Face>, next: nat, size: nat, except: FaceId): (k: nat)
    requires next <= |faces|
    ensures next <= k <= |faces|
    ensures k < |faces| ==> Affords(faces[k], size, except)
    ensures forall j :: next <= j < k ==> !Affords(faces[j], size, except)
    decreases |faces| - next
  {
    if next == |faces| || Affords(faces[next], size, except) then next else Scan(faces, next + 1, size, except)
  }

  lemma ScanFinds(faces: seq<Face>, next: nat, size: nat, except: FaceId, k: nat)
    requires next <= k <= |faces| && (k == |faces| || Affords(faces[k], size, except))
    requires forall j :: next <= j < k ==> !Affords(faces[j], size, except)
    ensures Scan(faces, next, size, except) == k
  {
  }

  /** The faces passed over between two positions that nobody waits for. */
  function IdleCount(faces: seq<Face>, lo: nat, hi: nat, except: FaceId): (n: nat)
    requires lo <= hi <= |faces|
    ensures n <= hi - lo
    ensures n == hi - lo <==> forall j :: lo <= j < hi ==> Idle(faces[j], except)
  {
    if lo == hi then 0 else
      IdleCount(faces, lo, hi - 1, except) + if Idle(faces[hi - 1], except) then 1 else 0
  }

  function StartSweep(t: Table): (s: Table)
    ensures s.next <= |s.faces|
  {
    if t.next >= |t.faces| then t.(faces := TopUp(t.faces), next := 0) else t
  }

  function Charge(faces: seq<Face>, k: nat, size: nat): (charged: seq<Face>)
    requires k <= |faces|
    ensures |charged| == |faces|
  {
    if k == |faces| then faces else faces[k := faces[k].(balance := faces[k].balance - size as real)]
  }

  datatype Pass = Pass(table: Table, face: FaceId, again: bool)

  /** One activation of `selectNextFace`, up to its recursive call. */
  function OnePass(t: Table, size: nat, except: FaceId): Pass {
    var s := StartSweep(t);
    var k := Scan(s.faces, s.next, size, except);
    var face := if k < |s.faces| then s.faces[k].id else 0;
    var idle := IdleCount(s.faces, s.next, k, except);
    Pass(s.(faces := Charge(s.faces, k, size), next := k), face, face == 0 && |s.faces| - idle > 0)
  }

  // ----- When the selector comes to an end

  /** Face 0 stands for "no face"; ratios are shares and never negative. */
  ghost predicate Proper(t: Table) {
    forall i :: 0 <= i < |t.faces| ==> t.faces[i].id != 0 && t.faces[i].ratio >= 0.0
  }

  function Ceiling(x: real): int {
    -((-x).Floor)
  }

  /** How many top-ups a face still gets before its balance reaches the cap. */
  function TopUpsLeft(f: Face): nat {
    if f.balance >= CREDIT_CAP || Quantum(f) <= 0.0 then 0 else CeilingOfGap(f)
  }

  function CeilingOfGap(f: Face): (n: nat)
    requires f.balance < CREDIT_CAP && Quantum(f) > 0.0
    ensures n > 0
  {
    GapPositive(CREDIT_CAP - f.balance, Quantum(f));
    Ceiling((CREDIT_CAP - f.balance) / Quantum(f))
  }

  lemma GapPositive(a: real, b: real)
    requires a > 0.0 && b > 0.0
    ensures a / b > 0.0
  {
  }

  /** The most credit the face can ever hold, if nothing is served to it. */
  ghost function Peak(f: Face): real {
    f.balance + Times(TopUpsLeft(f), Quantum(f))
  }

  /**
   Nobody is waited for, or somebody other than the excluded face can save
   enough credit.  The guard of the recursive call asks for neither.
   */
  ghost predicate Settles(t: Table, size: nat, except: FaceId) {
    || (forall i :: 0 <= i < |t.faces| ==> Idle(t.faces[i], except))
    || (exists i :: 0 <= i < |t.faces| && CanSave(t.faces[i], size, except))
  }

  ghost predicate CanSave(f: Face, size: nat, except: FaceId) {
    f.id != except && Peak(f) > size as real
  }

  lemma QuotientLessOne(a: real, b: real)
    requires b > 0.0
    ensures (a - b) / b == a / b - 1.0
  {
    var r := a / b;
    assert r * b == a;
    assert (r - 1.0) * b == a - b;
    var y := (a - b) / b;
    assert y * b == a - b;
    CancelFactor(y, r - 1.0, b);
  }

  lemma CancelFactor(x: real, y: real, b: real)
    requires b > 0.0 && x * b == y * b
    ensures x == y
  {
    assert (x - y) * b == 0.0;
  }

  lemma GapShrinks(f: Face)
    requires f.balance < CREDIT_CAP && Quantum(f) > 0.0
    ensures TopUpsLeft(f) == TopUpsLeft(TopUpFace(f)) + 1
  {
    var q, gap := Quantum(f), CREDIT_CAP - f.balance;
    var g := TopUpFace(f);
    QuotientLessOne(gap, q);
    if g.balance >= CREDIT_CAP {
      assert gap / q <= 1.0;
      GapPositive(gap, q);
    } else {
      assert CREDIT_CAP - g.balance == gap - q;
    }
  }

  lemma TopUpKeepsPeak(f: Face)
    requires f.ratio >= 0.0
    ensures Peak(TopUpFace(f)) == Peak(f) >= f.balance
    ensures TopUpsLeft(TopUpFace(f)) <= TopUpsLeft(f)
    ensures TopUpFace(f).balance >= f.balance
  {
    if f.balance < CREDIT_CAP && Quantum(f) > 0.0 {
      GapShrinks(f);
    }
  }

  /** The credit that top-ups can still add, counted in top-ups. */
  function TotalTopUpsLeft(faces: seq<Face>): nat {
    if faces == [] then 0 else TotalTopUpsLeft(faces[..|faces| - 1]) + TopUpsLeft(faces[|faces| - 1])
  }

  lemma {:induction false} TopUpUsesCredit(faces: seq<Face>, k: nat)
    requires forall i :: 0 <= i < |faces| ==> faces[i].ratio >= 0.0
    ensures TotalTopUpsLeft(TopUp(faces)) <= TotalTopUpsLeft(faces)
    ensures k < |faces| && TopUpsLeft(TopUpFace(faces[k])) < TopUpsLeft(faces[k]) ==>
      TotalTopUpsLeft(TopUp(faces)) < TotalTopUpsLeft(faces)
  {
    if faces != [] {
      var n := |faces| - 1;
      TopUpUsesCredit(faces[..n], k);
      TopUpKeepsPeak(faces[n]);
      assert TopUp(faces)[..n] == TopUp(faces[..n]);
    }
  }

  /** A face that can save enough, and still cannot pay after a top-up, has used one up. */
  lemma SaverUsesTopUp(f: Face, size: nat, except: FaceId)
    requires f.ratio >= 0.0 && CanSave(f, size, except) && !Affords(TopUpFace(f), size, except)
    ensures TopUpsLeft(TopUpFace(f)) < TopUpsLeft(f)
  {
    TopUpKeepsPeak(f);
    assert f.balance <= size as real < Peak(f);
    GapShrinks(f);
  }

  /** What is known when the selector calls itself: the sweep served nobody. */
  lemma UnservedPass(t: Table, size: nat, except: FaceId)
    requires Proper(t) && OnePass(t, size, except).again
    ensures var u := OnePass(t, size, except).table;
      && u == StartSweep(t).(next := |t.faces|) && Proper(u)
      && (Settles(u, size, except) <==> Settles(t, size, except))
  {
    var s, u := StartSweep(t), OnePass(t, size, except).table;
    forall i | 0 <= i < |t.faces| ensures Idle(u.faces[i], except) == Idle(t.faces[i], except)
                                       && CanSave(u.faces[i], size, except) == CanSave(t.faces[i], size, except)
    {
      TopUpKeepsPeak(t.faces[i]);
    }
  }

  lemma UnservedPassProgress(t: Table, size: nat, except: FaceId)
    requires Proper(t) && OnePass(t, size, except).again && Settles(t, size, except)
    ensures var u := OnePass(t, size, except).table;
      if t.next >= |t.faces| then TotalTopUpsLeft(u.faces) < TotalTopUpsLeft(t.faces)
      else u.faces == t.faces
  {
    UnservedPass(t, size, except);
    if t.next >= |t.faces| {
      var rich := TopUp(t.faces);
      var j :| 0 <= j < |rich| && !Idle(rich[j], except);
      assert !Idle(t.faces[j], except);
      var i :| 0 <= i < |t.faces| && CanSave(t.faces[i], size, except);
      assert !Affords(rich[i], size, except);
      SaverUsesTopUp(t.faces[i], size, except);
      TopUpUsesCredit(t.faces, i);
    }
  }

  ghost predicate OnlyBalances(t: Table, u: Table) {
    && |u.faces| == |t.faces| && u.total == t.total && u.available == t.available
    && forall i :: 0 <= i < |t.faces| ==> u.faces[i] == t.faces[i].(balance := u.faces[i].balance)
  }

  datatype Selection = Selection(table: Table, face: FaceId, topUps: nat)

  /** The selector with its recursion, and the number of top-ups on the way. */
  function Select(t: Table, size: nat, except: FaceId): Selection
    requires Proper(t) && Settles(t, size, except)
    decreases TotalTopUpsLeft(t.faces), if t.next < |t.faces| then 1 else 0
  {
    var p := OnePass(t, size, except);
    var topUp := if t.next >= |t.faces| then 1 else 0;
    if p.again then
      UnservedPass(t, size, except);
      UnservedPassProgress(t, size, except);
      var rest := Select(p.table, size, except);
      rest.(topUps := topUp + rest.topUps)
    else
      Selection(p.table, p.face, topUp)
  }

  /** The selector in terms of its first activation. */
  lemma SelectUnfolds(t: Table, size: nat, except: FaceId)
    requires Proper(t) && Settles(t, size, except)
    ensures var p := OnePass(t, size, except);
      var first := if t.next >= |t.faces| then 1 else 0;
      if p.again then
        && Proper(p.table) && Settles(p.table, size, except)
        && OnlyBalances(t, p.table) && p.table.next == |t.faces| && p.face == 0
        && TotalTopUpsLeft(p.table.faces) + first <= TotalTopUpsLeft(t.faces)
        && var rest := Select(p.table, size, except);
           Select(t, size, except) == rest.(topUps := first + rest.topUps)
      else
        Select(t, size, except) == Selection(p.table, p.face, first)
  {
    var p := OnePass(t, size, except);
    if p.again {
      UnservedPass(t, size, except);
      UnservedPassProgress(t, size, except);
    }
  }

  /** The table after `n` activations, each but the last of which went on. */
  ghost function AfterPasses(t: Table, size: nat, except: FaceId, n: nat): Table
    decreases n
  {
    if n == 0 then t else AfterPasses(OnePass(t, size, except).table, size, except, n - 1)
  }

  ghost predicate Ends(t: Table, size: nat, except: FaceId) {
    exists n :: !OnePass(AfterPasses(t, size, except, n), size, except).again
  }

  lemma OneMorePass(t: Table, size: nat, except: FaceId, n: nat)
    ensures AfterPasses(t, size, except, n + 1) == AfterPasses(OnePass(t, size, except).table, size, except, n)
  {
  }

  lemma UnsettledPass(t: Table, size: nat, except: FaceId)
    requires Proper(t) && !Settles(t, size, except)
    ensures OnePass(t, size, except).again
  {
    var s := StartSweep(t);
    forall i | 0 <= i < |t.faces| ensures !Affords(s.faces[i], size, except) {
      TopUpKeepsPeak(t.faces[i]);
      TopUpKeepsPeak(s.faces[i]);
    }
    var j :| 0 <= j < |t.faces| && !Idle(t.faces[j], except);
    assert !Idle(s.faces[j], except);
  }

  lemma UnsettledNext(t: Table, size: nat, except: FaceId) returns (u: Table)
    requires Proper(t) && !Settles(t, size, except)
    ensures u == OnePass(t, size, except).table && Proper(u) && !Settles(u, size, except)
  {
    u := OnePass(t, size, except).table;
    UnsettledPass(t, size, except);
    UnservedPass(t, size, except);
  }

  lemma {:induction false} UnsettledAfter(t: Table, size: nat, except: FaceId, n: nat) returns (u: Table)
    requires Proper(t) && !Settles(t, size, except)
    ensures u == AfterPasses(t, size, except, n) && Proper(u) && !Settles(u, size, except)
    decreases n
  {
    if n == 0 {
      u := t;
    } else {
      var v := UnsettledNext(t, size, except);
      u := UnsettledAfter(v, size, except, n - 1);
    }
  }

  lemma UnsettledGoesOn(t: Table, size: nat, except: FaceId, n: nat)
    requires Proper(t) && !Settles(t, size, except)
    ensures OnePass(AfterPasses(t, size, except, n), size, except).again
  {
    var u := UnsettledAfter(t, size, except, n);
    UnsettledPass(u, size, except);
  }

  lemma {:induction false} SettledEnds(t: Table, size: nat, except: FaceId)
    requires Proper(t) && Settles(t, size, except)
    ensures Ends(t, size, except)
    decreases TotalTopUpsLeft(t.faces), if t.next < |t.faces| then 1 else 0
  {
    var p := OnePass(t, size, except);
    if p.again {
      UnservedPass(t, size, except);
      UnservedPassProgress(t, size, except);
      SettledEnds(p.table, size, except);
      var n :| !OnePass(AfterPasses(p.table, size, except, n), size, except).again;
      OneMorePass(t, size, except, n);
    } else {
      assert AfterPasses(t, size, except, 0) == t;
    }
  }

  /** The exact condition under which the selector returns at all. */
  lemma EndsExactlyWhenSettled(t: Table, size: nat, except: FaceId)
    requires Proper(t)
    ensures Ends(t, size, except) <==> Settles(t, size, except)
  {
    if Settles(t, size, except) {
      SettledEnds(t, size, except);
    } else {
      forall n: nat ensures OnePass(AfterPasses(t, size, except, n), size, except).again {
        UnsettledGoesOn(t, size, except, n);
      }
    }
  }

  lemma EnoughTimes(n: real, gap: real, q: real)
    requires q > 0.0 && n >= gap / q
    ensures n * q >= gap
  {
    assert (n - gap / q) * q >= 0.0;
    assert gap / q * q == gap;
  }

  lemma PeakReachesCap(f: Face)
    requires Quantum(f) > 0.0
    ensures Peak(f) >= CREDIT_CAP
  {
    if f.balance < CREDIT_CAP {
      var q, gap := Quantum(f), CREDIT_CAP - f.balance;
      TimesIsProduct(TopUpsLeft(f), q);
      assert TopUpsLeft(f) as real >= gap / q;
      EnoughTimes(TopUpsLeft(f) as real, gap, q);
    }
  }

  /** Data below the cap always ends the selection. */
  lemma SmallDataSettles(t: Table, size: nat, except: FaceId)
    requires Proper(t) && size as real < CREDIT_CAP
    ensures Settles(t, size, except)
  {
    if i :| 0 <= i < |t.faces| && !Idle(t.faces[i], except) {
      PeakReachesCap(t.faces[i]);
      assert CanSave(t.faces[i], size, except);
    }
  }

  lemma PeakFromZero(f: Face)
    requires f.balance == 0.0 && f.ratio == 0.5
    ensures Peak(f) == 104000.0
  {
    var q, gap := Quantum(f), CREDIT_CAP - f.balance;
    assert q == 8000.0 && gap == 12.5 * q;
    assert gap / q * q == gap;
    CancelFactor(gap / q, 12.5, q);
    assert Ceiling(12.5) == 13;
    TimesIsProduct(13, q);
  }

  /** Two fresh faces of equal share never save enough for 200000 units of data. */
  lemma LargeDataNeverEnds(t: Table)
    requires t.faces == [Face(1, 500, 0.5, 0.0, 0, 1), Face(2, 500, 0.5, 0.0, 0, 1)]
    ensures !Ends(t, 200000, 3)
  {
    forall i | 0 <= i < |t.faces| ensures !CanSave(t.faces[i], 200000, 3) && !Idle(t.faces[i], 3) {
      PeakFromZero(t.faces[i]);
    }
    assert !Idle(t.faces[0], 3);
    EndsExactlyWhenSettled(t, 200000, 3);
  }

  // ----- What the selector returns

  /** Some face other than the excluded one has a share of one part in 100000. */
  ghost predicate SomeEligible(t: Table, except: FaceId) {
    exists i :: 0 <= i < |t.faces| && t.faces[i].id != except && t.faces[i].ratio >= 0.00001
  }

  /**
   Only balances move; a face that is returned is listed, is not the excluded
   one and is where the next call resumes; and a face is returned whenever one
   is eligible, whatever its balance.
   */
  lemma {:induction false} SelectResult(t: Table, size: nat, except: FaceId)
    requires Proper(t) && Settles(t, size, except)
    ensures var r := Select(t, size, except);
      && OnlyBalances(t, r.table) && Proper(r.table)
      && (SomeEligible(t, except) ==> r.face != 0)
      && (r.face != 0 ==> r.table.next < |t.faces| && t.faces[r.table.next].id == r.face != except)
      && (r.face == 0 ==> r.table.next == |t.faces|)
    decreases TotalTopUpsLeft(t.faces), if t.next < |t.faces| then 1 else 0
  {
    var p := OnePass(t, size, except);
    SelectUnfolds(t, size, except);
    if p.again {
      SelectResult(p.table, size, except);
      if i :| 0 <= i < |t.faces| && !Idle(t.faces[i], except) {
        assert !Idle(p.table.faces[i], except);
      }
    } else {
      assert OnlyBalances(t, p.table);
      if i :| 0 <= i < |t.faces| && !Idle(t.faces[i], except) {
        assert !Idle(StartSweep(t).faces[i], except);
      }
    }
  }

  ghost predicate SomeAffords(faces: seq<Face>, first: nat, size: nat, except: FaceId) {
    exists i :: first <= i < |faces| && Affords(faces[i], size, except)
  }

  /** What the balances must be for a face to be returned: a test on the table before the call. */
  ghost predicate Chooses(t: Table, size: nat, except: FaceId) {
    || SomeEligible(t, except)
    || SomeAffords(t.faces, t.next, size, except)
    || (t.next > 0 && SomeAffords(TopUp(t.faces), 0, size, except))
  }

  lemma PassChooses(t: Table, size: nat, except: FaceId)
    requires Proper(t)
    ensures OnePass(t, size, except).face != 0
        <==> SomeAffords(StartSweep(t).faces, StartSweep(t).next, size, except)
  {
    var s := StartSweep(t);
    assert Proper(s);
    var k := Scan(s.faces, s.next, size, except);
    if k < |s.faces| {
      assert Affords(s.faces[k], size, except);
    }
  }

  /** With nobody to wait for, only a sweep that began in the middle is followed by another. */
  lemma IdlePass(t: Table, size: nat, except: FaceId)
    requires Proper(t) && !SomeEligible(t, except)
    ensures OnePass(t, size, except).again
        <==> 0 < t.next < |t.faces| && !SomeAffords(t.faces, t.next, size, except)
  {
    PassChooses(t, size, except);
    var s := StartSweep(t);
    forall i | 0 <= i < |t.faces| ensures Idle(s.faces[i], except) {
      assert Idle(t.faces[i], except);
    }
  }

  lemma IdleChooses(t: Table, size: nat, except: FaceId)
    requires Proper(t) && Settles(t, size, except) && !SomeEligible(t, except)
    ensures Select(t, size, except).face != 0 <==> Chooses(t, size, except)
  {
    var p := OnePass(t, size, except);
    IdlePass(t, size, except);
    PassChooses(t, size, except);
    SelectUnfolds(t, size, except);
    if p.again {
      UnservedPass(t, size, except);
      assert p.table.faces == t.faces && p.table.next == |t.faces|;
      IdlePass(p.table, size, except);
      PassChooses(p.table, size, except);
      SelectUnfolds(p.table, size, except);
    }
  }

  /**
   A face is returned exactly when one is eligible, or when one can pay in what
   is left of the sweep, or, where the sweep began in the middle or at the end,
   when one can pay after the top-up that follows.
   */
  lemma ChoosesExactly(t: Table, size: nat, except: FaceId)
    requires Proper(t) && Settles(t, size, except)
    ensures Select(t, size, except).face != 0 <==> Chooses(t, size, except)
  {
    if SomeEligible(t, except) {
      SelectResult(t, size, except);
    } else {
      IdleChooses(t, size, except);
    }
  }

  /** Balances stay nonnegative and below the cap plus one quantum. */
  ghost predicate Bounded(t: Table) {
    forall i :: 0 <= i < |t.faces| ==>
      && 0.0 <= t.faces[i].ratio <= 1.0
      && 0.0 <= t.faces[i].balance < CREDIT_CAP + 16000.0
  }

  lemma {:induction false} SelectKeepsBounds(t: Table, size: nat, except: FaceId)
    requires Proper(t) && Settles(t, size, except) && Bounded(t)
    ensures Bounded(Select(t, size, except).table)
    decreases TotalTopUpsLeft(t.faces), if t.next < |t.faces| then 1 else 0
  {
    var p := OnePass(t, size, except);
    assert Bounded(StartSweep(t));
    SelectUnfolds(t, size, except);
    if p.again {
      SelectKeepsBounds(p.table, size, except);
    }
  }

  // ----- Fairness over a run of calls

  /** A face already passed in this sweep could not pay; the others may hold one quantum more. */
  ghost predicate Swept(t: Table, m: nat) {
    forall i :: 0 <= i < |t.faces| ==>
      && 0.0 <= t.faces[i].balance
      && t.faces[i].balance <= m as real + if i < t.next then 0.0 else Quantum(t.faces[i])
  }

  ghost predicate NotListed(t: Table, id: FaceId) {
    forall i :: 0 <= i < |t.faces| ==> t.faces[i].id != id
  }

  /** The balances of `u` are those of `t` with the top-ups added and the data taken off. */
  ghost predicate Settled(t: Table, u: Table, topUps: nat, face: FaceId, size: nat) {
    forall i :: 0 <= i < |t.faces| && i < |u.faces| ==>
      u.faces[i].balance == t.faces[i].balance + Times(topUps, Quantum(t.faces[i]))
        - if face != 0 && i == u.next then size as real else 0.0
  }

  lemma PassSettles(t: Table, size: nat, except: FaceId, m: nat)
    requires Proper(t) && NotListed(t, except) && Swept(t, m) && size <= m && m as real < CREDIT_CAP
    ensures var p := OnePass(t, size, except);
      Swept(p.table, m) && Settled(t, p.table, if t.next >= |t.faces| then 1 else 0, p.face, size)
  {
    var s := StartSweep(t);
    assert forall i :: 0 <= i < |t.faces| ==> Quantum(s.faces[i]) == Quantum(t.faces[i]);
  }

  /** A sweep that served nobody, followed by the rest of the selection. */
  lemma SettledChain(t: Table, u: Table, r: Selection, first: nat, size: nat)
    requires OnlyBalances(t, u) && OnlyBalances(u, r.table)
    requires Settled(t, u, first, 0, size) && Settled(u, r.table, r.topUps, r.face, size)
    ensures Settled(t, r.table, first + r.topUps, r.face, size)
  {
    forall i | 0 <= i < |t.faces|
      ensures r.table.faces[i].balance == t.faces[i].balance + Times(first + r.topUps, Quantum(t.faces[i]))
        - if r.face != 0 && i == r.table.next then size as real else 0.0
    {
      assert Quantum(u.faces[i]) == Quantum(t.faces[i]);
      Distribute(first, r.topUps, Quantum(t.faces[i]));
    }
  }

  lemma NextPassSettles(t: Table, size: nat, except: FaceId, m: nat)
    requires Proper(t) && NotListed(t, except) && Swept(t, m) && size <= m && m as real < CREDIT_CAP
    requires Settles(t, size, except)
    ensures var p := OnePass(t, size, except);
      var first := if t.next >= |t.faces| then 1 else 0;
      && Swept(p.table, m) && Settled(t, p.table, first, p.face, size)
      && (p.again ==> OnlyBalances(t, p.table) && NotListed(p.table, except) && p.face == 0)
  {
    SelectUnfolds(t, size, except);
    PassSettles(t, size, except, m);
  }

  lemma {:induction false} SelectSettles(t: Table, size: nat, except: FaceId, m: nat)
    requires Proper(t) && NotListed(t, except) && Swept(t, m) && size <= m && m as real < CREDIT_CAP
    requires Settles(t, size, except)
    ensures var r := Select(t, size, except);
      Swept(r.table, m) && Settled(t, r.table, r.topUps, r.face, size)
    decreases TotalTopUpsLeft(t.faces), if t.next < |t.faces| then 1 else 0
  {
    var p := OnePass(t, size, except);
    var first := if t.next >= |t.faces| then 1 else 0;
    SelectUnfolds(t, size, except);
    NextPassSettles(t, size, except, m);
    if p.again {
      SelectSettles(p.table, size, except, m);
      SelectResult(p.table, size, except);
      SettledChain(t, p.table, Select(p.table, size, except), first, size);
    }
  }

  datatype Ledger = Ledger(table: Table, topUps: nat, served: seq<nat>)

  ghost predicate SmallSizes(sizes: seq<nat>, m: nat) {
    m as real < CREDIT_CAP && forall k :: 0 <= k < |sizes| ==> sizes[k] <= m
  }

  function Credit(served: seq<nat>, r: Selection, size: nat): (credited: seq<nat>)
    ensures |credited| == |served|
  {
    if r.face != 0 && r.table.next < |served| then served[r.table.next := served[r.table.next] + size] else served
  }

  /** A run of calls: the table, the number of top-ups and the data sent by each face. */
  ghost function ServeAll(t: Table, sizes: seq<nat>, except: FaceId, m: nat): (l: Ledger)
    requires Proper(t) && SmallSizes(sizes, m)
    ensures OnlyBalances(t, l.table) && Proper(l.table) && |l.served| == |t.faces|
    decreases |sizes|
  {
    if sizes == [] then Ledger(t, 0, seq(|t.faces|, _ => 0)) else
      var n := |sizes| - 1;
      var l := ServeAll(t, sizes[..n], except, m);
      SmallDataSettles(l.table, sizes[n], except);
      SelectResult(l.table, sizes[n], except);
      var r := Select(l.table, sizes[n], except);
      Ledger(r.table, l.topUps + r.topUps, Credit(l.served, r, sizes[n]))
  }

  /** The ledger after one more call. */
  lemma ServeOneMore(t: Table, sizes: seq<nat>, except: FaceId, m: nat) returns (before: Ledger, r: Selection)
    requires Proper(t) && SmallSizes(sizes, m) && sizes != []
    ensures before == ServeAll(t, sizes[..|sizes| - 1], except, m)
    ensures Settles(before.table, sizes[|sizes| - 1], except)
    ensures r == Select(before.table, sizes[|sizes| - 1], except)
    ensures ServeAll(t, sizes, except, m)
         == Ledger(r.table, before.topUps + r.topUps, Credit(before.served, r, sizes[|sizes| - 1]))
  {
    before := ServeAll(t, sizes[..|sizes| - 1], except, m);
    SmallDataSettles(before.table, sizes[|sizes| - 1], except);
    r := Select(before.table, sizes[|sizes| - 1], except);
  }

  /** The books of one face: what it holds and has sent is what it was given. */
  ghost predicate Balanced(t: Table, l: Ledger, m: nat, i: nat)
    requires i < |t.faces| == |l.served| == |l.table.faces|
  {
    && Swept(l.table, m)
    && l.table.faces[i].balance + l.served[i] as real == t.faces[i].balance + Times(l.topUps, Quantum(t.faces[i]))
  }

  lemma BooksAfterCall(t: Table, before: Ledger, r: Selection, size: nat, m: nat, i: nat)
    requires OnlyBalances(t, before.table) && OnlyBalances(before.table, r.table)
    requires i < |t.faces| == |before.served| && Balanced(t, before, m, i)
    requires Swept(r.table, m) && Settled(before.table, r.table, r.topUps, r.face, size)
    requires r.face == 0 || r.table.next < |t.faces|
    ensures Balanced(t, Ledger(r.table, before.topUps + r.topUps, Credit(before.served, r, size)), m, i)
  {
    assert Quantum(before.table.faces[i]) == Quantum(t.faces[i]);
    Distribute(before.topUps, r.topUps, Quantum(t.faces[i]));
  }

  lemma {:induction false} LedgerBalances(t: Table, sizes: seq<nat>, except: FaceId, m: nat, i: nat)
    requires Proper(t) && NotListed(t, except) && Swept(t, m) && SmallSizes(sizes, m) && i < |t.faces|
    ensures Balanced(t, ServeAll(t, sizes, except, m), m, i)
    decreases |sizes|
  {
    if sizes != [] {
      var n := |sizes| - 1;
      var before, r := ServeOneMore(t, sizes, except, m);
      LedgerBalances(t, sizes[..n], except, m, i);
      SelectResult(before.table, sizes[n], except);
      SelectSettles(before.table, sizes[n], except, m);
      BooksAfterCall(t, before, r, sizes[n], m, i);
    }
  }

  /** The face has sent its share of the top-ups, within the largest data and one quantum. */
  ghost predicate FairlyServed(t: Table, l: Ledger, m: nat, i: nat)
    requires i < |t.faces| == |l.served|
  {
    var share := l.topUps as real * Quantum(t.faces[i]);
    share - (m as real + Quantum(t.faces[i])) <= l.served[i] as real <= share
  }

  lemma BalancedIsFair(t: Table, l: Ledger, m: nat, i: nat)
    requires OnlyBalances(t, l.table) && i < |t.faces| == |l.served| && Balanced(t, l, m, i)
    requires Proper(t) && t.faces[i].balance == 0.0
    ensures FairlyServed(t, l, m, i)
  {
    assert Quantum(l.table.faces[i]) == Quantum(t.faces[i]);
    TimesIsProduct(l.topUps, Quantum(t.faces[i]));
  }

  /**
   Deficit-round-robin fairness.  From zero balances, after R top-ups a face of
   share `ratio` has sent at most R quanta of its share, and at least that much
   less the largest data and one quantum.
   */
  lemma FairService(t: Table, sizes: seq<nat>, except: FaceId, m: nat, i: nat)
    requires Proper(t) && NotListed(t, except) && SmallSizes(sizes, m) && i < |t.faces|
    requires forall k :: 0 <= k < |t.faces| ==> t.faces[k].balance == 0.0
    ensures FairlyServed(t, ServeAll(t, sizes, except, m), m, i)
  {
    LedgerBalances(t, sizes, except, m, i);
    BalancedIsFair(t, ServeAll(t, sizes, except, m), m, i);
  }

  /** One face does not run ahead of another by more than a bound, each measured by its share. */
  ghost predicate InProportion(t: Table, l: Ledger, m: nat, i: nat, j: nat)
    requires i < |t.faces| == |l.served| && j < |t.faces|
  {
    l.served[i] as real * t.faces[j].ratio - l.served[j] as real * t.faces[i].ratio
      <= t.faces[i].ratio * (m as real + Quantum(t.faces[j]))
  }

  /** Two faces are served in the proportion of their shares, up to a bound independent of the run. */
  lemma ProportionalService(t: Table, sizes: seq<nat>, except: FaceId, m: nat, i: nat, j: nat)
    requires Proper(t) && NotListed(t, except) && SmallSizes(sizes, m) && i < |t.faces| && j < |t.faces|
    requires forall k :: 0 <= k < |t.faces| ==> t.faces[k].balance == 0.0
    ensures InProportion(t, ServeAll(t, sizes, except, m), m, i, j)
  {
    FairService(t, sizes, except, m, i);
    FairService(t, sizes, except, m, j);
    FairPair(t, ServeAll(t, sizes, except, m), m, i, j);
  }

  lemma FairPair(t: Table, l: Ledger, m: nat, i: nat, j: nat)
    requires Proper(t) && i < |t.faces| == |l.served| && j < |t.faces|
    requires FairlyServed(t, l, m, i) && FairlyServed(t, l, m, j)
    ensures InProportion(t, l, m, i, j)
  {
    Proportion(t.faces[i].ratio, t.faces[j].ratio, Quantum(t.faces[i]), Quantum(t.faces[j]),
               l.topUps as real, l.served[i] as real, l.served[j] as real, m as real);
  }

  lemma Proportion(ri: real, rj: real, qi: real, qj: real, n: real, si: real, sj: real, m: real)
    requires ri >= 0.0 && rj >= 0.0 && qi == ri * 16000.0 && qj == rj * 16000.0
    requires si <= n * qi && sj >= n * qj - (m + qj)
    ensures si * rj - sj * ri <= ri * (m + qj)
  {
    assert si * rj <= n * qi * rj;
    assert sj * ri >= (n * qj - (m + qj)) * ri;
    assert n * qi * rj == n * qj * ri;
  }

  // ----- selectFaceByRatio

  const DEFAULT_RATE: Uint32 := 2000000
  const DEFAULT_SIZE := 9000

  function AddAll(t: Table, faces: seq<FaceId>): Table {
    if faces == [] then t else AddOrUpdate(AddAll(t, faces[..|faces| - 1]), faces[|faces| - 1], DEFAULT_RATE)
  }

  lemma AddAllOneMore(t: Table, faces: seq<FaceId>, i: nat)
    requires i < |faces|
    ensures AddAll(t, faces[..i + 1]) == AddOrUpdate(AddAll(t, faces[..i]), faces[i], DEFAULT_RATE)
  {
    assert faces[..i + 1][..i] == faces[..i];
  }

  /** A table that knows no face yet takes those of the next hops. */
  function Seed(t: Table, nexthops: seq<FaceId>): Table {
    if t.faces == [] then AddAll(t, nexthops) else t
  }

  function DataSize(dsz: Option<nat>): nat {
    if dsz.Some? then dsz.value else DEFAULT_SIZE
  }

  /** The selector is consulted only when there is a choice. */
  ghost predicate Selectable(t: Table, ingress: FaceId, nexthops: seq<FaceId>, dsz: Option<nat>) {
    var s := Seed(t, nexthops);
    |s.faces| >= 2 ==> Proper(s) && Settles(s, DataSize(dsz), ingress)
  }

  function SelectByRatio(t: Table, ingress: FaceId, nexthops: seq<FaceId>, dsz: Option<nat>): Selection
    requires Selectable(t, ingress, nexthops, dsz)
  {
    var s := Seed(t, nexthops);
    if s.faces == [] then Selection(s, 0, 0)
    else if |s.faces| == 1 then Selection(s, if s.faces[0].id == ingress then 0 else s.faces[0].id, 0)
    else Select(s, DataSize(dsz), ingress)
  }

  /** An Interest never goes back where it came from, and only to a face of the table. */
  lemma SelectedFace(t: Table, ingress: FaceId, nexthops: seq<FaceId>, dsz: Option<nat>)
    requires Selectable(t, ingress, nexthops, dsz)
    ensures var r := SelectByRatio(t, ingress, nexthops, dsz);
      && OnlyBalances(Seed(t, nexthops), r.table)
      && (r.face != 0 ==> r.face != ingress && Has(r.table, r.face))
  {
    var s := Seed(t, nexthops);
    if |s.faces| >= 2 {
      SelectResult(s, DataSize(dsz), ingress);
      var r := Select(s, DataSize(dsz), ingress);
      if r.face != 0 {
        assert r.table.faces[r.table.next].id == r.face;
      }
    }
  }

  /** Whether an Interest has a face to go to, as a test on the table and the next hops. */
  ghost predicate HasFaceFor(t: Table, ingress: FaceId, nexthops: seq<FaceId>, dsz: Option<nat>) {
    var s := Seed(t, nexthops);
    if s.faces == [] then false
    else if |s.faces| == 1 then s.faces[0].id != ingress && s.faces[0].id != 0
    else Chooses(s, DataSize(dsz), ingress)
  }

  lemma SelectsExactly(t: Table, ingress: FaceId, nexthops: seq<FaceId>, dsz: Option<nat>)
    requires Selectable(t, ingress, nexthops, dsz)
    ensures SelectByRatio(t, ingress, nexthops, dsz).face != 0 <==> HasFaceFor(t, ingress, nexthops, dsz)
  {
    var s := Seed(t, nexthops);
    if |s.faces| >= 2 {
      ChoosesExactly(s, DataSize(dsz), ingress);
    }
  }
}

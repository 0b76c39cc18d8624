/** All orders of a list. */
module Permutations {
  import opened Common

  function Insert<T>(s: seq<T>, i: nat, x: T): (t: seq<T>)
    requires i <= |s|
    ensures |t| == |s| + 1
  {
    s[..i] + [x] + s[i..]
  }

  /** `x` at every place of `s`. */
  function Insertions<T>(s: seq<T>, x: T): (lists: seq<seq<T>>)
    ensures |lists| == |s| + 1
  {
    seq(|s| + 1, i requires 0 <= i < |s| + 1 => Insert(s, i, x))
  }

  function InsertionsOfAll<T>(lists: seq<seq<T>>, x: T): (parts: seq<seq<seq<T>>>)
    ensures |parts| == |lists|
  {
    seq(|lists|, k requires 0 <= k < |lists| => Insertions(lists[k], x))
  }

  /** The lists that the recursion builds, in its order. */
  function AllOrders<T>(items: seq<T>): seq<seq<T>> {
    if |items| <= 1 then [items] else Flatten(InsertionsOfAll(AllOrders(items[1..]), items[0]))
  }

  lemma {:induction false} OrdersHaveLength<T>(items: seq<T>, k: nat)
    requires k < |AllOrders(items)|
    ensures |AllOrders(items)[k]| == |items|
  {
    if |items| > 1 {
      var parts := InsertionsOfAll(AllOrders(items[1..]), items[0]);
      var p, i := InFlatten(parts, k);
      OrdersHaveLength(items[1..], p);
    }
  }

  /** Where an element of a flattened list comes from. */
  lemma {:induction false} InFlatten<T>(parts: seq<seq<T>>, k: nat) returns (p: nat, i: nat)
    requires k < |Flatten(parts)|
    ensures p < |parts| && i < |parts[p]| && parts[p][i] == Flatten(parts)[k]
  {
    if k < |parts[0]| {
      p, i := 0, k;
    } else {
      p, i := InFlatten(parts[1..], k - |parts[0]|);
      p := p + 1;
    }
  }

  lemma {:induction false} IntoFlatten<T>(parts: seq<seq<T>>, p: nat, i: nat) returns (k: nat)
    requires p < |parts| && i < |parts[p]|
    ensures k < |Flatten(parts)| && Flatten(parts)[k] == parts[p][i]
  {
    if p == 0 {
      k := i;
    } else {
      k := IntoFlatten(parts[1..], p - 1, i);
      k := |parts[0]| + k;
    }
  }

  /** The inner loop: `x` at every place of one list. */
  method AppendInsertions<T>(lists0: seq<seq<T>>, s: seq<T>, x: T, places: nat) returns (lists: seq<seq<T>>)
    requires places == |s| + 1
    ensures lists == lists0 + Insertions(s, x)
  {
    lists := lists0;
    ghost var part := Insertions(s, x);
    for i := 0 to places
      invariant lists == lists0 + part[..i]
    {
      var newList := s[..i] + [x] + s[i..];
      OneElementMore(part, i);
      lists := lists + [newList];
    }
    WholeSlice(part);
  }

  method Permute<T>(items: seq<T>) returns (outLists: seq<seq<T>>)
    ensures outLists == AllOrders(items)
    decreases |items|
  {
    outLists := [];
    if |items| > 1 {
      var item := items[0];
      var subLists := Permute(items[1..]);
      ghost var parts := InsertionsOfAll(subLists, item);
      for k := 0 to |subLists|
        invariant outLists == Flatten(parts[..k])
      {
        OrdersHaveLength(items[1..], k);
        outLists := AppendInsertions(outLists, subLists[k], item, |items|);
        FlattenOneMore(parts, k);
      }
      WholeSlice(parts);
    } else {
      outLists := [items];
    }
  }

  // ----- There are n! lists

  function Factorial(n: nat): (f: nat)
    ensures f >= 1
  {
    if n == 0 then 1 else n * Factorial(n - 1)
  }

  lemma {:induction false} FlattenLength<T>(parts: seq<seq<T>>, n: nat)
    requires forall k :: 0 <= k < |parts| ==> |parts[k]| == n
    ensures |Flatten(parts)| == n * |parts|
  {
    if parts != [] {
      FlattenLength(parts[1..], n);
      assert n * |parts| == n + n * |parts[1..]|;
    }
  }

  lemma {:induction false} CountOrders<T>(items: seq<T>)
    ensures |AllOrders(items)| == Factorial(|items|)
  {
    if |items| <= 1 {
      assert Factorial(1) == 1 * Factorial(0) && Factorial(0) == 1;
    } else {
      var subLists := AllOrders(items[1..]);
      var parts := InsertionsOfAll(subLists, items[0]);
      forall k | 0 <= k < |parts| ensures |parts[k]| == |items| {
        OrdersHaveLength(items[1..], k);
      }
      FlattenLength(parts, |items|);
      CountOrders(items[1..]);
    }
  }

  // ----- They are the permutations

  lemma InsertMultiset<T>(s: seq<T>, i: nat, x: T)
    requires i <= |s|
    ensures multiset(Insert(s, i, x)) == multiset(s) + multiset{x}
  {
    assert s == s[..i] + s[i..];
  }

  lemma {:induction false} OrdersArePermutations<T>(items: seq<T>, k: nat)
    requires k < |AllOrders(items)|
    ensures multiset(AllOrders(items)[k]) == multiset(items)
  {
    if |items| > 1 {
      var subLists := AllOrders(items[1..]);
      var p, i := InFlatten(InsertionsOfAll(subLists, items[0]), k);
      OrdersArePermutations(items[1..], p);
      InsertMultiset(subLists[p], i, items[0]);
      assert items == [items[0]] + items[1..];
    }
  }

  lemma WithoutFirst<T>(items: seq<T>, list: seq<T>, i: nat)
    requires items != [] && multiset(list) == multiset(items) && i < |list| && list[i] == items[0]
    ensures multiset(list[..i] + list[i + 1..]) == multiset(items[1..])
    ensures Insert(list[..i] + list[i + 1..], i, items[0]) == list
  {
    MultisetOneLess(items, list, i);
    assert items[..0] + items[1..] == items[1..];
    InsertBack(list, i);
  }

  lemma InsertBack<T>(list: seq<T>, i: nat)
    requires i < |list|
    ensures Insert(list[..i] + list[i + 1..], i, list[i]) == list
  {
  }

  lemma InsertedOrder<T>(lists: seq<seq<T>>, list: seq<T>, i: nat, x: T)
    requires list in lists && i <= |list|
    ensures Insert(list, i, x) in Flatten(InsertionsOfAll(lists, x))
  {
    var p :| 0 <= p < |lists| && lists[p] == list;
    var parts := InsertionsOfAll(lists, x);
    assert parts[p][i] == Insert(list, i, x);
    var k := IntoFlatten(parts, p, i);
  }

  lemma {:induction false} PermutationsAreOrders<T>(items: seq<T>, list: seq<T>)
    requires multiset(list) == multiset(items)
    ensures list in AllOrders(items)
  {
    MultisetMembers(list, items);
    if |items| <= 1 {
      if items != [] {
        assert items[0] in list;
        assert list == items;
      }
    } else {
      var x, rest := items[0], items[1..];
      assert x in list;
      var i := IndexOf(list, x);
      var shorter := list[..i] + list[i + 1..];
      WithoutFirst(items, list, i);
      PermutationsAreOrders(rest, shorter);
      InsertedOrder(AllOrders(rest), shorter, i, x);
    }
  }

  /** The lists that are returned are the permutations of the items, and no others. */
  lemma PermutationsExactly<T>(items: seq<T>, list: seq<T>)
    ensures list in AllOrders(items) <==> multiset(list) == multiset(items)
  {
    if list in AllOrders(items) {
      var k :| 0 <= k < |AllOrders(items)| && AllOrders(items)[k] == list;
      OrdersArePermutations(items, k);
    }
    if multiset(list) == multiset(items) {
      PermutationsAreOrders(items, list);
    }
  }

  // ----- No list comes twice exactly when no item does

  predicate PartsApart<T(==)>(parts: seq<seq<T>>) {
    && (forall p :: 0 <= p < |parts| ==> Distinct(parts[p]))
    && (forall p, q, i, j :: 0 <= p < q < |parts| && 0 <= i < |parts[p]| && 0 <= j < |parts[q]|
          ==> parts[p][i] != parts[q][j])
  }

  lemma {:induction false} FlattenDistinct<T>(parts: seq<seq<T>>)
    requires PartsApart(parts)
    ensures Distinct(Flatten(parts))
  {
    if parts != [] {
      var rest := parts[1..];
      FlattenDistinct(rest);
      forall i, k | 0 <= i < |parts[0]| && 0 <= k < |Flatten(rest)| ensures parts[0][i] != Flatten(rest)[k] {
        var q, j := InFlatten(rest, k);
        assert rest[q] == parts[q + 1];
      }
    }
  }

  lemma InsertApart<T>(s: seq<T>, i: nat, t: seq<T>, j: nat, x: T)
    requires i <= |s| && j <= |t| && x !in s && x !in t
    requires Insert(s, i, x) == Insert(t, j, x)
    ensures i == j && s == t
  {
    var u := Insert(s, i, x);
    assert u[i] == x && u[j] == x;
    assert forall k :: 0 <= k < |u| && k != i ==> u[k] in s;
    assert i == j;
    assert s == u[..i] + u[i + 1..] && t == u[..j] + u[j + 1..];
  }

  lemma {:induction false} DistinctOrders<T>(items: seq<T>)
    requires Distinct(items)
    ensures Distinct(AllOrders(items))
  {
    if |items| > 1 {
      var x, rest := items[0], items[1..];
      var subLists := AllOrders(rest);
      DistinctOrders(rest);
      forall p | 0 <= p < |subLists| ensures x !in subLists[p] {
        OrdersArePermutations(rest, p);
        MultisetMembers(subLists[p], rest);
      }
      var parts := InsertionsOfAll(subLists, x);
      forall p | 0 <= p < |parts| ensures Distinct(parts[p]) {
        forall i, j | 0 <= i < j < |parts[p]| ensures parts[p][i] != parts[p][j] {
          if parts[p][i] == parts[p][j] {
            InsertApart(subLists[p], i, subLists[p], j, x);
          }
        }
      }
      forall p, q, i, j | 0 <= p < q < |parts| && 0 <= i < |parts[p]| && 0 <= j < |parts[q]|
        ensures parts[p][i] != parts[q][j]
      {
        if parts[p][i] == parts[q][j] {
          InsertApart(subLists[p], i, subLists[q], j, x);
        }
      }
      FlattenDistinct(parts);
    }
  }

  lemma InsertTwice<T>(s: seq<T>, i: nat, x: T)
    requires i < |s| && s[i] == x
    ensures Insert(s, i, x) == Insert(s, i + 1, x)
  {
  }

  lemma {:induction false} DistinctParts<T>(parts: seq<seq<T>>, p: nat, i: nat, q: nat, j: nat)
    requires Distinct(Flatten(parts)) && p < |parts| && i < |parts[p]| && q < |parts| && j < |parts[q]|
    requires parts[p][i] == parts[q][j]
    ensures p == q && i == j
  {
    var head, rest := parts[0], Flatten(parts[1..]);
    var whole := Flatten(parts);
    assert whole == head + rest;
    assert forall k :: 0 <= k < |rest| ==> rest[k] == whole[|head| + k];
    if p == 0 && q == 0 {
      assert head[i] == whole[i] && head[j] == whole[j];
    } else if p == 0 {
      assert head[i] == whole[i];
      var k := IntoFlatten(parts[1..], q - 1, j);
    } else if q == 0 {
      assert head[j] == whole[j];
      var k := IntoFlatten(parts[1..], p - 1, i);
    } else {
      DistinctParts(parts[1..], p - 1, i, q - 1, j);
    }
  }

  lemma {:induction false} DistinctItems<T>(items: seq<T>)
    requires Distinct(AllOrders(items))
    ensures Distinct(items)
  {
    if |items| > 1 {
      var x, rest := items[0], items[1..];
      var subLists := AllOrders(rest);
      var parts := InsertionsOfAll(subLists, x);
      forall p, q | 0 <= p < q < |subLists| ensures subLists[p] != subLists[q] {
        if subLists[p] == subLists[q] {
          assert parts[p][0] == parts[q][0];
          DistinctParts(parts, p, 0, q, 0);
        }
      }
      DistinctItems(rest);
      if x in rest {
        CountOrders(rest);
        OrdersArePermutations(rest, 0);
        MultisetMembers(subLists[0], rest);
        assert x in subLists[0];
        var i :| 0 <= i < |subLists[0]| && subLists[0][i] == x;
        InsertTwice(subLists[0], i, x);
        DistinctParts(parts, 0, i, 0, i + 1);
      }
      assert items == [x] + rest;
    }
  }

  /** No list is returned twice exactly when no item is given twice. */
  lemma DistinctExactly<T>(items: seq<T>)
    ensures Distinct(AllOrders(items)) <==> Distinct(items)
  {
    if Distinct(items) {
      DistinctOrders(items);
    }
    if Distinct(AllOrders(items)) {
      DistinctItems(items);
    }
  }

  /** Twice the same item: twice the same list. */
  lemma TwoEqualItems()
    ensures AllOrders([1, 1]) == [[1, 1], [1, 1]]
  {
    assert [1, 1][1..] == [1];
    assert AllOrders([1]) == [[1]];
    var parts := InsertionsOfAll([[1]], 1);
    assert Insert([1], 0, 1) == [1, 1] && Insert([1], 1, 1) == [1, 1];
    assert Insertions([1], 1) == [[1, 1], [1, 1]];
    assert parts == [[[1, 1], [1, 1]]];
    FlattenOne([[1, 1], [1, 1]]);
  }
}

/** Small vocabulary shared by the other modules. */
module Common {

  datatype Option<+T> = None | Some(value: T)

  datatype Result<+T, +E> = Ok(value: T) | Err(error: E)

  /** No value occurs twice in `s`. */
  predicate Distinct<T(==)>(s: seq<T>) {
    forall i, j :: 0 <= i < j < |s| ==> s[i] != s[j]
  }

  /** The values that occur in `s`. */
  function ToSet<T>(s: seq<T>): set<T> {
    set x | x in s
  }

  lemma OneElementMore<T>(s: seq<T>, i: nat)
    requires i < |s|
    ensures s[..i + 1] == s[..i] + [s[i]]
    ensures ToSet(s[..i + 1]) == ToSet(s[..i]) + {s[i]}
    ensures Distinct(s) ==> s[i] !in ToSet(s[..i])
  {
  }

  lemma OneElementLess<T>(s: seq<T>, i: nat)
    requires i < |s|
    ensures s[i..] == [s[i]] + s[i + 1..]
    ensures s[i..][1..] == s[i + 1..]
  {
  }

  lemma PrefixSlice<T>(s: seq<T>, longer: seq<T>, n: nat)
    requires s <= longer && n <= |s|
    ensures longer[..n] == s[..n]
  {
  }

  lemma WholeSlice<T>(s: seq<T>)
    ensures s[..|s|] == s
  {
  }

  lemma SlicesOfAppend<T>(s: seq<T>, t: seq<T>)
    ensures (s + t)[..|s|] == s && (s + t)[..|s + t|] == s + t
    ensures (s + t)[|s|..] == t
  {
  }

  lemma AppendTwo<T>(s: seq<T>, x: T, y: T)
    ensures s + [x, y] == s + [x] + [y]
  {
  }

  lemma PrefixTransitive<T>(s: seq<T>, t: seq<T>, u: seq<T>)
    requires s <= t <= u
    ensures s <= u
  {
  }

  /** How many times `x` occurs in `s`. */
  function Occurrences<T(==)>(s: seq<T>, x: T): nat {
    if s == [] then 0 else (if s[0] == x then 1 else 0) + Occurrences(s[1..], x)
  }

  lemma {:induction false} OccurrencesSplit<T>(s: seq<T>, t: seq<T>, x: T)
    ensures Occurrences(s + t, x) == Occurrences(s, x) + Occurrences(t, x)
  {
    if s == [] {
      assert s + t == t;
    } else {
      assert (s + t)[1..] == s[1..] + t;
      OccurrencesSplit(s[1..], t, x);
    }
  }

  lemma {:induction false} OccurrencesPositive<T>(s: seq<T>, x: T)
    ensures Occurrences(s, x) > 0 <==> x in s
  {
    if s != [] {
      OccurrencesPositive(s[1..], x);
      assert s == [s[0]] + s[1..];
    }
  }

  /** The pigeonhole principle: distinct values drawn from a finite set. */
  lemma {:induction false} DistinctBound<T>(s: seq<T>, universe: set<T>)
    requires Distinct(s)
    requires forall x :: x in s ==> x in universe
    ensures |s| <= |universe|
  {
    if s != [] {
      var last := s[|s| - 1];
      var rest := s[..|s| - 1];
      assert forall x :: x in rest ==> x in universe - {last};
      DistinctBound(rest, universe - {last});
    }
  }

  /** Two lists without repetitions and with the same members are permutations of each other. */
  lemma {:induction false} DistinctMultisets<T>(s: seq<T>, t: seq<T>)
    requires Distinct(s) && Distinct(t) && ToSet(s) == ToSet(t)
    ensures multiset(s) == multiset(t)
  {
    forall x ensures multiset(s)[x] == multiset(t)[x] {
      OccursOnce(s, x);
      OccursOnce(t, x);
      assert x in ToSet(s) <==> x in ToSet(t);
    }
  }

  lemma {:induction false} OccursOnce<T>(s: seq<T>, x: T)
    requires Distinct(s)
    ensures multiset(s)[x] == if x in s then 1 else 0
  {
    if s != [] {
      var n := |s| - 1;
      assert s == s[..n] + [s[n]];
      OccursOnce(s[..n], x);
    }
  }

  lemma DistinctPermutation<T>(s: seq<T>, t: seq<T>)
    requires Distinct(s) && multiset(s) == multiset(t)
    ensures Distinct(t)
  {
    forall i, j | 0 <= i < j < |t| ensures t[i] != t[j] {
      if t[i] == t[j] {
        OccursOnce(s, t[i]);
        OccursTwice(t, i, j);
      }
    }
  }

  lemma OccursTwice<T>(s: seq<T>, i: nat, j: nat)
    requires i < j < |s| && s[i] == s[j]
    ensures multiset(s)[s[i]] >= 2
  {
    assert s == s[..i] + [s[i]] + s[i + 1..j] + [s[j]] + s[j + 1..];
  }

  lemma MultisetMembers<T>(s: seq<T>, t: seq<T>)
    requires multiset(s) == multiset(t)
    ensures |s| == |t| && forall x :: x in s <==> x in t
  {
    assert |multiset(s)| == |s| && |multiset(t)| == |t|;
    forall x ensures x in s <==> x in t {
      assert x in multiset(s) <==> x in multiset(t);
    }
  }

  lemma MultisetWithout<T>(s: seq<T>, k: nat)
    requires k < |s|
    ensures multiset(s[..k] + s[k + 1..]) == multiset(s) - multiset{s[k]}
  {
    assert s == s[..k] + [s[k]] + s[k + 1..];
  }

  lemma MultisetOneLess<T>(s: seq<T>, t: seq<T>, k: nat)
    requires s != [] && k < |t| && s[0] == t[k] && multiset(s) == multiset(t)
    ensures multiset(s[..0] + s[1..]) == multiset(t[..k] + t[k + 1..])
  {
    MultisetWithout(s, 0);
    MultisetWithout(t, k);
  }

  /** A list that holds every member of a set is at least as long as the set is big. */
  lemma {:induction false} CoverBound<T>(s: seq<T>, universe: set<T>)
    requires forall x :: x in universe ==> x in s
    ensures |universe| <= |s|
  {
    if s == [] {
      assert universe == {};
    } else {
      var last, rest := s[|s| - 1], s[..|s| - 1];
      assert forall x :: x in universe - {last} ==> x in rest;
      CoverBound(rest, universe - {last});
    }
  }

  /** The index of the first occurrence of `x`. */
  function IndexOf<T(==)>(s: seq<T>, x: T): (k: nat)
    requires x in s
    ensures k < |s| && s[k] == x
    ensures x !in s[..k]
  {
    if s[0] == x then 0 else 1 + IndexOf(s[1..], x)
  }

  /** `n` times `q`, by repeated addition. */
  ghost function Times(n: nat, q: real): (product: real)
    ensures q >= 0.0 ==> product >= 0.0
  {
    if n == 0 then 0.0 else Times(n - 1, q) + q
  }

  lemma {:induction false} TimesIsProduct(n: nat, q: real)
    ensures Times(n, q) == n as real * q
  {
    if n > 0 {
      TimesIsProduct(n - 1, q);
      assert n as real * q == (n - 1) as real * q + q;
    }
  }

  lemma {:induction false} Distribute(a: nat, b: nat, q: real)
    ensures Times(a + b, q) == Times(a, q) + Times(b, q)
  {
    if b > 0 {
      Distribute(a, b - 1, q);
    }
  }

  lemma {:induction false} IndexOfIs<T>(s: seq<T>, x: T, k: nat)
    requires k < |s| && s[k] == x && x !in s[..k]
    ensures IndexOf(s, x) == k
  {
    if k > 0 {
      assert s[..k][0] == s[0] && s[..k][1..] == s[1..][..k - 1];
      IndexOfIs(s[1..], x, k - 1);
    }
  }

  /** Several lists put one after the other. */
  function Flatten<T>(parts: seq<seq<T>>): seq<T> {
    if parts == [] then [] else parts[0] + Flatten(parts[1..])
  }

  lemma FlattenOne<T>(part: seq<T>)
    ensures Flatten([part]) == part
  {
    assert [part][1..] == [];
  }

  lemma FlattenTwo<T>(parts: seq<seq<T>>)
    requires |parts| >= 2
    ensures Flatten(parts) == (parts[0] + parts[1]) + Flatten(parts[2..])
  {
    var rest := parts[1..];
    assert rest[0] == parts[1] && rest[1..] == parts[2..];
    assert Flatten(rest) == rest[0] + Flatten(rest[1..]);
  }

  lemma {:induction false} FlattenAppend<T>(parts: seq<seq<T>>, more: seq<seq<T>>)
    ensures Flatten(parts + more) == Flatten(parts) + Flatten(more)
  {
    if parts == [] {
      assert parts + more == more;
    } else {
      assert (parts + more)[1..] == parts[1..] + more;
      FlattenAppend(parts[1..], more);
    }
  }

  lemma FlattenOneMore<T>(parts: seq<seq<T>>, i: nat)
    requires i < |parts|
    ensures Flatten(parts[..i + 1]) == Flatten(parts[..i]) + parts[i]
  {
    OneElementMore(parts, i);
    FlattenAppend(parts[..i], [parts[i]]);
    FlattenOne(parts[i]);
  }

  /** Two lists related element by element. */
  ghost predicate Pointwise<A(!new), B(!new)>(related: (A, B) -> bool, s: seq<A>, t: seq<B>) {
    |s| == |t| && forall i :: 0 <= i < |s| ==> related(s[i], t[i])
  }

  lemma PointwiseAppend<A(!new), B(!new)>(related: (A, B) -> bool, s: seq<A>, t: seq<B>, more: seq<A>, others: seq<B>)
    requires Pointwise(related, s, t) && Pointwise(related, more, others)
    ensures Pointwise(related, s + more, t + others)
  {
  }
}

/** Rotations of a list, and the check `is_rotated` makes for them. */
module Rotation {
  import opened Common

  function RotateBy<T>(s: seq<T>, k: nat): (r: seq<T>)
    requires k <= |s|
    ensures |r| == |s|
  {
    s[k..] + s[..k]
  }

  ghost predicate IsRotation<T>(s: seq<T>, t: seq<T>) {
    exists k :: 0 <= k <= |s| && t == RotateBy(s, k)
  }

  lemma RotationReflexive<T>(s: seq<T>)
    ensures IsRotation(s, s)
  {
    assert s == RotateBy(s, 0);
  }

  lemma RotationSymmetric<T>(s: seq<T>, t: seq<T>)
    requires IsRotation(s, t)
    ensures IsRotation(t, s)
  {
    var k :| 0 <= k <= |s| && t == RotateBy(s, k);
    assert s == RotateBy(t, |s| - k);
  }

  lemma RotateTwice<T>(s: seq<T>, j: nat, k: nat)
    requires j <= |s| && k <= |s|
    ensures RotateBy(RotateBy(s, j), k) == RotateBy(s, if j + k <= |s| then j + k else j + k - |s|)
  {
    var m := if j + k <= |s| then j + k else j + k - |s|;
    var t := RotateBy(s, j);
    forall i | 0 <= i < |s| ensures RotateBy(t, k)[i] == RotateBy(s, m)[i] {
      RotatedAt(s, j, if i < |s| - k then k + i else i - (|s| - k));
      RotatedAt(t, k, i);
      RotatedAt(s, m, i);
    }
  }

  lemma RotatedAt<T>(s: seq<T>, k: nat, i: nat)
    requires k <= |s| && i < |s|
    ensures RotateBy(s, k)[i] == if i < |s| - k then s[k + i] else s[i - (|s| - k)]
  {
  }

  lemma RotationTransitive<T>(s: seq<T>, t: seq<T>, u: seq<T>)
    requires IsRotation(s, t) && IsRotation(t, u)
    ensures IsRotation(s, u)
  {
    var j :| 0 <= j <= |s| && t == RotateBy(s, j);
    var k :| 0 <= k <= |t| && u == RotateBy(t, k);
    RotateTwice(s, j, k);
  }

  /**
   The answer is None where the source fails: two empty lists have the same
   length, but the head item of the second is then read.
   */
  method IsRotated<T(==)>(seq1: seq<T>, seq2: seq<T>) returns (answer: Option<bool>)
    ensures answer == None <==> seq1 == [] && seq2 == []
    ensures answer != None ==> (answer.value <==> IsRotation(seq1, seq2))
  {
    if |seq1| != |seq2| {
      return Some(false);
    }
    if seq2 == [] {
      return None;
    }
    var startIndexes: seq<nat> := [];
    var headItem := seq2[0];
    for index1 := 0 to |seq1|
      invariant forall i :: 0 <= i < |startIndexes| ==> startIndexes[i] < index1
      invariant forall k :: 0 <= k < index1 && seq1[k] == headItem ==> k in startIndexes
    {
      if seq1[index1] == headItem {
        startIndexes := startIndexes + [index1];
      }
    }
    var doubleSeq1 := seq1 + seq1;
    for i := 0 to |startIndexes|
      invariant forall m :: 0 <= m < i ==> seq2 != RotateBy(seq1, startIndexes[m])
    {
      var index1 := startIndexes[i];
      assert doubleSeq1[index1..index1 + |seq1|] == RotateBy(seq1, index1);
      if doubleSeq1[index1..index1 + |seq1|] == seq2 {
        return Some(true);
      }
    }
    assert RotateBy(seq1, |seq1|) == RotateBy(seq1, 0);
    forall k | 0 <= k < |seq1| ensures seq2 != RotateBy(seq1, k) {
      if seq1[k] == headItem {
        assert k in startIndexes;
      } else {
        assert RotateBy(seq1, k)[0] == seq1[k];
      }
    }
    return Some(false);
  }
}

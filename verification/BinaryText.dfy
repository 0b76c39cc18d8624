/** Binary numbers as text, and the counter that lists them. */
module BinaryText {
  import opened Common

  function Power2(n: nat): (p: nat)
    ensures p >= 1
  {
    if n == 0 then 1 else 2 * Power2(n - 1)
  }

  predicate Binary(s: string) {
    forall k :: 0 <= k < |s| ==> s[k] == '0' || s[k] == '1'
  }

  function Reverse<T>(s: seq<T>): (r: seq<T>)
    ensures |r| == |s|
  {
    seq(|s|, k requires 0 <= k < |s| => s[|s| - 1 - k])
  }

  /** The `n` lowest binary digits of `k`, the lowest first. */
  function Bits(k: nat, n: nat): (s: string)
    ensures |s| == n && Binary(s)
  {
    if n == 0 then "" else [if k % 2 == 0 then '0' else '1'] + Bits(k / 2, n - 1)
  }

  /** `k` written with `n` binary digits, the highest first. */
  function Numeral(k: nat, n: nat): (s: string)
    ensures |s| == n && Binary(s)
  {
    Reverse(Bits(k, n))
  }

  // ----- From text to number

  /** The value of a nonempty text of binary digits. */
  function Bin2Int(s: string): nat
    requires Binary(s)
  {
    if s == "" then 0 else 2 * Bin2Int(s[..|s| - 1]) + (if s[|s| - 1] == '1' then 1 else 0)
  }

  lemma NumeralStep(k: nat, n: nat)
    requires n > 0
    ensures Numeral(k, n) == Numeral(k / 2, n - 1) + [if k % 2 == 0 then '0' else '1']
  {
  }

  lemma {:induction false} NumeralValue(k: nat, n: nat)
    requires k < Power2(n)
    ensures Bin2Int(Numeral(k, n)) == k
  {
    if n > 0 {
      NumeralStep(k, n);
      NumeralValue(k / 2, n - 1);
      assert Numeral(k, n)[..n - 1] == Numeral(k / 2, n - 1);
    }
  }

  lemma Halves(x: nat, bit: nat)
    requires bit < 2
    ensures (2 * x + bit) / 2 == x && (2 * x + bit) % 2 == bit
  {
  }

  lemma {:induction false} ValueNumeral(s: string)
    requires Binary(s)
    ensures Bin2Int(s) < Power2(|s|)
    ensures Numeral(Bin2Int(s), |s|) == s
  {
    if s != "" {
      var shorter := s[..|s| - 1];
      ValueNumeral(shorter);
      Halves(Bin2Int(shorter), if s[|s| - 1] == '1' then 1 else 0);
      NumeralStep(Bin2Int(s), |s|);
      assert s == shorter + [s[|s| - 1]];
    }
  }

  // ----- From number to text, by way of hexadecimal digits

  function HexDigits(i: nat): (digits: seq<nat>)
    ensures |digits| >= 1 && forall k :: 0 <= k < |digits| ==> digits[k] < 16
  {
    if i < 16 then [i] else HexDigits(i / 16) + [i % 16]
  }

  /** The four digits that the table has for a hexadecimal digit. */
  function Nibbles(digits: seq<nat>): string
    requires forall k :: 0 <= k < |digits| ==> digits[k] < 16
  {
    if digits == [] then "" else Numeral(digits[0], 4) + Nibbles(digits[1..])
  }

  /** Everything but the last `n` characters, as Python slices: for 0 nothing at all. */
  function AllButLast(s: string, n: nat): string {
    if 0 < n <= |s| then s[..|s| - n] else ""
  }

  /** The last `n` characters, as Python slices: for 0 all of them. */
  function LastOf(s: string, n: nat): string {
    if 0 < n <= |s| then s[|s| - n..] else s
  }

  function Zeros(n: nat): (s: string)
    ensures |s| == n && forall k :: 0 <= k < n ==> s[k] == '0'
  {
    seq(n, k => '0')
  }

  /** None is the exception for a number that is too large. */
  function Int2Bin(i: nat, n: nat): Option<string> {
    var text := Nibbles(HexDigits(i));
    if '1' in AllButLast(text, n) then None else
      var result := LastOf(text, n);
      Some(Zeros(if n > |result| then n - |result| else 0) + result)
  }

  /** `i` without its `n` lowest digits. */
  function Shift(i: nat, n: nat): nat {
    if n == 0 then i else Shift(i / 2, n - 1)
  }

  lemma {:induction false} ShiftedOut(i: nat, n: nat)
    ensures Shift(i, n) == 0 <==> i < Power2(n)
  {
    if n > 0 {
      ShiftedOut(i / 2, n - 1);
    }
  }

  lemma {:induction false} BitsSplit(i: nat, n: nat, m: nat)
    ensures Bits(i, n + m) == Bits(i, n) + Bits(Shift(i, n), m)
  {
    if n > 0 {
      BitsSplit(i / 2, n - 1, m);
    }
  }

  lemma {:induction false} ZeroBits(m: nat)
    ensures Bits(0, m) == Zeros(m)
  {
    if m > 0 {
      ZeroBits(m - 1);
    }
  }

  lemma {:induction false} SomeBit(i: nat, m: nat)
    requires i < Power2(m)
    ensures '1' in Bits(i, m) <==> i > 0
  {
    if m > 0 {
      SomeBit(i / 2, m - 1);
    }
  }

  /** One halving of a number and of its remainder. */
  lemma Halved(i: nat, q: nat, d: nat, p: nat)
    requires i == 2 * (p * q) + d
    ensures i / 2 == p * q + d / 2 && i % 2 == d % 2
  {
  }

  lemma BitsShift(i: nat, n: nat)
    requires n > 0
    ensures Shift(i, n) == Shift(i / 2, n - 1)
    ensures Bits(i, n) == [if i % 2 == 0 then '0' else '1'] + Bits(i / 2, n - 1)
  {
  }

  /** The four lowest digits are those of the last hexadecimal digit. */
  lemma LowNibble(i: nat)
    ensures Shift(i, 4) == i / 16
    ensures Bits(i, 4) == Bits(i % 16, 4)
  {
    var q, d := i / 16, i % 16;
    Halved(i, q, d, 8);
    Halved(i / 2, q, d / 2, 4);
    Halved(i / 2 / 2, q, d / 2 / 2, 2);
    Halved(i / 2 / 2 / 2, q, d / 2 / 2 / 2, 1);
    assert d / 2 / 2 / 2 / 2 == 0;
    FourBits(i);
    FourBits(d);
  }

  lemma FourBits(i: nat)
    ensures Shift(i, 4) == i / 2 / 2 / 2 / 2
    ensures Bits(i, 4) == [if i % 2 == 0 then '0' else '1', if i / 2 % 2 == 0 then '0' else '1',
                           if i / 2 / 2 % 2 == 0 then '0' else '1', if i / 2 / 2 / 2 % 2 == 0 then '0' else '1']
  {
    BitsShift(i, 4);
    BitsShift(i / 2, 3);
    BitsShift(i / 2 / 2, 2);
    BitsShift(i / 2 / 2 / 2, 1);
  }

  lemma {:induction false} NibblesAppend(digits: seq<nat>, d: nat)
    requires d < 16 && forall k :: 0 <= k < |digits| ==> digits[k] < 16
    ensures Nibbles(digits + [d]) == Nibbles(digits) + Numeral(d, 4)
  {
    if digits == [] {
      assert [] + [d] == [d] && [d][1..] == [];
    } else {
      assert (digits + [d])[1..] == digits[1..] + [d];
      NibblesAppend(digits[1..], d);
    }
  }

  lemma ReverseAppend<T>(s: seq<T>, t: seq<T>)
    ensures Reverse(s + t) == Reverse(t) + Reverse(s)
  {
  }

  lemma SixteenTimes(m: nat)
    ensures Power2(4 + m) == 16 * Power2(m)
  {
    assert Power2(4 + m) == 2 * Power2(3 + m);
    assert Power2(3 + m) == 2 * Power2(2 + m);
    assert Power2(2 + m) == 2 * Power2(1 + m);
  }

  lemma OneNibbleMore(i: nat, m: nat)
    ensures Numeral(i, 4 + m) == Numeral(i / 16, m) + Numeral(i % 16, 4)
  {
    LowNibble(i);
    BitsSplit(i, 4, m);
    ReverseAppend(Bits(i, 4), Bits(i / 16, m));
  }

  lemma HexStep(i: nat)
    requires i >= 16
    ensures |HexDigits(i)| == |HexDigits(i / 16)| + 1
    ensures Nibbles(HexDigits(i)) == Nibbles(HexDigits(i / 16)) + Numeral(i % 16, 4)
  {
    NibblesAppend(HexDigits(i / 16), i % 16);
  }

  lemma HexDigit(i: nat)
    requires i < 16
    ensures |HexDigits(i)| == 1 && Nibbles(HexDigits(i)) == Numeral(i, 4)
  {
    assert [i][1..] == [];
  }

  /** The hexadecimal way writes the number with four binary digits for each digit. */
  lemma {:induction false} NibblesAreNumeral(i: nat)
    ensures i < Power2(4 * |HexDigits(i)|)
    ensures Nibbles(HexDigits(i)) == Numeral(i, 4 * |HexDigits(i)|)
  {
    if i < 16 {
      HexDigit(i);
      SixteenTimes(0);
    } else {
      var m := 4 * |HexDigits(i / 16)|;
      NibblesAreNumeral(i / 16);
      HexStep(i);
      OneNibbleMore(i, m);
      SixteenTimes(m);
    }
  }

  lemma {:induction false} ShiftBound(i: nat, n: nat, m: nat)
    requires i < Power2(n + m)
    ensures Shift(i, n) < Power2(m)
  {
    if n > 0 {
      ShiftBound(i / 2, n - 1, m);
    }
  }

  lemma NumeralHasOne(i: nat, m: nat)
    requires i < Power2(m)
    ensures '1' in Numeral(i, m) <==> i > 0
  {
    SomeBit(i, m);
    if '1' in Bits(i, m) {
      var k :| 0 <= k < m && Bits(i, m)[k] == '1';
      assert Numeral(i, m)[m - 1 - k] == '1';
    }
  }

  lemma HighDigits(i: nat, n: nat, m: nat)
    requires i < Power2(n + m)
    ensures '1' in Numeral(Shift(i, n), m) <==> i >= Power2(n)
  {
    ShiftBound(i, n, m);
    NumeralHasOne(Shift(i, n), m);
    ShiftedOut(i, n);
  }

  lemma CutNumeral(i: nat, n: nat, k: nat)
    requires n >= 1
    ensures AllButLast(Numeral(i, n + k), n) == Numeral(Shift(i, n), k)
    ensures LastOf(Numeral(i, n + k), n) == Numeral(i, n)
  {
    BitsSplit(i, n, k);
    ReverseAppend(Bits(i, n), Bits(Shift(i, n), k));
  }

  /** More digits than asked for: those in front must be zero. */
  lemma LongText(i: nat, n: nat, k: nat)
    requires n >= 1 && i < Power2(n + k)
    ensures '1' in AllButLast(Numeral(i, n + k), n) <==> i >= Power2(n)
    ensures LastOf(Numeral(i, n + k), n) == Numeral(i, n)
  {
    CutNumeral(i, n, k);
    HighDigits(i, n, k);
  }

  /** Fewer digits than asked for: zeros are put in front. */
  lemma ShortText(i: nat, n: nat, m: nat)
    requires m < n && i < Power2(m)
    ensures i < Power2(n)
    ensures Zeros(n - m) + Numeral(i, m) == Numeral(i, n)
  {
    ShiftedOut(i, m);
    BitsSplit(i, m, n - m);
    ZeroBits(n - m);
    ReverseAppend(Bits(i, m), Zeros(n - m));
    assert Reverse(Zeros(n - m)) == Zeros(n - m);
    PowerGrows(m, n);
  }

  lemma {:induction false} PowerGrows(m: nat, n: nat)
    requires m <= n
    ensures Power2(m) <= Power2(n)
  {
    if m < n {
      PowerGrows(m, n - 1);
    }
  }

  lemma WideText(i: nat, n: nat, k: nat)
    requires n >= 1 && i < Power2(n + k) && Nibbles(HexDigits(i)) == Numeral(i, n + k)
    ensures Int2Bin(i, n) == if i < Power2(n) then Some(Numeral(i, n)) else None
  {
    LongText(i, n, k);
    assert Zeros(0) + Numeral(i, n) == Numeral(i, n);
  }

  lemma NarrowText(i: nat, n: nat, m: nat)
    requires m < n && i < Power2(m) && Nibbles(HexDigits(i)) == Numeral(i, m)
    ensures i < Power2(n) && Int2Bin(i, n) == Some(Numeral(i, n))
  {
    ShortText(i, n, m);
  }

  lemma NoWidth(i: nat, m: nat)
    requires Nibbles(HexDigits(i)) == Numeral(i, m)
    ensures Int2Bin(i, 0) == Some(Numeral(i, m))
  {
    assert Zeros(0) + Numeral(i, m) == Numeral(i, m);
  }

  /**
   For a number that fits, its numeral; for a larger one, the exception.  A width
   of 0 is taken as no width at all: the digits of all hexadecimal digits.
   */
  lemma Int2BinExactly(i: nat, n: nat)
    ensures n >= 1 ==> Int2Bin(i, n) == if i < Power2(n) then Some(Numeral(i, n)) else None
    ensures n == 0 ==> Int2Bin(i, n) == Some(Numeral(i, 4 * |HexDigits(i)|))
  {
    var m := 4 * |HexDigits(i)|;
    NibblesAreNumeral(i);
    if n == 0 {
      NoWidth(i, m);
    } else if n <= m {
      WideText(i, n, m - n);
    } else {
      NarrowText(i, n, m);
    }
  }

  /** `int2bin` fails exactly for numbers that need more digits, and `bin2int` undoes it. */
  lemma BinRoundTrip(i: nat, n: nat)
    requires n >= 1
    ensures Int2Bin(i, n).Some? <==> i < Power2(n)
    ensures Int2Bin(i, n).Some? ==> Binary(Int2Bin(i, n).value) && Bin2Int(Int2Bin(i, n).value) == i
  {
    Int2BinExactly(i, n);
    if i < Power2(n) {
      NumeralValue(i, n);
    }
  }

  lemma BinTextRoundTrip(s: string)
    requires s != "" && Binary(s)
    ensures Int2Bin(Bin2Int(s), |s|) == Some(s)
  {
    ValueNumeral(s);
    Int2BinExactly(Bin2Int(s), |s|);
  }

  // ----- The counter

  /** One more, with the carry that is left over. */
  function Increment(v: string): (next: (string, bool))
    ensures |next.0| == |v|
  {
    if v == "" then ("", true)
    else if v[0] == '0' then (['1'] + v[1..], false)
    else (['0'] + Increment(v[1..]).0, Increment(v[1..]).1)
  }

  lemma {:induction false} IncrementCounts(k: nat, n: nat)
    requires k < Power2(n)
    ensures Increment(Bits(k, n)) == (Bits(k + 1, n), k + 1 == Power2(n))
  {
    if n > 0 && k % 2 == 1 {
      IncrementCounts(k / 2, n - 1);
      assert (k + 1) / 2 == k / 2 + 1;
    }
  }

  /** The digits up to a place have been turned, and a carry goes into it. */
  ghost predicate Carrying(start: string, v: string, i: nat) {
    && i <= |v| == |start|
    && v[i..] == start[i..]
    && Increment(start) == (v[..i] + Increment(start[i..]).0, Increment(start[i..]).1)
  }

  lemma CarryOn(start: string, v: string, i: nat)
    requires Carrying(start, v, i) && i < |v| && v[i] != '0'
    ensures Carrying(start, v[i := '0'], i + 1)
  {
    var w := v[i := '0'];
    OneElementLess(start, i);
    assert start[i] == v[i..][0] && w[..i] == v[..i];
    assert w[..i + 1] == v[..i] + ['0'];
    assert Increment(start[i..]).0 == ['0'] + Increment(start[i + 1..]).0;
    assert v[..i] + (['0'] + Increment(start[i + 1..]).0) == w[..i + 1] + Increment(start[i + 1..]).0;
  }

  lemma CarryStarts(start: string)
    ensures Carrying(start, start, 0)
  {
    assert start[0..] == start;
    assert start[..0] + Increment(start).0 == Increment(start).0;
  }

  lemma CarryEnds(start: string, v: string, i: nat)
    requires Carrying(start, v, i) && i < |v| && v[i] == '0'
    ensures Increment(start) == (v[i := '1'], false)
  {
    OneElementLess(start, i);
    assert start[i] == v[i..][0];
    assert v[i := '1'] == v[..i] + (['1'] + v[i..][1..]);
  }

  /** Adds one in place; the toggle behind the last digit is the carry that is left over. */
  method CountUp(v: array<char>, toggle: array<int>)
    requires toggle.Length == v.Length + 1
    modifies v, toggle
    ensures v[..] == Increment(old(v[..])).0
    ensures v.Length > 0 ==> (toggle[v.Length] == 1 <==> Increment(old(v[..])).1)
  {
    ghost var start := v[..];
    forall k | 0 <= k < toggle.Length {
      toggle[k] := if k == 0 then 1 else 0;
    }
    var i := 0;
    CarryStarts(start);
    while i < v.Length && toggle[i] == 1
      invariant 0 <= i <= v.Length
      invariant forall k :: i < k < toggle.Length ==> toggle[k] == 0
      invariant toggle[i] == 1 || (toggle[i] == 0 && i > 0)
      invariant toggle[i] == 1 ==> Carrying(start, v[..], i)
      invariant toggle[i] == 0 ==> Increment(start) == (v[..], false)
    {
      ghost var before := v[..];
      if v[i] == '0' {
        CarryEnds(start, before, i);
        v[i] := '1';
        toggle[i + 1] := 0;
        assert v[..] == before[i := '1'];
      } else {
        CarryOn(start, before, i);
        v[i] := '0';
        toggle[i + 1] := 1;
        assert v[..] == before[i := '0'];
      }
      i := i + 1;
    }
    if toggle[i] == 1 {
      assert v[..i] == v[..] && start[i..] == "";
    }
  }

  lemma CountNext(k: nat, n: nat, v: string)
    requires k < Power2(n) && v == Bits(k, n)
    ensures Increment(v).0 == Bits(k + 1, n) && Reverse(v) == Numeral(k, n)
    ensures k + 1 <= Power2(n) && (Increment(v).1 <==> k + 1 == Power2(n))
  {
    IncrementCounts(k, n);
  }

  /** What has been listed so far, with the digits of the next number and the carry out of them. */
  ghost predicate Listed(l: seq<string>, digits: string, carry: bool, bits: nat) {
    && |l| <= Power2(bits)
    && digits == Bits(|l|, bits)
    && (carry <==> |l| == Power2(bits))
    && forall k :: 0 <= k < |l| ==> l[k] == Numeral(k, bits)
  }

  lemma NothingListed(bits: nat)
    requires bits > 0
    ensures Listed([], Zeros(bits), false, bits)
  {
    ZeroBits(bits);
  }

  lemma OneMoreListed(l: seq<string>, digits: string, bits: nat)
    requires Listed(l, digits, false, bits)
    ensures |l| < Power2(bits)
    ensures Listed(l + [Reverse(digits)], Increment(digits).0, Increment(digits).1, bits)
  {
    CountNext(|l|, bits, digits);
  }

  /** All numbers of a width, in order; for the width 0 there is none. */
  method BinaryRange(bits: nat) returns (l: seq<string>)
    ensures |l| == if bits == 0 then 0 else Power2(bits)
    ensures forall k :: 0 <= k < |l| ==> l[k] == Numeral(k, bits)
  {
    l := [];
    var v := new char[bits](_ => '0');
    var toggle := new int[bits + 1](k => if k == 0 then 1 else 0);
    if bits > 0 {
      NothingListed(bits);
      assert v[..] == Zeros(bits);
    }
    while toggle[bits] != 1
      invariant toggle.Length == v.Length + 1 == bits + 1
      invariant bits > 0 ==> Listed(l, v[..], toggle[bits] == 1, bits)
      invariant bits == 0 ==> toggle[0] == 1 && l == []
      decreases Power2(bits) - |l|
    {
      OneMoreListed(l, v[..], bits);
      l := l + [Reverse(v[..])];
      CountUp(v, toggle);
    }
  }

  /** The list that is returned agrees with `int2bin` entry by entry. */
  lemma RangeIsInt2Bin(l: seq<string>, bits: nat)
    requires bits >= 1 && |l| == Power2(bits)
    ensures (forall k :: 0 <= k < |l| ==> l[k] == Numeral(k, bits))
        <==> forall k :: 0 <= k < |l| ==> Int2Bin(k, bits) == Some(l[k])
  {
    forall k | 0 <= k < |l| ensures Int2Bin(k, bits) == Some(Numeral(k, bits)) {
      Int2BinExactly(k, bits);
    }
  }
}

/** Text of the unified-diff tools: lines, decimal numbers and chunk headers. */
module PatchText {
  import opened Common

  // ----- Lines

  predicate OneLine(s: string) {
    '\n' !in s
  }

  predicate AllOneLine(lines: seq<string>) {
    forall k :: 0 <= k < |lines| ==> OneLine(lines[k])
  }

  function Unlines(lines: seq<string>): string {
    if lines == [] then "" else lines[0] + "\n" + Unlines(lines[1..])
  }

  /** The lines of a text, as iterating over a file yields them, without their ends. */
  function Lines(text: string): (lines: seq<string>)
    ensures AllOneLine(lines)
    decreases |text|
  {
    if text == "" then []
    else if '\n' in text then
      var k := IndexOf(text, '\n');
      [text[..k]] + Lines(text[k + 1..])
    else [text]
  }

  lemma FirstLine(line: string, rest: string)
    requires OneLine(line)
    ensures Lines(line + "\n" + rest) == [line] + Lines(rest)
  {
    var text := line + "\n" + rest;
    assert text[|line|] == '\n';
    assert text[..|line|] == line && text[|line| + 1..] == rest;
    IndexOfIs(text, '\n', |line|);
  }

  lemma {:induction false} LinesOfUnlines(lines: seq<string>)
    requires AllOneLine(lines)
    ensures Lines(Unlines(lines)) == lines
  {
    if lines != [] {
      LinesOfUnlines(lines[1..]);
      FirstLine(lines[0], Unlines(lines[1..]));
    }
  }

  lemma {:induction false} UnlinesAppend(lines: seq<string>, more: seq<string>)
    ensures Unlines(lines + more) == Unlines(lines) + Unlines(more)
  {
    if lines == [] {
      assert lines + more == more;
    } else {
      assert (lines + more)[1..] == lines[1..] + more;
      UnlinesAppend(lines[1..], more);
    }
  }

  // ----- Decimal numbers

  predicate IsDigit(c: char) {
    '0' <= c <= '9'
  }

  function Digit(d: nat): (c: char)
    requires d < 10
    ensures IsDigit(c) && c as int - '0' as int == d
  {
    ('0' as int + d) as char
  }

  predicate AllDigits(s: string) {
    forall k :: 0 <= k < |s| ==> IsDigit(s[k])
  }

  function Decimal(n: nat): string {
    if n < 10 then [Digit(n)] else Decimal(n / 10) + [Digit(n % 10)]
  }

  lemma {:induction false} DecimalDigits(n: nat)
    ensures |Decimal(n)| > 0 && AllDigits(Decimal(n))
  {
    if n >= 10 {
      DecimalDigits(n / 10);
    }
  }

  /** A number as `%d` writes it. */
  function Signed(n: int): string {
    if n < 0 then "-" + Decimal(-n) else Decimal(n)
  }

  /** The value of a run of digits, as `int` reads it. */
  function ToNat(s: string): nat
    requires AllDigits(s)
  {
    if s == "" then 0 else 10 * ToNat(s[..|s| - 1]) + (s[|s| - 1] as int - '0' as int)
  }

  lemma {:induction false} ToNatOfDecimal(n: nat)
    ensures AllDigits(Decimal(n)) && ToNat(Decimal(n)) == n
  {
    DecimalDigits(n);
    if n < 10 {
      assert Decimal(n)[..0] == "";
    } else {
      ToNatOfDecimal(n / 10);
      assert Decimal(n)[..|Decimal(n)| - 1] == Decimal(n / 10);
    }
  }

  // ----- Pieces of the regular expression for chunk headers

  function DigitRun(s: string): (n: nat)
    ensures n <= |s| && AllDigits(s[..n])
    ensures n < |s| ==> !IsDigit(s[n])
  {
    if s == "" || !IsDigit(s[0]) then 0 else
      var n := DigitRun(s[1..]);
      assert s[..n + 1] == [s[0]] + s[1..][..n];
      1 + n
  }

  /** `[0-9]+`: a number and what follows it. */
  function TakeNat(s: string): Option<(nat, string)> {
    var n := DigitRun(s);
    if n == 0 then None else Some((ToNat(s[..n]), s[n..]))
  }

  /** A literal piece of the expression, and what follows it. */
  function Expect(s: string, literal: string): Option<string> {
    if literal <= s then Some(s[|literal|..]) else None
  }

  lemma TakeDecimal(n: nat, rest: string)
    requires rest != "" && !IsDigit(rest[0])
    ensures TakeNat(Decimal(n) + rest) == Some((n, rest))
  {
    var d := Decimal(n);
    DecimalDigits(n);
    assert (d + rest)[..|d|] == d && (d + rest)[|d|..] == rest;
    DigitRunIs(d + rest, |d|);
    ToNatOfDecimal(n);
  }

  lemma {:induction false} DigitRunIs(s: string, k: nat)
    requires k <= |s| && AllDigits(s[..k]) && (k < |s| ==> !IsDigit(s[k]))
    ensures DigitRun(s) == k
  {
    if k > 0 {
      assert s[..k][0] == s[0];
      assert s[1..][..k - 1] == s[..k][1..];
      DigitRunIs(s[1..], k - 1);
    }
  }

  /** One position of a header: a number, a comma, a length that is not kept. */
  function TakeRange(s: string): Option<(nat, string)> {
    match TakeNat(s)
    case None => None
    case Some((pos, afterPos)) =>
      match Expect(afterPos, ",")
      case None => None
      case Some(afterComma) =>
        match TakeNat(afterComma)
        case None => None
        case Some((_, rest)) => Some((pos, rest))
  }

  /** The second half of a chunk header. */
  function TakeDst(s: string): Option<nat> {
    match Expect(s, " +")
    case None => None
    case Some(afterPlus) =>
      match TakeRange(afterPlus)
      case None => None
      case Some((dstPos, rest)) => if Expect(rest, " @@").Some? then Some(dstPos) else None
  }

  /** The two positions of a chunk header; the expression is not anchored at its end. */
  function ParseHeader(line: string): Option<(nat, nat)> {
    match Expect(line, "@@ -")
    case None => None
    case Some(afterStart) =>
      match TakeRange(afterStart)
      case None => None
      case Some((srcPos, rest)) =>
        match TakeDst(rest)
        case None => None
        case Some(dstPos) => Some((srcPos, dstPos))
  }

  /** A position and a length, and what follows them. */
  function Range(pos: int, length: nat, rest: string): string {
    Signed(pos) + ("," + (Decimal(length) + rest))
  }

  function Header(srcPos: int, srcLen: nat, dstPos: int, dstLen: nat): string {
    "@@ -" + Range(srcPos, srcLen, " +" + Range(dstPos, dstLen, " @@"))
  }

  lemma ExpectLiteral(literal: string, rest: string)
    ensures Expect(literal + rest, literal) == Some(rest)
  {
    assert (literal + rest)[..|literal|] == literal;
  }

  lemma TakeWrittenRange(pos: nat, length: nat, rest: string)
    requires rest != "" && !IsDigit(rest[0])
    ensures TakeRange(Range(pos, length, rest)) == Some((pos, rest))
  {
    TakeDecimal(pos, "," + (Decimal(length) + rest));
    ExpectLiteral(",", Decimal(length) + rest);
    TakeDecimal(length, rest);
  }

  lemma TakeWrittenDst(pos: nat, length: nat)
    ensures TakeDst(" +" + Range(pos, length, " @@")) == Some(pos)
  {
    ExpectLiteral(" +", Range(pos, length, " @@"));
    TakeWrittenRange(pos, length, " @@");
  }

  /** A header with positions that are not negative is read back as it was written. */
  lemma HeaderRoundTrip(srcPos: nat, srcLen: nat, dstPos: nat, dstLen: nat)
    ensures ParseHeader(Header(srcPos, srcLen, dstPos, dstLen)) == Some((srcPos, dstPos))
  {
    var dst := " +" + Range(dstPos, dstLen, " @@");
    ExpectLiteral("@@ -", Range(srcPos, srcLen, dst));
    TakeWrittenRange(srcPos, srcLen, dst);
    TakeWrittenDst(dstPos, dstLen);
  }

  lemma RangeIsOneLine(pos: int, length: nat, rest: string)
    requires OneLine(rest)
    ensures OneLine(Range(pos, length, rest))
  {
    DecimalDigits(if pos < 0 then -pos else pos);
    DecimalDigits(length);
  }

  lemma HeaderIsOneLine(srcPos: int, srcLen: nat, dstPos: int, dstLen: nat)
    ensures OneLine(Header(srcPos, srcLen, dstPos, dstLen))
  {
    RangeIsOneLine(dstPos, dstLen, " @@");
    RangeIsOneLine(srcPos, srcLen, " +" + Range(dstPos, dstLen, " @@"));
  }
}

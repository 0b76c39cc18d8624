/** Which texts the reader of unified diffs accepts. */
module PatchReading {
  import opened Common
  import opened PatchText
  import opened PatchSet

  // ----- Chunk headers, as the regular expression has them

  predicate Number(d: string) {
    d != "" && AllDigits(d)
  }

  /** A position, a comma, a length, and what follows. */
  function Pair(pos: string, length: string, rest: string): string {
    pos + ("," + (length + rest))
  }

  function HeaderText(srcPos: string, srcLen: string, dstPos: string, dstLen: string, rest: string): string {
    "@@ -" + Pair(srcPos, srcLen, " +" + Pair(dstPos, dstLen, " @@" + rest))
  }

  /** The line starts with a header with these four numbers. */
  ghost predicate HeaderWith(s: string, srcPos: string, srcLen: string, dstPos: string, dstLen: string, rest: string) {
    Number(srcPos) && Number(srcLen) && Number(dstPos) && Number(dstLen)
    && s == HeaderText(srcPos, srcLen, dstPos, dstLen, rest)
  }

  lemma TakeNumber(d: string, rest: string)
    requires Number(d) && rest != "" && !IsDigit(rest[0])
    ensures TakeNat(d + rest) == Some((ToNat(d), rest))
  {
    assert (d + rest)[..|d|] == d && (d + rest)[|d|..] == rest;
    DigitRunIs(d + rest, |d|);
  }

  lemma TakePair(pos: string, length: string, rest: string)
    requires Number(pos) && Number(length) && rest != "" && !IsDigit(rest[0])
    ensures TakeRange(Pair(pos, length, rest)) == Some((ToNat(pos), rest))
  {
    TakeNumber(pos, "," + (length + rest));
    ExpectLiteral(",", length + rest);
    TakeNumber(length, rest);
  }

  lemma SecondTaken(pos: string, length: string, rest: string)
    requires Number(pos) && Number(length)
    ensures TakeDst(" +" + Pair(pos, length, " @@" + rest)) == Some(ToNat(pos))
  {
    ExpectLiteral(" +", Pair(pos, length, " @@" + rest));
    TakePair(pos, length, " @@" + rest);
    ExpectLiteral(" @@", rest);
  }

  lemma HeaderTaken(srcPos: string, srcLen: string, dstPos: string, dstLen: string, rest: string)
    requires Number(srcPos) && Number(srcLen) && Number(dstPos) && Number(dstLen)
    ensures ParseHeader(HeaderText(srcPos, srcLen, dstPos, dstLen, rest)) == Some((ToNat(srcPos), ToNat(dstPos)))
  {
    var second := " +" + Pair(dstPos, dstLen, " @@" + rest);
    ExpectLiteral("@@ -", Pair(srcPos, srcLen, second));
    TakePair(srcPos, srcLen, second);
    SecondTaken(dstPos, dstLen, rest);
  }

  lemma NumberTaken(s: string) returns (d: string)
    requires TakeNat(s).Some?
    ensures Number(d) && TakeNat(s).value.0 == ToNat(d) && s == d + TakeNat(s).value.1
  {
    d := s[..DigitRun(s)];
  }

  lemma LiteralTaken(s: string, literal: string)
    requires Expect(s, literal).Some?
    ensures s == literal + Expect(s, literal).value
  {
  }

  lemma PairTaken(s: string) returns (pos: string, length: string)
    requires TakeRange(s).Some?
    ensures Number(pos) && Number(length) && ToNat(pos) == TakeRange(s).value.0
    ensures s == Pair(pos, length, TakeRange(s).value.1)
  {
    pos := NumberTaken(s);
    var afterPos := TakeNat(s).value.1;
    LiteralTaken(afterPos, ",");
    length := NumberTaken(Expect(afterPos, ",").value);
  }

  lemma SecondPairTaken(s: string) returns (pos: string, length: string, rest: string)
    requires TakeDst(s).Some?
    ensures Number(pos) && Number(length) && ToNat(pos) == TakeDst(s).value
    ensures s == " +" + Pair(pos, length, " @@" + rest)
  {
    LiteralTaken(s, " +");
    var afterPlus := Expect(s, " +").value;
    pos, length := PairTaken(afterPlus);
    LiteralTaken(TakeRange(afterPlus).value.1, " @@");
    rest := Expect(TakeRange(afterPlus).value.1, " @@").value;
  }

  lemma TakenHeader(s: string)
    returns (srcPos: string, srcLen: string, dstPos: string, dstLen: string, rest: string)
    requires ParseHeader(s).Some?
    ensures HeaderWith(s, srcPos, srcLen, dstPos, dstLen, rest)
    ensures ParseHeader(s).value == (ToNat(srcPos), ToNat(dstPos))
  {
    LiteralTaken(s, "@@ -");
    var afterStart := Expect(s, "@@ -").value;
    srcPos, srcLen := PairTaken(afterStart);
    dstPos, dstLen, rest := SecondPairTaken(TakeRange(afterStart).value.1);
  }

  ghost predicate IsHeader(s: string) {
    exists srcPos, srcLen, dstPos, dstLen, rest :: HeaderWith(s, srcPos, srcLen, dstPos, dstLen, rest)
  }

  /** A line is a chunk header exactly if it starts with one, and its numbers are those written there. */
  lemma HeaderExactly(s: string)
    ensures ParseHeader(s).Some? <==> IsHeader(s)
    ensures forall srcPos, srcLen, dstPos, dstLen, rest :: HeaderWith(s, srcPos, srcLen, dstPos, dstLen, rest) ==>
      ParseHeader(s) == Some((ToNat(srcPos), ToNat(dstPos)))
  {
    if ParseHeader(s).Some? {
      var srcPos, srcLen, dstPos, dstLen, rest := TakenHeader(s);
      assert HeaderWith(s, srcPos, srcLen, dstPos, dstLen, rest);
    }
    forall srcPos, srcLen, dstPos, dstLen, rest | HeaderWith(s, srcPos, srcLen, dstPos, dstLen, rest)
      ensures ParseHeader(s) == Some((ToNat(srcPos), ToNat(dstPos)))
    {
      HeaderTaken(srcPos, srcLen, dstPos, dstLen, rest);
    }
  }

  // ----- The lines of an accepted text

  predicate IsSrcName(s: string) {
    "--- " <= s
  }

  predicate IsDstName(s: string) {
    "+++ " <= s
  }

  /** A line with a mark that is neither the name of a file nor, as its mark shows, a header. */
  predicate IsContent(s: string) {
    s != "" && s[0] in {'-', '+', ' '} && !IsSrcName(s) && !IsDstName(s)
  }

  /** A source file comes first of all, and a header before any content. */
  ghost predicate InPlace(lines: seq<string>, i: nat)
    requires i < |lines|
  {
    || IsSrcName(lines[i])
    || ((IsDstName(lines[i]) || IsHeader(lines[i])) && exists j :: 0 <= j < i && IsSrcName(lines[j]))
    || (IsContent(lines[i]) && exists j :: 0 <= j < i && IsHeader(lines[j]))
  }

  lemma Marked(literal: string, s: string)
    requires literal != "" && literal <= s
    ensures s != "" && s[0] == literal[0]
  {
  }

  lemma OneMark(c: char, s: string)
    ensures [c] <= s <==> s != "" && s[0] == c
  {
  }

  lemma HeaderIsMarked(s: string)
    requires ParseHeader(s).Some?
    ensures s != "" && s[0] == '@'
  {
    Marked("@@ -", s);
  }

  lemma ClassExactly(s: string)
    ensures Classify(s).SrcFile? <==> IsSrcName(s)
    ensures Classify(s).DstFile? <==> IsDstName(s)
    ensures Classify(s).ChunkStart? <==> IsHeader(s)
    ensures Classify(s).Content? <==> IsContent(s)
  {
    HeaderExactly(s);
    OneMark('-', s);
    OneMark('+', s);
    OneMark(' ', s);
    if IsSrcName(s) {
      Marked("--- ", s);
    }
    if IsDstName(s) {
      Marked("+++ ", s);
    }
    if ParseHeader(s).Some? {
      HeaderIsMarked(s);
    }
  }

  /** The reader has begun a patch, or a chunk, exactly if it has met a line that begins one. */
  ghost predicate Begun(r: Reader, done: seq<string>) {
    && (r.patches != [] <==> exists j :: 0 <= j < |done| && IsSrcName(done[j]))
    && (r.current.Some? <==> exists j :: 0 <= j < |done| && IsHeader(done[j]))
  }

  lemma StepBegins(r: Reader, done: seq<string>, line: string)
    requires ReaderOk(r) && Begun(r, done)
    ensures StepOn(r, Classify(line)).Some? <==> InPlace(done + [line], |done|)
    ensures StepOn(r, Classify(line)).Some? ==> Begun(StepOn(r, Classify(line)).value, done + [line])
  {
    ClassExactly(line);
    var more := done + [line];
    assert forall j :: 0 <= j < |done| ==> more[j] == done[j];
    assert more[|done|] == line;
  }

  lemma {:induction false} ReadsExactly(r: Reader, done: seq<string>, lines: seq<string>)
    requires ReaderOk(r) && Begun(r, done)
    ensures ReadFrom(r, lines).Some? <==>
      forall i :: |done| <= i < |done + lines| ==> InPlace(done + lines, i)
    decreases |lines|
  {
    if lines != [] {
      var next := StepOn(r, Classify(lines[0]));
      StepBegins(r, done, lines[0]);
      assert done + lines == done + [lines[0]] + lines[1..];
      SamePlace(done + [lines[0]], lines[1..], |done|);
      if next.Some? {
        ReadsExactly(next.value, done + [lines[0]], lines[1..]);
      }
    }
  }

  lemma SamePlace(lines: seq<string>, more: seq<string>, i: nat)
    requires i < |lines|
    ensures InPlace(lines + more, i) <==> InPlace(lines, i)
  {
    assert forall j :: 0 <= j < |lines| ==> (lines + more)[j] == lines[j];
  }

  /** A text is read without an exception exactly if every line of it is in its place. */
  lemma ParsesExactly(lines: seq<string>)
    ensures Parse(lines).Some? <==> forall i :: 0 <= i < |lines| ==> InPlace(lines, i)
  {
    ReadsExactly(START, [], lines);
    assert [] + lines == lines;
  }
}

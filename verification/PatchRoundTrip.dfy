/** When a patch set that was written is read back unchanged. */
module PatchRoundTrip {
  import opened Common
  import opened PatchText
  import opened PatchSet

  // ----- The condition, which a writer can check

  /** Written with its mark in front, the line looks like the name of a file. */
  predicate NameLike(l: Line) {
    || (l.kind == Src && "-- " <= l.text)
    || (l.kind == Dst && "++ " <= l.text)
  }

  /** Everything is on one line, and the positions are numbers without a sign. */
  predicate ChunkReadable(c: Chunk) {
    && c.srcPos >= 0
    && c.dstPos >= 0
    && forall i :: 0 <= i < |c.lines| ==> OneLine(c.lines[i].text)
  }

  predicate PatchReadable(p: Patch) {
    && OneLine(p.src)
    && OneLine(p.dst)
    && forall j :: 0 <= j < |p.chunks| ==> ChunkReadable(p.chunks[j])
  }

  predicate ChunkPlain(c: Chunk) {
    forall i :: 0 <= i < |c.lines| ==> !NameLike(c.lines[i])
  }

  predicate PatchPlain(p: Patch) {
    forall j :: 0 <= j < |p.chunks| ==> ChunkPlain(p.chunks[j])
  }

  predicate Readable(patches: seq<Patch>) {
    forall k :: 0 <= k < |patches| ==> PatchReadable(patches[k])
  }

  predicate Plain(patches: seq<Patch>) {
    forall k :: 0 <= k < |patches| ==> PatchPlain(patches[k])
  }

  predicate Clean(patches: seq<Patch>) {
    Readable(patches) && Plain(patches)
  }

  // ----- How written lines are read

  lemma SrcNameRead(name: string)
    ensures Classify("--- " + name) == SrcFile(name)
  {
    ExpectLiteral("--- ", name);
  }

  lemma DstNameRead(name: string)
    ensures Classify("+++ " + name) == DstFile(name)
  {
    ExpectLiteral("+++ ", name);
    assert ("+++ " + name)[0] == '+';
  }

  lemma NoHeader(s: string)
    requires s != "" && s[0] != '@'
    ensures ParseHeader(s).None?
  {
  }

  lemma ChunkStartRead(s: string)
    requires s != "" && s[0] == '@' && ParseHeader(s).Some?
    ensures Classify(s) == ChunkStart(ParseHeader(s).value.0, ParseHeader(s).value.1)
  {
  }

  lemma HeaderMark(srcPos: int, srcLen: nat, dstPos: int, dstLen: nat)
    ensures Header(srcPos, srcLen, dstPos, dstLen) != "" && Header(srcPos, srcLen, dstPos, dstLen)[0] == '@'
  {
    var tail := Range(srcPos, srcLen, " +" + Range(dstPos, dstLen, " @@"));
    assert ("@@ -" + tail)[0] == '@';
  }

  lemma HeaderRead(srcPos: nat, srcLen: nat, dstPos: nat, dstLen: nat)
    ensures Classify(Header(srcPos, srcLen, dstPos, dstLen)) == ChunkStart(srcPos, dstPos)
  {
    HeaderRoundTrip(srcPos, srcLen, dstPos, dstLen);
    HeaderMark(srcPos, srcLen, dstPos, dstLen);
    ChunkStartRead(Header(srcPos, srcLen, dstPos, dstLen));
  }

  lemma MarkedPrefix(mark: string, literal: string, text: string)
    requires |mark| == 1
    ensures mark + literal <= mark + text <==> literal <= text
  {
    if literal <= text {
      assert text == literal + text[|literal|..];
      assert mark + text == mark + literal + text[|literal|..];
    }
    if mark + literal <= mark + text {
      assert (mark + literal)[1..] == literal && (mark + text)[1..] == text;
    }
  }

  /** A written line of content is read as that line, unless it looks like the name of a file. */
  lemma LineRead(l: Line)
    requires LineTyped(l)
    ensures !NameLike(l) ==> Classify(RenderLine(l)) == Content(l)
    ensures NameLike(l) ==> Classify(RenderLine(l)).SrcFile? || Classify(RenderLine(l)).DstFile?
  {
    var s := RenderLine(l);
    assert s[1..] == l.text;
    NoHeader(s);
    match l.kind
    case Src =>
      assert "-" + "-- " == "--- ";
      MarkedPrefix("-", "-- ", l.text);
    case Dst =>
      assert "+" + "++ " == "+++ ";
      MarkedPrefix("+", "++ ", l.text);
    case Both =>
      assert s[0] == ' ';
    case Unset =>
  }

  // ----- Reading back, from the lines of a chunk outwards

  lemma {:induction false} ReadAppend(r: Reader, lines: seq<string>, more: seq<string>)
    requires ReaderOk(r)
    ensures ReadFrom(r, lines + more)
         == var mid := ReadFrom(r, lines); if mid.None? then None else ReadFrom(mid.value, more)
    decreases |lines|
  {
    if lines == [] {
      assert lines + more == more;
    } else {
      assert (lines + more)[1..] == lines[1..] + more;
      var next := Step(r, lines[0]);
      if next.Some? {
        ReadAppend(next.value, lines[1..], more);
      }
    }
  }

  lemma ReadOne(r: Reader, line: string)
    requires ReaderOk(r)
    ensures ReadFrom(r, [line]) == Step(r, line)
  {
    assert [line][1..] == [];
  }

  /** Reading the last patch, and in it the last chunk. */
  ghost function InChunk(done: seq<Patch>, p: Patch, c: Chunk): (r: Reader)
    ensures ReaderOk(r)
  {
    Reader(done + [p.(chunks := p.chunks + [c])], Some((|done|, |p.chunks|)))
  }

  lemma AddLineInChunk(done: seq<Patch>, p: Patch, c: Chunk, l: Line)
    ensures AddLine(InChunk(done, p, c).patches, |done|, |p.chunks|, l)
         == InChunk(done, p, c.(lines := c.lines + [l])).patches
  {
    var q := p.(chunks := p.chunks + [c]);
    var longer := c.(lines := c.lines + [l]);
    assert (done + [q])[|done|] == q && q.chunks[|p.chunks|] == c;
    assert q.chunks[|p.chunks| := longer] == p.chunks + [longer];
    assert (done + [q])[|done| := p.(chunks := p.chunks + [longer])] == done + [p.(chunks := p.chunks + [longer])];
  }

  lemma {:induction false} ReadLines(done: seq<Patch>, p: Patch, c: Chunk, lines: seq<Line>)
    requires LinesTyped(lines) && forall i :: 0 <= i < |lines| ==> !NameLike(lines[i])
    ensures ReadFrom(InChunk(done, p, c), RenderLines(lines)) == Some(InChunk(done, p, c.(lines := c.lines + lines)))
    decreases |lines|
  {
    if lines == [] {
      assert c.lines + lines == c.lines;
    } else {
      var l := lines[0];
      assert LineTyped(l) && !NameLike(l);
      LineRead(l);
      AddLineInChunk(done, p, c, l);
      assert RenderLines(lines)[1..] == RenderLines(lines[1..]);
      ReadLines(done, p, c.(lines := c.lines + [l]), lines[1..]);
      assert c.lines + [l] + lines[1..] == c.lines + lines;
    }
  }

  lemma ReadHeader(done: seq<Patch>, p: Patch, current: Option<(nat, nat)>, c: Chunk)
    requires c.srcPos >= 0 && c.dstPos >= 0
    requires ReaderOk(Reader(done + [p], current))
    ensures ReadFrom(Reader(done + [p], current), [Header(c.srcPos, SrcLen(c.lines), c.dstPos, DstLen(c.lines))])
         == Some(InChunk(done, p, c.(lines := [])))
  {
    var header := Header(c.srcPos, SrcLen(c.lines), c.dstPos, DstLen(c.lines));
    HeaderRead(c.srcPos, SrcLen(c.lines), c.dstPos, DstLen(c.lines));
    ReadOne(Reader(done + [p], current), header);
    var q := p.(chunks := p.chunks + [Chunk(c.srcPos, c.dstPos, [])]);
    assert (done + [p])[|done| := q] == done + [q];
  }

  lemma ReadChunk(done: seq<Patch>, p: Patch, current: Option<(nat, nat)>, c: Chunk)
    requires LinesTyped(c.lines) && ChunkReadable(c) && ChunkPlain(c)
    requires ReaderOk(Reader(done + [p], current))
    ensures ReadFrom(Reader(done + [p], current), RenderChunk(c)) == Some(InChunk(done, p, c))
  {
    ReadHeader(done, p, current, c);
    ReadAppend(Reader(done + [p], current), [Header(c.srcPos, SrcLen(c.lines), c.dstPos, DstLen(c.lines))],
               RenderLines(c.lines));
    ReadLines(done, p, c.(lines := []), c.lines);
    assert [] + c.lines == c.lines;
  }

  /** A reader with these patches, wherever its chunk is. */
  ghost predicate ReadsTo(end: Option<Reader>, patches: seq<Patch>) {
    end.Some? && end.value.patches == patches && ReaderOk(end.value)
  }

  lemma ReadFirstChunk(done: seq<Patch>, p: Patch, current: Option<(nat, nat)>, chunks: seq<Chunk>)
    requires chunks != [] && LinesTyped(chunks[0].lines) && ChunkReadable(chunks[0]) && ChunkPlain(chunks[0])
    requires ReaderOk(Reader(done + [p], current))
    ensures ReadFrom(Reader(done + [p], current), Flatten(ChunkParts(chunks)))
         == ReadFrom(InChunk(done, p, chunks[0]), Flatten(ChunkParts(chunks[1..])))
  {
    ReadChunk(done, p, current, chunks[0]);
    assert ChunkParts(chunks)[1..] == ChunkParts(chunks[1..]);
    ReadAppend(Reader(done + [p], current), RenderChunk(chunks[0]), Flatten(ChunkParts(chunks[1..])));
  }

  lemma {:induction false} ReadChunks(done: seq<Patch>, p: Patch, current: Option<(nat, nat)>, chunks: seq<Chunk>)
    requires ChunksTyped(chunks) && forall j :: 0 <= j < |chunks| ==> ChunkReadable(chunks[j]) && ChunkPlain(chunks[j])
    requires ReaderOk(Reader(done + [p], current))
    ensures ReadsTo(ReadFrom(Reader(done + [p], current), Flatten(ChunkParts(chunks))),
                    done + [p.(chunks := p.chunks + chunks)])
    decreases |chunks|
  {
    if chunks == [] {
      assert p.chunks + chunks == p.chunks;
    } else {
      var c, rest := chunks[0], chunks[1..];
      var q := p.(chunks := p.chunks + [c]);
      assert q.chunks + rest == p.chunks + chunks;
      ReadFirstChunk(done, p, current, chunks);
      ReadChunks(done, q, Some((|done|, |p.chunks|)), rest);
    }
  }

  lemma ReadNames(done: seq<Patch>, current: Option<(nat, nat)>, p: Patch)
    requires ReaderOk(Reader(done, current))
    ensures ReaderOk(Reader(done + [p.(chunks := [])], current))
    ensures ReadFrom(Reader(done, current), Names(p)) == Some(Reader(done + [p.(chunks := [])], current))
  {
    var src, dst := "--- " + p.src, "+++ " + p.dst;
    SrcNameRead(p.src);
    DstNameRead(p.dst);
    var begun := Patch(p.src, "", []);
    assert (done + [begun])[|done| := Patch(p.src, p.dst, [])] == done + [p.(chunks := [])];
    assert Names(p)[1..] == [dst];
    ReadOne(Reader(done + [begun], current), dst);
  }

  lemma ReadPatch(done: seq<Patch>, current: Option<(nat, nat)>, p: Patch)
    requires ChunksTyped(p.chunks) && PatchReadable(p) && PatchPlain(p)
    requires ReaderOk(Reader(done, current))
    ensures ReadsTo(ReadFrom(Reader(done, current), RenderPatch(p)), done + [p])
  {
    ReadNames(done, current, p);
    ReadAppend(Reader(done, current), Names(p), Flatten(ChunkParts(p.chunks)));
    ReadChunks(done, p.(chunks := []), current, p.chunks);
    assert [] + p.chunks == p.chunks;
  }

  lemma ReadFirstPatch(done: seq<Patch>, current: Option<(nat, nat)>, patches: seq<Patch>)
    returns (next: Option<(nat, nat)>)
    requires patches != [] && ReaderOk(Reader(done, current))
    requires ChunksTyped(patches[0].chunks) && PatchReadable(patches[0]) && PatchPlain(patches[0])
    ensures ReaderOk(Reader(done + [patches[0]], next))
    ensures ReadFrom(Reader(done, current), Render(patches))
         == ReadFrom(Reader(done + [patches[0]], next), Render(patches[1..]))
  {
    ReadPatch(done, current, patches[0]);
    assert PatchParts(patches)[1..] == PatchParts(patches[1..]);
    ReadAppend(Reader(done, current), RenderPatch(patches[0]), Render(patches[1..]));
    next := ReadFrom(Reader(done, current), RenderPatch(patches[0])).value.current;
  }

  lemma RestClean(patches: seq<Patch>)
    requires patches != [] && Typed(patches) && Clean(patches)
    ensures ChunksTyped(patches[0].chunks) && PatchReadable(patches[0]) && PatchPlain(patches[0])
    ensures Typed(patches[1..]) && Clean(patches[1..])
  {
  }

  lemma {:induction false} ReadPatches(done: seq<Patch>, current: Option<(nat, nat)>, patches: seq<Patch>)
    requires Typed(patches) && Clean(patches)
    requires ReaderOk(Reader(done, current))
    ensures ReadsTo(ReadFrom(Reader(done, current), Render(patches)), done + patches)
    decreases |patches|
  {
    if patches == [] {
      assert done + patches == done && Render(patches) == [];
    } else {
      RestClean(patches);
      var next := ReadFirstPatch(done, current, patches);
      FirstOfSequence(done, patches);
      ReadPatches(done + [patches[0]], next, patches[1..]);
    }
  }

  lemma FirstOfSequence(done: seq<Patch>, patches: seq<Patch>)
    requires patches != []
    ensures done + [patches[0]] + patches[1..] == done + patches
  {
  }

  // ----- What has been read is on one line, and holds the lines of content that were read

  lemma ReplacedReadable(patches: seq<Patch>, k: nat, p: Patch)
    requires k < |patches| && Readable(patches) && PatchReadable(p)
    ensures Readable(patches[k := p])
  {
  }

  lemma TailOneLine(line: string, k: nat)
    requires OneLine(line) && k <= |line|
    ensures OneLine(line[k..])
  {
  }

  /** The text that a class of line carries is on one line. */
  predicate CarriesOneLine(c: Class) {
    match c
    case SrcFile(name) => OneLine(name)
    case DstFile(name) => OneLine(name)
    case Content(l) => OneLine(l.text)
    case _ => true
  }

  lemma ClassifiedIsOneLine(line: string)
    requires OneLine(line)
    ensures CarriesOneLine(Classify(line))
  {
    if |line| >= 4 {
      TailOneLine(line, 4);
    }
    if line != [] {
      TailOneLine(line, 1);
    }
  }

  lemma StepOnReadable(r: Reader, c: Class)
    requires ReaderOk(r) && CarriesOneLine(c) && Readable(r.patches) && StepOn(r, c).Some?
    ensures Readable(StepOn(r, c).value.patches)
  {
    var n := |r.patches|;
    match c
    case SrcFile(name) =>
      assert PatchReadable(Patch(name, "", []));
    case DstFile(name) =>
      assert PatchReadable(r.patches[n - 1]);
      ReplacedReadable(r.patches, n - 1, r.patches[n - 1].(dst := name));
    case ChunkStart(srcPos, dstPos) =>
      var p := r.patches[n - 1];
      assert PatchReadable(p) && ChunkReadable(Chunk(srcPos, dstPos, []));
      ReplacedReadable(r.patches, n - 1, p.(chunks := p.chunks + [Chunk(srcPos, dstPos, [])]));
    case Content(l) =>
      AddedLineReadable(r.patches, r.current.value.0, r.current.value.1, l);
  }

  lemma AddedLineReadable(patches: seq<Patch>, i: nat, j: nat, l: Line)
    requires i < |patches| && j < |patches[i].chunks|
    requires Readable(patches) && OneLine(l.text)
    ensures Readable(AddLine(patches, i, j, l))
  {
    var p := patches[i];
    var c := p.chunks[j];
    assert PatchReadable(p) && ChunkReadable(c);
    var longer := c.(lines := c.lines + [l]);
    assert ChunkReadable(longer);
    assert PatchReadable(p.(chunks := p.chunks[j := longer]));
    ReplacedReadable(patches, i, p.(chunks := p.chunks[j := longer]));
  }

  lemma {:induction false} ReadReadable(r: Reader, lines: seq<string>)
    requires ReaderOk(r) && AllOneLine(lines) && Readable(r.patches) && ReadFrom(r, lines).Some?
    ensures Readable(ReadFrom(r, lines).value.patches)
    decreases |lines|
  {
    if lines != [] {
      ClassifiedIsOneLine(lines[0]);
      StepOnReadable(r, Classify(lines[0]));
      ReadReadable(Step(r, lines[0]).value, lines[1..]);
    }
  }

  /** How many of the lines are lines of content. */
  function Contents(lines: seq<string>): nat {
    if lines == [] then 0 else (if Classify(lines[0]).Content? then 1 else 0) + Contents(lines[1..])
  }

  function LinesIn(chunks: seq<Chunk>): nat {
    if chunks == [] then 0 else |chunks[0].lines| + LinesIn(chunks[1..])
  }

  function LineCount(patches: seq<Patch>): nat {
    if patches == [] then 0 else LinesIn(patches[0].chunks) + LineCount(patches[1..])
  }

  lemma {:induction false} LinesInAppend(chunks: seq<Chunk>, c: Chunk)
    ensures LinesIn(chunks + [c]) == LinesIn(chunks) + |c.lines|
  {
    if chunks == [] {
      assert [c][1..] == [] && [] + [c] == [c];
    } else {
      assert (chunks + [c])[1..] == chunks[1..] + [c];
      LinesInAppend(chunks[1..], c);
    }
  }

  lemma {:induction false} LineCountAppend(patches: seq<Patch>, p: Patch)
    ensures LineCount(patches + [p]) == LineCount(patches) + LinesIn(p.chunks)
  {
    if patches == [] {
      assert [p][1..] == [] && [] + [p] == [p];
    } else {
      assert (patches + [p])[1..] == patches[1..] + [p];
      LineCountAppend(patches[1..], p);
    }
  }

  lemma {:induction false} LinesInUpdate(chunks: seq<Chunk>, j: nat, c: Chunk)
    requires j < |chunks|
    ensures LinesIn(chunks[j := c]) == LinesIn(chunks) - |chunks[j].lines| + |c.lines|
  {
    if j == 0 {
      assert chunks[0 := c][1..] == chunks[1..];
    } else {
      assert chunks[j := c][1..] == chunks[1..][j - 1 := c];
      LinesInUpdate(chunks[1..], j - 1, c);
    }
  }

  lemma {:induction false} LineCountUpdate(patches: seq<Patch>, i: nat, p: Patch)
    requires i < |patches|
    ensures LineCount(patches[i := p]) == LineCount(patches) - LinesIn(patches[i].chunks) + LinesIn(p.chunks)
  {
    if i == 0 {
      assert patches[0 := p][1..] == patches[1..];
    } else {
      assert patches[i := p][1..] == patches[1..][i - 1 := p];
      LineCountUpdate(patches[1..], i - 1, p);
    }
  }

  lemma AddLineCount(patches: seq<Patch>, i: nat, j: nat, l: Line)
    requires i < |patches| && j < |patches[i].chunks|
    ensures LineCount(AddLine(patches, i, j, l)) == LineCount(patches) + 1
  {
    var p := patches[i];
    var longer := p.chunks[j].(lines := p.chunks[j].lines + [l]);
    LinesInUpdate(p.chunks, j, longer);
    LineCountUpdate(patches, i, p.(chunks := p.chunks[j := longer]));
  }

  lemma StepCount(r: Reader, line: string)
    requires ReaderOk(r) && Step(r, line).Some?
    ensures LineCount(Step(r, line).value.patches)
         == LineCount(r.patches) + if Classify(line).Content? then 1 else 0
  {
    var n := |r.patches|;
    match Classify(line)
    case SrcFile(name) => LineCountAppend(r.patches, Patch(name, "", []));
    case DstFile(name) => LineCountUpdate(r.patches, n - 1, r.patches[n - 1].(dst := name));
    case ChunkStart(srcPos, dstPos) =>
      var p := r.patches[n - 1];
      LinesInAppend(p.chunks, Chunk(srcPos, dstPos, []));
      LineCountUpdate(r.patches, n - 1, p.(chunks := p.chunks + [Chunk(srcPos, dstPos, [])]));
    case Content(l) => AddLineCount(r.patches, r.current.value.0, r.current.value.1, l);
  }

  lemma {:induction false} ReadCount(r: Reader, lines: seq<string>)
    requires ReaderOk(r) && ReadFrom(r, lines).Some?
    ensures LineCount(ReadFrom(r, lines).value.patches) == LineCount(r.patches) + Contents(lines)
    decreases |lines|
  {
    if lines != [] {
      StepCount(r, lines[0]);
      ReadCount(Step(r, lines[0]).value, lines[1..]);
    }
  }

  // ----- Of the lines that are written, fewer are read as content when one looks like a name

  lemma {:induction false} ContentsAppend(lines: seq<string>, more: seq<string>)
    ensures Contents(lines + more) == Contents(lines) + Contents(more)
  {
    if lines == [] {
      assert lines + more == more;
    } else {
      assert (lines + more)[1..] == lines[1..] + more;
      ContentsAppend(lines[1..], more);
    }
  }

  lemma {:induction false} LinesWritten(lines: seq<Line>)
    requires LinesTyped(lines)
    ensures Contents(RenderLines(lines)) <= |lines|
    ensures Contents(RenderLines(lines)) == |lines| ==> forall i :: 0 <= i < |lines| ==> !NameLike(lines[i])
  {
    if lines != [] {
      assert LineTyped(lines[0]);
      LineRead(lines[0]);
      assert RenderLines(lines)[1..] == RenderLines(lines[1..]);
      LinesWritten(lines[1..]);
      assert lines == [lines[0]] + lines[1..];
    }
  }

  lemma ChunkWritten(c: Chunk)
    requires LinesTyped(c.lines) && ChunkReadable(c)
    ensures Contents(RenderChunk(c)) <= |c.lines|
    ensures Contents(RenderChunk(c)) == |c.lines| ==> ChunkPlain(c)
  {
    HeaderRead(c.srcPos, SrcLen(c.lines), c.dstPos, DstLen(c.lines));
    assert RenderChunk(c)[1..] == RenderLines(c.lines);
    LinesWritten(c.lines);
  }

  lemma FirstChunkWritten(chunks: seq<Chunk>)
    requires chunks != []
    ensures Contents(Flatten(ChunkParts(chunks)))
         == Contents(RenderChunk(chunks[0])) + Contents(Flatten(ChunkParts(chunks[1..])))
  {
    assert ChunkParts(chunks)[1..] == ChunkParts(chunks[1..]);
    ContentsAppend(RenderChunk(chunks[0]), Flatten(ChunkParts(chunks[1..])));
  }

  predicate AllReadable(chunks: seq<Chunk>) {
    forall j :: 0 <= j < |chunks| ==> ChunkReadable(chunks[j])
  }

  predicate AllPlain(chunks: seq<Chunk>) {
    forall j :: 0 <= j < |chunks| ==> ChunkPlain(chunks[j])
  }

  lemma RestOfChunks(chunks: seq<Chunk>)
    requires chunks != [] && ChunksTyped(chunks) && AllReadable(chunks)
    ensures LinesTyped(chunks[0].lines) && ChunkReadable(chunks[0])
    ensures ChunksTyped(chunks[1..]) && AllReadable(chunks[1..])
  {
  }

  lemma PlainChunks(chunks: seq<Chunk>)
    requires chunks != []
    ensures ChunkPlain(chunks[0]) && AllPlain(chunks[1..]) ==> AllPlain(chunks)
  {
    assert chunks == [chunks[0]] + chunks[1..];
  }

  lemma {:induction false} ChunksWritten(chunks: seq<Chunk>)
    requires ChunksTyped(chunks) && AllReadable(chunks)
    ensures Contents(Flatten(ChunkParts(chunks))) <= LinesIn(chunks)
    ensures Contents(Flatten(ChunkParts(chunks))) == LinesIn(chunks) ==> AllPlain(chunks)
  {
    if chunks != [] {
      RestOfChunks(chunks);
      FirstChunkWritten(chunks);
      ChunkWritten(chunks[0]);
      ChunksWritten(chunks[1..]);
      PlainChunks(chunks);
    }
  }

  lemma PatchWritten(p: Patch)
    requires ChunksTyped(p.chunks) && PatchReadable(p)
    ensures Contents(RenderPatch(p)) <= LinesIn(p.chunks)
    ensures Contents(RenderPatch(p)) == LinesIn(p.chunks) ==> PatchPlain(p)
  {
    SrcNameRead(p.src);
    DstNameRead(p.dst);
    assert Names(p)[1..] == ["+++ " + p.dst] && Names(p)[1..][1..] == [];
    ContentsAppend(Names(p), Flatten(ChunkParts(p.chunks)));
    ChunksWritten(p.chunks);
  }

  lemma FirstPatchWritten(patches: seq<Patch>)
    requires patches != []
    ensures Contents(Render(patches)) == Contents(RenderPatch(patches[0])) + Contents(Render(patches[1..]))
  {
    assert PatchParts(patches)[1..] == PatchParts(patches[1..]);
    ContentsAppend(RenderPatch(patches[0]), Render(patches[1..]));
  }

  lemma RestReadable(patches: seq<Patch>)
    requires patches != [] && Typed(patches) && Readable(patches)
    ensures ChunksTyped(patches[0].chunks) && PatchReadable(patches[0])
    ensures Typed(patches[1..]) && Readable(patches[1..])
  {
  }

  lemma PlainPatches(patches: seq<Patch>)
    requires patches != []
    ensures PatchPlain(patches[0]) && Plain(patches[1..]) ==> Plain(patches)
  {
    assert patches == [patches[0]] + patches[1..];
  }

  lemma {:induction false} PatchesWritten(patches: seq<Patch>)
    requires Typed(patches) && Readable(patches)
    ensures Contents(Render(patches)) <= LineCount(patches)
    ensures Contents(Render(patches)) == LineCount(patches) ==> Plain(patches)
  {
    if patches != [] {
      RestReadable(patches);
      FirstPatchWritten(patches);
      PatchWritten(patches[0]);
      PatchesWritten(patches[1..]);
      PlainPatches(patches);
    }
  }

  // ----- The text of readable patches has the written lines as its lines

  predicate AllParts(parts: seq<seq<string>>) {
    forall k :: 0 <= k < |parts| ==> AllOneLine(parts[k])
  }

  lemma {:induction false} FlattenOneLine(parts: seq<seq<string>>)
    requires AllParts(parts)
    ensures AllOneLine(Flatten(parts))
  {
    if parts != [] {
      FlattenOneLine(parts[1..]);
    }
  }

  lemma ChunkOneLine(c: Chunk)
    requires ChunkReadable(c)
    ensures AllOneLine(RenderChunk(c))
  {
    HeaderIsOneLine(c.srcPos, SrcLen(c.lines), c.dstPos, DstLen(c.lines));
  }

  lemma PatchOneLine(p: Patch)
    requires PatchReadable(p)
    ensures AllOneLine(RenderPatch(p))
  {
    forall j | 0 <= j < |p.chunks| ensures AllOneLine(ChunkParts(p.chunks)[j]) {
      ChunkOneLine(p.chunks[j]);
    }
    FlattenOneLine(ChunkParts(p.chunks));
  }

  lemma TextLines(patches: seq<Patch>)
    requires Readable(patches)
    ensures Lines(Unlines(Render(patches))) == Render(patches)
  {
    forall k | 0 <= k < |patches| ensures AllOneLine(PatchParts(patches)[k]) {
      PatchOneLine(patches[k]);
    }
    FlattenOneLine(PatchParts(patches));
    LinesOfUnlines(Render(patches));
  }

  // ----- The round trip

  /**
   The text of a patch set is read back as that patch set exactly when every name
   and line is on one line, no position is negative, no removed line starts with
   "-- " and no added line starts with "++ ".
   */
  lemma RoundTripExactly(patches: seq<Patch>)
    requires Typed(patches)
    ensures Parse(Lines(Unlines(Render(patches)))) == Some(patches) <==> Clean(patches)
  {
    var lines := Lines(Unlines(Render(patches)));
    if Clean(patches) {
      TextLines(patches);
      ReadPatches([], None, patches);
      assert [] + patches == patches;
    }
    if Parse(lines) == Some(patches) {
      ReadReadable(START, lines);
      TextLines(patches);
      ReadCount(START, lines);
      PatchesWritten(patches);
    }
  }

  /** A removed line "-- x" is written as the name of a file, and the patch set is not read back. */
  lemma RemovedDashesAreLost()
    ensures var patches := [Patch("a", "b", [Chunk(1, 1, [Line(Src, "-- x")])])];
      Typed(patches) && Parse(Lines(Unlines(Render(patches)))) != Some(patches)
  {
    var l := Line(Src, "-- x");
    var patches := [Patch("a", "b", [Chunk(1, 1, [l])])];
    assert NameLike(l);
    assert patches[0].chunks[0].lines[0] == l;
    assert !ChunkPlain(patches[0].chunks[0]);
    assert !PatchPlain(patches[0]);
    assert !Clean(patches);
    RoundTripExactly(patches);
  }
}

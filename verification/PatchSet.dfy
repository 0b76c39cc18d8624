/** Reading and writing unified diffs: patches, chunks and their lines. */
module PatchSet {
  import opened Common
  import opened PatchText

  datatype Kind = Unset | Src | Dst | Both

  datatype Line = Line(kind: Kind, text: string)

  datatype Chunk = Chunk(srcPos: int, dstPos: int, lines: seq<Line>)

  datatype Patch = Patch(src: string, dst: string, chunks: seq<Chunk>)

  // ----- Writing

  /** How many lines of a chunk belong to the old text, and how many to the new. */
  function SrcLen(lines: seq<Line>): nat {
    if lines == [] then 0 else (if lines[0].kind in {Src, Both} then 1 else 0) + SrcLen(lines[1..])
  }

  function DstLen(lines: seq<Line>): nat {
    if lines == [] then 0 else (if lines[0].kind in {Dst, Both} then 1 else 0) + DstLen(lines[1..])
  }

  /** Where the lines of some kinds stand. */
  ghost function Places(lines: seq<Line>, kinds: set<Kind>): set<nat> {
    set k: nat | k < |lines| && lines[k].kind in kinds
  }

  lemma PlacesOneMore(lines: seq<Line>, l: Line, kinds: set<Kind>)
    ensures |Places(lines + [l], kinds)| == |Places(lines, kinds)| + if l.kind in kinds then 1 else 0
  {
    assert Places(lines + [l], kinds) == Places(lines, kinds) + if l.kind in kinds then {|lines|} else {};
  }

  lemma {:induction false} LengthsOneMore(lines: seq<Line>, l: Line)
    ensures SrcLen(lines + [l]) == SrcLen(lines) + if l.kind in {Src, Both} then 1 else 0
    ensures DstLen(lines + [l]) == DstLen(lines) + if l.kind in {Dst, Both} then 1 else 0
  {
    if lines == [] {
      assert [] + [l] == [l] && [l][1..] == [];
    } else {
      assert (lines + [l])[1..] == lines[1..] + [l];
      LengthsOneMore(lines[1..], l);
    }
  }

  /**
   The lengths in a header are the numbers of lines without a plus and without a
   minus; so together they count every line once, and those of both texts twice.
   */
  lemma {:induction false} LengthsExactly(lines: seq<Line>)
    ensures SrcLen(lines) == |Places(lines, {Src, Both})|
    ensures DstLen(lines) == |Places(lines, {Dst, Both})|
    ensures LinesTyped(lines) ==> SrcLen(lines) + DstLen(lines) == |lines| + |Places(lines, {Both})|
  {
    if lines == [] {
      assert forall kinds :: Places(lines, kinds) == {};
    } else {
      var n := |lines| - 1;
      assert lines == lines[..n] + [lines[n]];
      LengthsExactly(lines[..n]);
      LengthsOneMore(lines[..n], lines[n]);
      PlacesOneMore(lines[..n], lines[n], {Src, Both});
      PlacesOneMore(lines[..n], lines[n], {Dst, Both});
      PlacesOneMore(lines[..n], lines[n], {Both});
    }
  }

  function RenderLine(l: Line): string {
    match l.kind
    case Src => "-" + l.text
    case Dst => "+" + l.text
    case _ => " " + l.text
  }

  function RenderLines(lines: seq<Line>): (rendered: seq<string>)
    ensures |rendered| == |lines|
  {
    seq(|lines|, i requires 0 <= i < |lines| => RenderLine(lines[i]))
  }

  function RenderChunk(c: Chunk): seq<string> {
    [Header(c.srcPos, SrcLen(c.lines), c.dstPos, DstLen(c.lines))] + RenderLines(c.lines)
  }

  function ChunkParts(chunks: seq<Chunk>): (parts: seq<seq<string>>)
    ensures |parts| == |chunks|
  {
    seq(|chunks|, j requires 0 <= j < |chunks| => RenderChunk(chunks[j]))
  }

  /** The two lines that name the files of a patch. */
  function Names(p: Patch): seq<string> {
    ["--- " + p.src, "+++ " + p.dst]
  }

  function RenderPatch(p: Patch): seq<string> {
    Names(p) + Flatten(ChunkParts(p.chunks))
  }

  function PatchParts(patches: seq<Patch>): (parts: seq<seq<string>>)
    ensures |parts| == |patches|
  {
    seq(|patches|, k requires 0 <= k < |patches| => RenderPatch(patches[k]))
  }

  /** The lines of the text of a patch set. */
  function Render(patches: seq<Patch>): seq<string> {
    Flatten(PatchParts(patches))
  }

  /** A line whose kind was never set cannot be written. */
  predicate LineTyped(l: Line) {
    l.kind != Unset
  }

  predicate LinesTyped(lines: seq<Line>) {
    forall i :: 0 <= i < |lines| ==> LineTyped(lines[i])
  }

  predicate ChunksTyped(chunks: seq<Chunk>) {
    forall j :: 0 <= j < |chunks| ==> LinesTyped(chunks[j].lines)
  }

  predicate Typed(patches: seq<Patch>) {
    forall k :: 0 <= k < |patches| ==> ChunksTyped(patches[k].chunks)
  }

  lemma ChunksTypedOneMore(chunks: seq<Chunk>, j: nat)
    requires j < |chunks|
    ensures ChunksTyped(chunks[..j + 1]) <==> ChunksTyped(chunks[..j]) && LinesTyped(chunks[j].lines)
    ensures ChunksTyped(chunks) ==> LinesTyped(chunks[j].lines)
  {
    OneElementMore(chunks, j);
  }

  lemma TypedOneMore(patches: seq<Patch>, k: nat)
    requires k < |patches|
    ensures Typed(patches[..k + 1]) <==> Typed(patches[..k]) && ChunksTyped(patches[k].chunks)
    ensures Typed(patches) ==> ChunksTyped(patches[k].chunks)
  {
    OneElementMore(patches, k);
  }

  class TextFile {
    var text: string

    constructor ()
      ensures text == ""
    {
      text := "";
    }

    method Write(s: string)
      modifies this
      ensures text == old(text) + s
    {
      text := text + s;
    }
  }

  /** Writing stops with an exception at a line without a kind. */
  method WriteLine(l: Line, f: TextFile) returns (ok: bool)
    modifies f
    ensures ok <==> LineTyped(l)
    ensures f.text == old(f.text) + if ok then RenderLine(l) + "\n" else ""
  {
    match l.kind
    case Src => f.Write("-" + l.text + "\n"); ok := true;
    case Dst => f.Write("+" + l.text + "\n"); ok := true;
    case Both => f.Write(" " + l.text + "\n"); ok := true;
    case Unset => ok := false;
  }

  /** The text of all the parts grows by the text of the next one. */
  lemma NextText(start: string, parts: seq<seq<string>>, i: nat)
    requires i < |parts|
    ensures start + Unlines(Flatten(parts[..i + 1])) == start + Unlines(Flatten(parts[..i])) + Unlines(parts[i])
  {
    FlattenOneMore(parts, i);
    TextOfTwo(start, Flatten(parts[..i]), parts[i]);
  }

  lemma NextLineText(start: string, lines: seq<string>, i: nat)
    requires i < |lines|
    ensures start + Unlines(lines[..i + 1]) == start + Unlines(lines[..i]) + (lines[i] + "\n")
  {
    OneElementMore(lines, i);
    UnlinesAppend(lines[..i], [lines[i]]);
    assert [lines[i]][1..] == [] && Unlines([lines[i]]) == lines[i] + "\n" + "";
  }

  method WriteLines(lines: seq<Line>, f: TextFile) returns (ok: bool)
    modifies f
    ensures ok <==> LinesTyped(lines)
    ensures ok ==> f.text == old(f.text) + Unlines(RenderLines(lines))
  {
    ghost var parts := RenderLines(lines);
    for i := 0 to |lines|
      invariant forall k :: 0 <= k < i ==> LineTyped(lines[k])
      invariant f.text == old(f.text) + Unlines(parts[..i])
    {
      NextLineText(old(f.text), parts, i);
      ok := WriteLine(lines[i], f);
      if !ok {
        return;
      }
    }
    WholeSlice(parts);
    ok := true;
  }

  lemma HeadedText(start: string, header: string, lines: seq<string>)
    ensures start + (header + "\n") + Unlines(lines) == start + Unlines([header] + lines)
  {
    ChunkText(header, lines);
  }

  lemma ChunkText(header: string, lines: seq<string>)
    ensures Unlines([header] + lines) == header + "\n" + Unlines(lines)
  {
    assert ([header] + lines)[1..] == lines;
  }

  method WriteChunk(c: Chunk, f: TextFile) returns (ok: bool)
    modifies f
    ensures ok <==> LinesTyped(c.lines)
    ensures ok ==> f.text == old(f.text) + Unlines(RenderChunk(c))
  {
    var header := Header(c.srcPos, SrcLen(c.lines), c.dstPos, DstLen(c.lines));
    HeadedText(f.text, header, RenderLines(c.lines));
    f.Write(header + "\n");
    ok := WriteLines(c.lines, f);
  }

  method WriteChunks(chunks: seq<Chunk>, f: TextFile) returns (ok: bool)
    modifies f
    ensures ok <==> ChunksTyped(chunks)
    ensures ok ==> f.text == old(f.text) + Unlines(Flatten(ChunkParts(chunks)))
  {
    ghost var parts := ChunkParts(chunks);
    for j := 0 to |chunks|
      invariant ChunksTyped(chunks[..j])
      invariant f.text == old(f.text) + Unlines(Flatten(parts[..j]))
    {
      ChunksTypedOneMore(chunks, j);
      ok := WriteChunk(chunks[j], f);
      if !ok {
        return;
      }
      NextText(old(f.text), parts, j);
    }
    WholeSlice(parts);
    WholeSlice(chunks);
    ok := true;
  }

  lemma NamesText(p: Patch)
    ensures Unlines(Names(p)) == ("--- " + p.src + "\n") + ("+++ " + p.dst + "\n")
  {
    ChunkText("--- " + p.src, ["+++ " + p.dst]);
    ChunkText("+++ " + p.dst, []);
    assert ["--- " + p.src] + ["+++ " + p.dst] == Names(p) && ["+++ " + p.dst] + [] == ["+++ " + p.dst];
  }

  lemma TextOfTwo(start: string, lines: seq<string>, more: seq<string>)
    ensures start + Unlines(lines + more) == start + Unlines(lines) + Unlines(more)
  {
    UnlinesAppend(lines, more);
  }

  method WriteNames(p: Patch, f: TextFile)
    modifies f
    ensures f.text == old(f.text) + Unlines(Names(p))
  {
    NamesText(p);
    f.Write("--- " + p.src + "\n");
    f.Write("+++ " + p.dst + "\n");
  }

  /** Writing a patch fails exactly at a line without a kind. */
  method WritePatch(p: Patch, f: TextFile) returns (ok: bool)
    modifies f
    ensures ok <==> ChunksTyped(p.chunks)
    ensures ok ==> f.text == old(f.text) + Unlines(RenderPatch(p))
  {
    TextOfTwo(f.text, Names(p), Flatten(ChunkParts(p.chunks)));
    WriteNames(p, f);
    ok := WriteChunks(p.chunks, f);
  }

  /** What a caller writes that writes one patch after the other. */
  method WritePatchset(patches: seq<Patch>, f: TextFile) returns (ok: bool)
    modifies f
    ensures ok <==> Typed(patches)
    ensures ok ==> f.text == old(f.text) + Unlines(Render(patches))
  {
    ghost var parts := PatchParts(patches);
    for k := 0 to |patches|
      invariant Typed(patches[..k])
      invariant f.text == old(f.text) + Unlines(Flatten(parts[..k]))
    {
      TypedOneMore(patches, k);
      ok := WritePatch(patches[k], f);
      if !ok {
        return;
      }
      NextText(old(f.text), parts, k);
    }
    WholeSlice(parts);
    WholeSlice(patches);
    ok := true;
  }

  // ----- Reading

  /** What the first regular expression that matches makes of a line. */
  datatype Class =
    | SrcFile(name: string)
    | DstFile(name: string)
    | ChunkStart(srcPos: nat, dstPos: nat)
    | Content(line: Line)
    | Junk

  function Classify(s: string): Class {
    if "--- " <= s then SrcFile(s[4..])
    else if "+++ " <= s then DstFile(s[4..])
    else if ParseHeader(s).Some? then ChunkStart(ParseHeader(s).value.0, ParseHeader(s).value.1)
    else if "-" <= s then Content(Line(Src, s[1..]))
    else if "+" <= s then Content(Line(Dst, s[1..]))
    else if " " <= s then Content(Line(Both, s[1..]))
    else Junk
  }

  /** The patches so far, and where the chunk is that was started last, if any. */
  datatype Reader = Reader(patches: seq<Patch>, current: Option<(nat, nat)>)

  ghost predicate ReaderOk(r: Reader) {
    r.current.Some? ==>
      && r.current.value.0 < |r.patches|
      && r.current.value.1 < |r.patches[r.current.value.0].chunks|
  }

  function AddLine(patches: seq<Patch>, i: nat, j: nat, l: Line): seq<Patch>
    requires i < |patches| && j < |patches[i].chunks|
  {
    var c := patches[i].chunks[j];
    patches[i := patches[i].(chunks := patches[i].chunks[j := c.(lines := c.lines + [l])])]
  }

  /** One round of the loop; None is an exception. */
  function Step(r: Reader, line: string): (next: Option<Reader>)
    requires ReaderOk(r)
    ensures next.Some? ==> ReaderOk(next.value)
  {
    StepOn(r, Classify(line))
  }

  function StepOn(r: Reader, c: Class): (next: Option<Reader>)
    requires ReaderOk(r)
    ensures next.Some? ==> ReaderOk(next.value)
  {
    var n := |r.patches|;
    match c
    case SrcFile(name) => Some(r.(patches := r.patches + [Patch(name, "", [])]))
    case DstFile(name) =>
      if n == 0 then None else Some(r.(patches := r.patches[n - 1 := r.patches[n - 1].(dst := name)]))
    case ChunkStart(srcPos, dstPos) =>
      if n == 0 then None else
        var p := r.patches[n - 1];
        var begun := p.(chunks := p.chunks + [Chunk(srcPos, dstPos, [])]);
        Some(Reader(r.patches[n - 1 := begun], Some((n - 1, |p.chunks|))))
    case Content(l) =>
      if r.current.None? then None else
        Some(r.(patches := AddLine(r.patches, r.current.value.0, r.current.value.1, l)))
    case Junk => None
  }

  function ReadFrom(r: Reader, lines: seq<string>): (end: Option<Reader>)
    requires ReaderOk(r)
    ensures end.Some? ==> ReaderOk(end.value)
    decreases |lines|
  {
    if lines == [] then Some(r) else
      var next := Step(r, lines[0]);
      if next.None? then None else ReadFrom(next.value, lines[1..])
  }

  const START := Reader([], None)

  function Parse(lines: seq<string>): Option<seq<Patch>> {
    var end := ReadFrom(START, lines);
    if end.None? then None else Some(end.value.patches)
  }

  /** The body of the loop below; false is an exception. */
  method ReadLine(c: Class, patches0: seq<Patch>, current0: Option<(nat, nat)>)
    returns (ok: bool, patches: seq<Patch>, current: Option<(nat, nat)>)
    requires ReaderOk(Reader(patches0, current0))
    ensures StepOn(Reader(patches0, current0), c) == if ok then Some(Reader(patches, current)) else None
  {
    ok, patches, current := true, patches0, current0;
    var n := |patches|;
    match c
    case SrcFile(name) =>
      patches := patches + [Patch(name, "", [])];
    case DstFile(name) =>
      if n == 0 {
        return false, patches, current;
      }
      patches := patches[n - 1 := patches[n - 1].(dst := name)];
    case ChunkStart(srcPos, dstPos) =>
      if n == 0 {
        return false, patches, current;
      }
      current := Some((n - 1, |patches[n - 1].chunks|));
      patches := patches[n - 1 := patches[n - 1].(chunks := patches[n - 1].chunks + [Chunk(srcPos, dstPos, [])])];
    case Content(l) =>
      if current.None? {
        return false, patches, current;
      }
      patches := AddLine(patches, current.value.0, current.value.1, l);
    case Junk =>
      return false, patches, current;
  }

  /**
   The parser of the source.  A line of content goes to the chunk started last,
   even if a new patch was begun in between.
   */
  method ParsePatchset(lines: seq<string>) returns (patchset: Option<seq<Patch>>)
    ensures patchset == Parse(lines)
  {
    var patches: seq<Patch> := [];
    var current: Option<(nat, nat)> := None;
    assert lines[0..] == lines;
    for i := 0 to |lines|
      invariant ReaderOk(Reader(patches, current))
      invariant ReadFrom(START, lines) == ReadFrom(Reader(patches, current), lines[i..])
    {
      OneElementLess(lines, i);
      var ok;
      ok, patches, current := ReadLine(Classify(lines[i]), patches, current);
      if !ok {
        return None;
      }
    }
    return Some(patches);
  }
}

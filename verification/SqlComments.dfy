/**
 * The comment passes of python/tools/format_sql.py, line by line, with a mark for each placeholder line.  What that
 * says about the passes over characters is in SqlBlocks.
 */
module SqlComments {
  import opened Strings

  type Line = string

  /** What matters of a text: its lines that are not blank, stripped. */
  function Kept(lines: seq<Line>): seq<Line> {
    if lines == [] then [] else KeptLine(lines[0]) + Kept(lines[1..])
  }

  function KeptLine(line: Line): seq<Line> {
    if Strip(line) == [] then [] else [Strip(line)]
  }

  lemma {:induction false} KeptConcat(a: seq<Line>, b: seq<Line>)
    ensures Kept(a + b) == Kept(a) + Kept(b)
  {
    if a == [] {
      assert a + b == b;
    } else {
      assert (a + b)[1..] == a[1..] + b;
      KeptConcat(a[1..], b);
    }
  }

  predicate IsComment(line: Line) {
    var s := Strip(line);
    |s| >= 2 && s[0] == '-' && s[1] == '-'
  }

  // ----- chunks

  function Flatten(chunks: seq<seq<Line>>): seq<Line> {
    if chunks == [] then [] else Flatten(chunks[..|chunks| - 1]) + chunks[|chunks| - 1]
  }

  /** A chunk: one line or more, none of them blank. */
  predicate IsSolid(chunk: seq<Line>) {
    chunk != [] && forall l :: l in chunk ==> Strip(l) != []
  }

  predicate AllComments(chunk: seq<Line>) {
    forall l :: l in chunk ==> IsComment(l)
  }

  lemma KeptOne(line: Line)
    ensures Kept([line]) == KeptLine(line)
  {
    assert [line][1..] == [];
  }

  /** The runs of lines that are not blank, after the part of a run in `current`. */
  function ChunksFrom(current: seq<Line>, lines: seq<Line>): seq<seq<Line>>
    decreases |lines|
  {
    if lines == [] then if current == [] then [] else [current]
    else if Strip(lines[0]) != [] then ChunksFrom(current + [lines[0]], lines[1..])
    else if current == [] then ChunksFrom([], lines[1..])
    else [current] + ChunksFrom([], lines[1..])
  }

  /** The first loop. */
  method SplitChunks(lines: seq<Line>) returns (chunks: seq<seq<Line>>)
    ensures chunks == ChunksFrom([], lines)
  {
    chunks := [];
    var current: seq<Line> := [];
    assert lines[0..] == lines;
    for i := 0 to |lines|
      invariant chunks + ChunksFrom(current, lines[i..]) == ChunksFrom([], lines)
    {
      assert lines[i..][1..] == lines[i + 1..];
      if Strip(lines[i]) != [] {
        current := current + [lines[i]];
      } else if current != [] {
        assert chunks + ([current] + ChunksFrom([], lines[i + 1..])) ==
               chunks + [current] + ChunksFrom([], lines[i + 1..]);
        chunks := chunks + [current];
        current := [];
      }
    }
    if current != [] {
      chunks := chunks + [current];
    }
  }

  /** Chunks are solid, and lose nothing but blank lines. */
  lemma {:induction false} ChunksKeepLines(current: seq<Line>, lines: seq<Line>)
    requires current != [] ==> IsSolid(current)
    ensures Kept(Flatten(ChunksFrom(current, lines))) == Kept(current + lines)
    ensures forall c :: c in ChunksFrom(current, lines) ==> IsSolid(c)
    decreases |lines|
  {
    if lines == [] {
      assert current + lines == current;
      FlattenOne(current);
    } else {
      var rest := lines[1..];
      assert current + lines == (current + [lines[0]]) + rest;
      if Strip(lines[0]) != [] {
        ChunksKeepLines(current + [lines[0]], rest);
      } else {
        ChunksKeepLines([], rest);
        assert [] + rest == rest;
        KeptConcat(current + [lines[0]], rest);
        KeptConcat(current, [lines[0]]);
        KeptOne(lines[0]);
        if current != [] {
          FlattenFirst(current, ChunksFrom([], rest));
          KeptConcat(current, Flatten(ChunksFrom([], rest)));
        }
      }
    }
  }

  lemma FlattenOne(c: seq<Line>)
    ensures Flatten([c]) == c
  {
    assert [c][..0] == [];
  }

  lemma {:induction false} FlattenFirst(c: seq<Line>, chunks: seq<seq<Line>>)
    ensures Flatten([c] + chunks) == c + Flatten(chunks)
    decreases |chunks|
  {
    if chunks == [] {
      assert [c] + chunks == [c];
      FlattenOne(c);
    } else {
      var n := |chunks| - 1;
      assert ([c] + chunks)[..n + 1] == [c] + chunks[..n];
      FlattenFirst(c, chunks[..n]);
    }
  }

  lemma FlattenAppend(chunks: seq<seq<Line>>, c: seq<Line>)
    ensures Flatten(chunks + [c]) == Flatten(chunks) + c
  {
    assert (chunks + [c])[..|chunks|] == chunks;
  }

  // ----- placeholders out and in

  datatype OutLine = Plain(text: Line) | Mark(k: nat)

  /** What matters of an extracted text, when each mark in `blocks` counts as its block. */
  function KeptOut(out: seq<OutLine>, blocks: map<nat, seq<Line>>): seq<Line> {
    if out == [] then []
    else KeptOf(out[0], blocks) + KeptOut(out[1..], blocks)
  }

  function KeptOf(o: OutLine, blocks: map<nat, seq<Line>>): seq<Line> {
    match o
    case Plain(text) => KeptLine(text)
    case Mark(k) => if k in blocks then Kept(blocks[k]) else []
  }

  predicate Covered(out: seq<OutLine>, keys: set<nat>) {
    forall i :: 0 <= i < |out| && out[i].Mark? ==> out[i].k in keys
  }

  lemma {:induction false} KeptOutConcat(a: seq<OutLine>, b: seq<OutLine>, blocks: map<nat, seq<Line>>)
    ensures KeptOut(a + b, blocks) == KeptOut(a, blocks) + KeptOut(b, blocks)
  {
    if a == [] {
      assert a + b == b;
    } else {
      assert (a + b)[1..] == a[1..] + b;
      KeptOutConcat(a[1..], b, blocks);
    }
  }

  function Plains(lines: seq<Line>): (out: seq<OutLine>)
    ensures |out| == |lines| && forall i :: 0 <= i < |lines| ==> out[i] == Plain(lines[i])
  {
    seq(|lines|, i requires 0 <= i < |lines| => Plain(lines[i]))
  }

  lemma {:induction false} KeptPlains(lines: seq<Line>, blocks: map<nat, seq<Line>>)
    ensures KeptOut(Plains(lines), blocks) == Kept(lines)
  {
    if lines != [] {
      assert Plains(lines)[1..] == Plains(lines[1..]);
      KeptPlains(lines[1..], blocks);
    }
  }

  /** A block that no mark of the text refers to does not matter. */
  lemma {:induction false} KeptOutMore(out: seq<OutLine>, blocks: map<nat, seq<Line>>, k: nat, b: seq<Line>)
    requires Covered(out, blocks.Keys) && k !in blocks
    ensures KeptOut(out, blocks[k := b]) == KeptOut(out, blocks)
  {
    if out != [] {
      KeptOutMore(out[1..], blocks, k, b);
    }
  }

  predicate IsBlank(o: OutLine) {
    o.Plain? && Strip(o.text) == []
  }

  /** `strip()` on the joined text: blank lines at both ends go, and the space at the outer ends of what is left. */
  function TrimFront(out: seq<OutLine>): seq<OutLine> {
    if out == [] then []
    else if IsBlank(out[0]) then TrimFront(out[1..])
    else if out[0].Plain? then [Plain(LStrip(out[0].text))] + out[1..]
    else out
  }

  function TrimBack(out: seq<OutLine>): seq<OutLine> {
    if out == [] then []
    else
      var n := |out| - 1;
      if IsBlank(out[n]) then TrimBack(out[..n])
      else if out[n].Plain? then out[..n] + [Plain(RStrip(out[n].text))]
      else out
  }

  lemma {:induction false} TrimFrontKeeps(out: seq<OutLine>, blocks: map<nat, seq<Line>>)
    requires Covered(out, blocks.Keys)
    ensures KeptOut(TrimFront(out), blocks) == KeptOut(out, blocks) && Covered(TrimFront(out), blocks.Keys)
  {
    if out != [] {
      if IsBlank(out[0]) {
        TrimFrontKeeps(out[1..], blocks);
      } else if out[0].Plain? {
        StripAfterStrip(out[0].text);
        assert TrimFront(out)[1..] == out[1..];
      }
    }
  }

  lemma StrippedLastKeeps(front: seq<OutLine>, text: Line, blocks: map<nat, seq<Line>>)
    ensures KeptOut(front + [Plain(RStrip(text))], blocks) == KeptOut(front + [Plain(text)], blocks)
  {
    StripAfterStrip(text);
    KeptOutConcat(front, [Plain(RStrip(text))], blocks);
    KeptOutConcat(front, [Plain(text)], blocks);
    KeptOutOne(Plain(RStrip(text)), blocks);
    KeptOutOne(Plain(text), blocks);
  }

  lemma BlankLastKeeps(front: seq<OutLine>, o: OutLine, blocks: map<nat, seq<Line>>)
    requires IsBlank(o)
    ensures KeptOut(front + [o], blocks) == KeptOut(front, blocks)
  {
    KeptOutConcat(front, [o], blocks);
    KeptOutOne(o, blocks);
  }

  lemma {:induction false} TrimBackKeeps(out: seq<OutLine>, blocks: map<nat, seq<Line>>)
    requires Covered(out, blocks.Keys)
    ensures KeptOut(TrimBack(out), blocks) == KeptOut(out, blocks) && Covered(TrimBack(out), blocks.Keys)
  {
    if out != [] {
      var n := |out| - 1;
      assert out == out[..n] + [out[n]];
      if IsBlank(out[n]) {
        BlankLastKeeps(out[..n], out[n], blocks);
        TrimBackKeeps(out[..n], blocks);
      } else if out[n].Plain? {
        StrippedLastKeeps(out[..n], out[n].text, blocks);
      }
    }
  }

  lemma MarkChunk(out: seq<OutLine>, blocks: map<nat, seq<Line>>, k: nat, chunk: seq<Line>)
    requires Covered(out, blocks.Keys) && k !in blocks
    ensures var out', blocks' := out + [Plain("")] + [Mark(k)] + [Plain("")], blocks[k := chunk];
            Covered(out', blocks'.Keys) && KeptOut(out', blocks') == KeptOut(out, blocks) + Kept(chunk)
  {
    KeptOutMore(out, blocks, k, chunk);
    AppendBlank(out, [Mark(k)], blocks[k := chunk]);
    KeptOutOne(Mark(k), blocks[k := chunk]);
  }

  lemma CopyChunk(out: seq<OutLine>, blocks: map<nat, seq<Line>>, chunk: seq<Line>)
    requires Covered(out, blocks.Keys)
    ensures var out' := out + [Plain("")] + Plains(chunk) + [Plain("")];
            Covered(out', blocks.Keys) && KeptOut(out', blocks) == KeptOut(out, blocks) + Kept(chunk)
  {
    AppendBlank(out, Plains(chunk), blocks);
    KeptPlains(chunk, blocks);
  }

  lemma KeptOutOne(o: OutLine, blocks: map<nat, seq<Line>>)
    ensures KeptOut([o], blocks) == KeptOf(o, blocks)
  {
    assert [o][1..] == [];
  }

  lemma TrimKeeps(out: seq<OutLine>, blocks: map<nat, seq<Line>>)
    requires Covered(out, blocks.Keys)
    ensures Covered(TrimBack(TrimFront(out)), blocks.Keys)
    ensures KeptOut(TrimBack(TrimFront(out)), blocks) == KeptOut(out, blocks)
  {
    TrimFrontKeeps(out, blocks);
    TrimBackKeeps(TrimFront(out), blocks);
  }

  lemma ChunkPrefix(chunks: seq<seq<Line>>, i: nat)
    requires i < |chunks|
    ensures Kept(Flatten(chunks[..i + 1])) == Kept(Flatten(chunks[..i])) + Kept(chunks[i])
  {
    assert chunks[..i + 1] == chunks[..i] + [chunks[i]];
    FlattenAppend(chunks[..i], chunks[i]);
    KeptConcat(Flatten(chunks[..i]), chunks[i]);
  }

  /** The chunks that are all comment, by their index. */
  function CommentChunks(chunks: seq<seq<Line>>): map<nat, seq<Line>> {
    map k: nat | k < |chunks| && AllComments(chunks[k]) :: chunks[k]
  }

  lemma CommentChunksNext(chunks: seq<seq<Line>>, i: nat)
    requires i < |chunks|
    ensures CommentChunks(chunks[..i + 1]) ==
            if AllComments(chunks[i]) then CommentChunks(chunks[..i])[i := chunks[i]] else CommentChunks(chunks[..i])
    ensures i !in CommentChunks(chunks[..i])
  {
  }

  /** The lines of the result for the first `n` chunks: a mark for each comment block, between empty lines. */
  function Laid(chunks: seq<seq<Line>>, n: nat): seq<OutLine>
    requires n <= |chunks|
  {
    if n == 0 then []
    else
      var chunk := chunks[n - 1];
      Laid(chunks, n - 1) + [Plain("")] + (if AllComments(chunk) then [Mark(n - 1)] else Plains(chunk)) + [Plain("")]
  }

  /** With a block for each mark, no line that is not blank is lost. */
  lemma {:induction false} LaidKeeps(chunks: seq<seq<Line>>, n: nat)
    requires n <= |chunks|
    ensures Covered(Laid(chunks, n), CommentChunks(chunks[..n]).Keys)
    ensures KeptOut(Laid(chunks, n), CommentChunks(chunks[..n])) == Kept(Flatten(chunks[..n]))
  {
    if n > 0 {
      LaidKeeps(chunks, n - 1);
      ChunkPrefix(chunks, n - 1);
      CommentChunksNext(chunks, n - 1);
      if AllComments(chunks[n - 1]) {
        MarkChunk(Laid(chunks, n - 1), CommentChunks(chunks[..n - 1]), n - 1, chunks[n - 1]);
      } else {
        CopyChunk(Laid(chunks, n - 1), CommentChunks(chunks[..n - 1]), chunks[n - 1]);
      }
    }
  }

  lemma AppendBlank(a: seq<OutLine>, b: seq<OutLine>, blocks: map<nat, seq<Line>>)
    ensures KeptOut(a + [Plain("")] + b + [Plain("")], blocks) == KeptOut(a, blocks) + KeptOut(b, blocks)
  {
    KeptOutConcat(a + [Plain("")] + b, [Plain("")], blocks);
    KeptOutConcat(a + [Plain("")], b, blocks);
    KeptOutConcat(a, [Plain("")], blocks);
    KeptOutOne(Plain(""), blocks);
  }

  /** Every occurrence of one placeholder gives way to its block, which ends in an empty line. */
  function PutBack(out: seq<OutLine>, k: nat, block: seq<Line>): seq<OutLine> {
    if out == [] then []
    else (if out[0] == Mark(k) then Plains(block + [""]) else [out[0]]) + PutBack(out[1..], k, block)
  }

  lemma PutBackOne(o: OutLine, blocks: map<nat, seq<Line>>, k: nat)
    requires k in blocks && (o.Mark? ==> o.k in blocks)
    ensures var head := if o == Mark(k) then Plains(blocks[k] + [""]) else [o];
            KeptOut(head, blocks - {k}) == KeptOf(o, blocks) && Covered(head, blocks.Keys - {k})
  {
    if o == Mark(k) {
      KeptPlains(blocks[k] + [""], blocks - {k});
      KeptConcat(blocks[k], [""]);
      KeptOne("");
    } else {
      KeptOutOne(o, blocks - {k});
    }
  }

  lemma {:induction false} PutBackKeeps(out: seq<OutLine>, blocks: map<nat, seq<Line>>, k: nat)
    requires k in blocks && Covered(out, blocks.Keys)
    ensures KeptOut(PutBack(out, k, blocks[k]), blocks - {k}) == KeptOut(out, blocks)
    ensures Covered(PutBack(out, k, blocks[k]), blocks.Keys - {k})
  {
    if out != [] {
      PutBackKeeps(out[1..], blocks, k);
      PutBackOne(out[0], blocks, k);
      var head := if out[0] == Mark(k) then Plains(blocks[k] + [""]) else [out[0]];
      KeptOutConcat(head, PutBack(out[1..], k, blocks[k]), blocks - {k});
    }
  }

  function TextOf(out: seq<OutLine>): seq<Line>
    requires Covered(out, {})
  {
    seq(|out|, i requires 0 <= i < |out| => out[i].text)
  }

  lemma KeptText(out: seq<OutLine>)
    requires Covered(out, {})
    ensures KeptOut(out, map[]) == Kept(TextOf(out))
  {
    assert out == Plains(TextOf(out));
    KeptPlains(TextOf(out), map[]);
  }
}

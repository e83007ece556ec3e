/**
 * When extracting comment blocks and putting them back keeps the lines of an SQL text.  A placeholder that the SQL
 * spells itself is replaced as well, so this comes down to where placeholders occur.
 */
module SqlRoundTrip {
  import opened Strings
  import opened SqlBlocks
  import opened SqlComments
  import opened SqlLines
  import opened Texts

  // ----- the blocks

  /** The chunks that are extracted, among the first `n`. */
  function CommentKeys(chunks: seq<seq<Line>>, n: nat): (keys: seq<nat>)
    requires n <= |chunks|
    ensures forall i :: 0 <= i < |keys| ==> keys[i] < n && AllComments(chunks[keys[i]])
    ensures forall i, j :: 0 <= i < j < |keys| ==> keys[i] < keys[j]
    ensures forall k :: 0 <= k < n && AllComments(chunks[k]) ==> k in keys
  {
    if n == 0 then []
    else CommentKeys(chunks, n - 1) + if AllComments(chunks[n - 1]) then [n - 1] else []
  }

  /** The keys of chunks that are all comment. */
  predicate CommentBlocks(chunks: seq<seq<Line>>, keys: seq<nat>) {
    Blocks(chunks, keys) && forall i :: 0 <= i < |keys| ==> AllComments(chunks[keys[i]]) && IsSolid(chunks[keys[i]])
  }

  predicate Solid(chunks: seq<seq<Line>>) {
    forall i :: 0 <= i < |chunks| ==> IsSolid(chunks[i]) && AllOneLine(chunks[i])
  }

  lemma KeysAreBlocks(chunks: seq<seq<Line>>)
    requires Solid(chunks)
    ensures CommentBlocks(chunks, CommentKeys(chunks, |chunks|))
    ensures Left(chunks, CommentKeys(chunks, |chunks|)) == CommentChunks(chunks)
  {
    var keys := CommentKeys(chunks, |chunks|);
    forall i | 0 <= i < |keys|
      ensures IsSolid(chunks[keys[i]]) && AllOneLine(chunks[keys[i]]) && AllComments(chunks[keys[i]])
    {
    }
    LeftIsAll(chunks, keys);
  }

  lemma LeftIsAll(chunks: seq<seq<Line>>, keys: seq<nat>)
    requires forall i :: 0 <= i < |keys| ==> keys[i] < |chunks| && AllComments(chunks[keys[i]])
    requires forall k :: 0 <= k < |chunks| && AllComments(chunks[k]) ==> k in keys
    ensures Left(chunks, keys) == CommentChunks(chunks)
  {
    forall k: nat ensures k in keys <==> k < |chunks| && AllComments(chunks[k]) {
      if k in keys {
        var i :| 0 <= i < |keys| && keys[i] == k;
      }
    }
  }

  /** The blocks in `keys`, with their placeholders. */
  function BlocksFor(chunks: seq<seq<Line>>, keys: seq<nat>): (blocks: seq<Block>)
    requires KeysIn(chunks, keys)
    ensures |blocks| == |keys|
    ensures forall i :: 0 <= i < |keys| ==> blocks[i] == Block(Tag(keys[i]), chunks[keys[i]])
    ensures Tagged(blocks)
  {
    TagsNotEmpty(keys);
    seq(|keys|, i requires 0 <= i < |keys| => Block(Tag(keys[i]), chunks[keys[i]]))
  }

  lemma TagsNotEmpty(keys: seq<nat>)
    ensures forall i :: 0 <= i < |keys| ==> Tag(keys[i]) != ""
  {
    forall i | 0 <= i < |keys| ensures Tag(keys[i]) != "" {
      TagEnds(keys[i]);
    }
  }

  lemma BlocksAreGood(chunks: seq<seq<Line>>, keys: seq<nat>)
    requires CommentBlocks(chunks, keys)
    ensures GoodAll(BlocksFor(chunks, keys))
  {
    var blocks := BlocksFor(chunks, keys);
    forall i | 0 <= i < |keys| ensures Good(blocks[i]) {
      TagIsTagLike(keys[i]);
    }
    forall i, j | 0 <= i < |keys| && 0 <= j < |keys| && i != j ensures !Contains(blocks[i].tag, blocks[j].tag) {
      if Contains(Tag(keys[i]), Tag(keys[j])) {
        TagsDiffer(keys[i], keys[j]);
      }
    }
  }

  // ----- the text as lines

  /** Replacing in the lines of a text with marks is replacing in the lines it shows. */
  lemma {:induction false} ReplacedShows(out: seq<OutLine>, k: nat, chunk: seq<Line>)
    requires Tag(k) != ""
    ensures Shows(Replaced(out, k, BlockText(chunk))) == ReplaceIn(Shows(out), Block(Tag(k), chunk))
  {
    if out != [] {
      var o, rest, block := out[0], out[1..], BlockText(chunk);
      ReplacedShows(rest, k, chunk);
      var head := if o.Plain? || o == Mark(k) then Plains(Lines(Replace(Show(o), Tag(k), block))) else [o];
      ShowsHead(o, k, block, head);
      ShowsConcat(head, Replaced(rest, k, block));
      ShowsFirst(out);
    }
  }

  lemma ShowsConcat(a: seq<OutLine>, b: seq<OutLine>)
    ensures Shows(a + b) == Shows(a) + Shows(b)
  {
  }

  lemma ShowsFirst(out: seq<OutLine>)
    requires out != []
    ensures Shows(out)[0] == Show(out[0]) && Shows(out)[1..] == Shows(out[1..])
  {
  }

  lemma ShowsHead(o: OutLine, k: nat, block: string, head: seq<OutLine>)
    requires Tag(k) != ""
    requires head == if o.Plain? || o == Mark(k) then Plains(Lines(Replace(Show(o), Tag(k), block))) else [o]
    ensures Shows(head) == Lines(Replace(Show(o), Tag(k), block))
  {
    if o.Mark? && o != Mark(k) {
      if Contains(Tag(o.k), Tag(k)) {
        TagsDiffer(o.k, k);
      }
      ReplaceAbsent(Tag(o.k), Tag(k), block);
      TagEnds(o.k);
      LinesOfLine(Tag(o.k));
    }
  }

  lemma {:induction false} RestoredShows(out: seq<OutLine>, chunks: seq<seq<Line>>, keys: seq<nat>)
    requires KeysIn(chunks, keys)
    ensures Shows(Restored(out, chunks, keys)) == Put(Shows(out), BlocksFor(chunks, keys))
    decreases |keys|
  {
    if keys != [] {
      TagEnds(keys[0]);
      ReplacedShows(out, keys[0], chunks[keys[0]]);
      RestoredShows(Replaced(out, keys[0], BlockText(chunks[keys[0]])), chunks, keys[1..]);
      assert BlocksFor(chunks, keys)[1..] == BlocksFor(chunks, keys[1..]);
    }
  }

  // ----- the text line by line

  /** A line of the extracted text becomes what it stands for. */
  predicate PieceBack(o: OutLine, blocks: map<nat, seq<Line>>, all: seq<Block>)
    requires Tagged(all)
  {
    Kept(Put([Show(o)], all)) == KeptOf(o, blocks)
  }

  /** The marks are those of `all`, and stand for its lines. */
  predicate Stands(o: OutLine, blocks: map<nat, seq<Line>>, all: seq<Block>) {
    o.Mark? ==> exists i :: 0 <= i < |all| && IsBlock(o.k, blocks, all[i])
  }

  predicate IsBlock(k: nat, blocks: map<nat, seq<Line>>, b: Block) {
    k in blocks && b == Block(Tag(k), blocks[k])
  }

  lemma PieceGrows(o: OutLine, blocks: map<nat, seq<Line>>, all: seq<Block>)
    requires GoodAll(all) && Stands(o, blocks, all)
    ensures |Kept(Put([Show(o)], all))| >= |KeptOf(o, blocks)|
  {
    match o
    case Plain(text) =>
      PutGrows([text], all);
      KeptOne(text);
    case Mark(k) =>
      var i :| 0 <= i < |all| && IsBlock(k, blocks, all[i]);
      PutTag(all, i);
      PutGrows(all[i].lines, all[i + 1..]);
  }

  predicate AllStand(out: seq<OutLine>, blocks: map<nat, seq<Line>>, all: seq<Block>) {
    forall i :: 0 <= i < |out| ==> Stands(out[i], blocks, all)
  }

  predicate PiecesBack(out: seq<OutLine>, blocks: map<nat, seq<Line>>, all: seq<Block>)
    requires Tagged(all)
  {
    forall i :: 0 <= i < |out| ==> PieceBack(out[i], blocks, all)
  }

  /** As no line is lost, the text comes back exactly when each of its lines does. */
  lemma {:induction false} PiecesBackKept(out: seq<OutLine>, blocks: map<nat, seq<Line>>, all: seq<Block>)
    requires GoodAll(all) && AllStand(out, blocks, all)
    ensures |Kept(Put(Shows(out), all))| >= |KeptOut(out, blocks)|
    ensures Kept(Put(Shows(out), all)) == KeptOut(out, blocks) <==> PiecesBack(out, blocks, all)
  {
    if out == [] {
      PutNothing(all);
    } else {
      var o, rest := out[0], out[1..];
      PiecesBackKept(rest, blocks, all);
      assert Shows(out) == [Show(o)] + Shows(rest);
      PutConcat([Show(o)], Shows(rest), all);
      KeptConcat(Put([Show(o)], all), Put(Shows(rest), all));
      PieceGrows(o, blocks, all);
      PartsEqual(Kept(Put([Show(o)], all)), KeptOf(o, blocks), Kept(Put(Shows(rest), all)), KeptOut(rest, blocks));
      PiecesStep(out, blocks, all);
    }
  }

  lemma PiecesStep(out: seq<OutLine>, blocks: map<nat, seq<Line>>, all: seq<Block>)
    requires Tagged(all) && out != []
    ensures PiecesBack(out, blocks, all) <==> PieceBack(out[0], blocks, all) && PiecesBack(out[1..], blocks, all)
  {
    assert forall i :: 0 < i < |out| ==> out[i] == out[1..][i - 1];
  }

  // ----- the condition

  /**
   * Every placeholder of an extracted block is harmless where it is in the text when it is replaced: in lines that
   * stay, and in blocks that are put back before.
   */
  predicate Safe(chunks: seq<seq<Line>>) {
    forall k :: 0 <= k < |chunks| && AllComments(chunks[k]) ==> SafeBlock(chunks, k)
  }

  predicate SafeBlock(chunks: seq<seq<Line>>, k: nat)
    requires k < |chunks|
  {
    forall j :: 0 <= j < |chunks| && (AllComments(chunks[j]) ==> j < k) ==> HarmlessIn(chunks[j], BlockFor(chunks, k))
  }

  predicate HarmlessIn(lines: seq<Line>, b: Block) {
    forall i :: 0 <= i < |lines| ==> Harmless(lines[i], b)
  }

  function BlockFor(chunks: seq<seq<Line>>, k: nat): Block
    requires k < |chunks|
  {
    Block(Tag(k), chunks[k])
  }

  /** The simple case: no line contains a placeholder of an extracted block. */
  lemma NoPlaceholderIsSafe(chunks: seq<seq<Line>>)
    requires forall j, k :: 0 <= j < |chunks| && 0 <= k < |chunks| && AllComments(chunks[k]) ==> Free(chunks[j], Tag(k))
    ensures Safe(chunks)
  {
  }

  // ----- the extracted text

  function Start(chunks: seq<seq<Line>>): seq<OutLine> {
    TrimBack(TrimFront(Laid(chunks, |chunks|)))
  }

  lemma StartKeeps(chunks: seq<seq<Line>>)
    ensures Covered(Start(chunks), CommentChunks(chunks).Keys)
    ensures KeptOut(Start(chunks), CommentChunks(chunks)) == Kept(Flatten(chunks))
  {
    LaidKeeps(chunks, |chunks|);
    assert chunks[..|chunks|] == chunks;
    TrimKeeps(Laid(chunks, |chunks|), CommentChunks(chunks));
  }

  lemma {:induction false} LaidOneLine(chunks: seq<seq<Line>>, n: nat)
    requires n <= |chunks| && Solid(chunks)
    ensures PlainsOneLine(Laid(chunks, n))
  {
    if n > 0 {
      LaidOneLine(chunks, n - 1);
    }
  }

  lemma {:induction false} TrimFrontOneLine(out: seq<OutLine>)
    requires PlainsOneLine(out)
    ensures PlainsOneLine(TrimFront(out))
  {
    if out != [] {
      if IsBlank(out[0]) {
        TrimFrontOneLine(out[1..]);
      } else if out[0].Plain? {
        var n := LStripCuts(out[0].text);
      }
    }
  }

  lemma {:induction false} TrimBackOneLine(out: seq<OutLine>)
    requires PlainsOneLine(out)
    ensures PlainsOneLine(TrimBack(out))
  {
    if out != [] {
      var n := |out| - 1;
      if IsBlank(out[n]) {
        TrimBackOneLine(out[..n]);
      } else if out[n].Plain? {
        RStripCuts(out[n].text);
      }
    }
  }

  lemma StartOneLine(chunks: seq<seq<Line>>)
    requires Solid(chunks)
    ensures PlainsOneLine(Start(chunks))
  {
    LaidOneLine(chunks, |chunks|);
    TrimFrontOneLine(Laid(chunks, |chunks|));
    TrimBackOneLine(TrimFront(Laid(chunks, |chunks|)));
  }

  // ----- harmless lines of the extracted text

  predicate PlainsHarmless(out: seq<OutLine>, b: Block) {
    forall i :: 0 <= i < |out| && out[i].Plain? ==> Harmless(out[i].text, b)
  }

  lemma HarmlessByStrip(l: Line, m: Line, b: Block)
    requires TagLike(b.tag) && Strip(l) == Strip(m)
    ensures Harmless(l, b) <==> Harmless(m, b)
  {
    StripContains(l, b.tag);
    StripContains(m, b.tag);
  }

  lemma BlankIsHarmless(l: Line, b: Block)
    requires TagLike(b.tag) && Strip(l) == []
    ensures Harmless(l, b)
  {
    StripEmpty(l);
    SpaceIsFree(l, b.tag);
  }

  lemma {:induction false} TrimFrontHarmless(out: seq<OutLine>, b: Block)
    requires TagLike(b.tag)
    ensures PlainsHarmless(TrimFront(out), b) <==> PlainsHarmless(out, b)
  {
    if out != [] {
      HarmlessFirst(out, b);
      if IsBlank(out[0]) {
        TrimFrontHarmless(out[1..], b);
        BlankIsHarmless(out[0].text, b);
      } else if out[0].Plain? {
        StripAfterStrip(out[0].text);
        HarmlessByStrip(LStrip(out[0].text), out[0].text, b);
        HarmlessFirst(TrimFront(out), b);
        assert TrimFront(out)[1..] == out[1..];
      }
    }
  }

  lemma HarmlessFirst(out: seq<OutLine>, b: Block)
    requires out != []
    ensures PlainsHarmless(out, b) <==> (out[0].Plain? ==> Harmless(out[0].text, b)) && PlainsHarmless(out[1..], b)
  {
    assert forall i :: 0 < i < |out| ==> out[i] == out[1..][i - 1];
  }

  lemma HarmlessConcat(a: seq<OutLine>, c: seq<OutLine>, b: Block)
    ensures PlainsHarmless(a + c, b) <==> PlainsHarmless(a, b) && PlainsHarmless(c, b)
  {
    assert forall i :: 0 <= i < |a| ==> (a + c)[i] == a[i];
    assert forall i :: 0 <= i < |c| ==> (a + c)[|a| + i] == c[i];
  }

  lemma HarmlessOne(o: OutLine, b: Block)
    ensures PlainsHarmless([o], b) <==> (o.Plain? ==> Harmless(o.text, b))
  {
    assert [o][0] == o;
  }

  lemma {:induction false} TrimBackHarmless(out: seq<OutLine>, b: Block)
    requires TagLike(b.tag)
    ensures PlainsHarmless(TrimBack(out), b) <==> PlainsHarmless(out, b)
  {
    if out != [] {
      var n := |out| - 1;
      assert out == out[..n] + [out[n]];
      HarmlessConcat(out[..n], [out[n]], b);
      if IsBlank(out[n]) {
        TrimBackHarmless(out[..n], b);
        BlankIsHarmless(out[n].text, b);
      } else if out[n].Plain? {
        StripAfterStrip(out[n].text);
        HarmlessByStrip(RStrip(out[n].text), out[n].text, b);
        HarmlessConcat(out[..n], [Plain(RStrip(out[n].text))], b);
        HarmlessOne(Plain(RStrip(out[n].text)), b);
        HarmlessOne(out[n], b);
      }
    }
  }

  predicate StayHarmless(chunks: seq<seq<Line>>, n: nat, b: Block)
    requires n <= |chunks|
  {
    forall j :: 0 <= j < n && !AllComments(chunks[j]) ==> HarmlessIn(chunks[j], b)
  }

  lemma ChunkHarmless(chunk: seq<Line>, k: nat, b: Block)
    ensures var x := if AllComments(chunk) then [Mark(k)] else Plains(chunk);
            PlainsHarmless(x, b) <==> (!AllComments(chunk) ==> HarmlessIn(chunk, b))
  {
    HarmlessOne(Mark(k), b);
    assert forall i :: 0 <= i < |chunk| ==> Plains(chunk)[i] == Plain(chunk[i]);
  }

  lemma BetweenBlanks(a: seq<OutLine>, x: seq<OutLine>, b: Block)
    requires TagLike(b.tag)
    ensures PlainsHarmless(a + [Plain("")] + x + [Plain("")], b) <==> PlainsHarmless(a, b) && PlainsHarmless(x, b)
  {
    BlankIsHarmless("", b);
    HarmlessOne(Plain(""), b);
    HarmlessConcat(a, [Plain("")], b);
    HarmlessConcat(a + [Plain("")], x, b);
    HarmlessConcat(a + [Plain("")] + x, [Plain("")], b);
  }

  lemma MoreHarmless(a: seq<OutLine>, chunk: seq<Line>, k: nat, b: Block)
    requires TagLike(b.tag)
    ensures var x := if AllComments(chunk) then [Mark(k)] else Plains(chunk);
            PlainsHarmless(a + [Plain("")] + x + [Plain("")], b) <==>
            PlainsHarmless(a, b) && (!AllComments(chunk) ==> HarmlessIn(chunk, b))
  {
    ChunkHarmless(chunk, k, b);
    BetweenBlanks(a, if AllComments(chunk) then [Mark(k)] else Plains(chunk), b);
  }

  lemma StayStep(chunks: seq<seq<Line>>, n: nat, b: Block)
    requires 0 < n <= |chunks|
    ensures StayHarmless(chunks, n, b) <==>
            StayHarmless(chunks, n - 1, b) && (!AllComments(chunks[n - 1]) ==> HarmlessIn(chunks[n - 1], b))
  {
  }

  /** The lines that are not placeholders are those of the chunks that stay. */
  lemma {:induction false} LaidHarmless(chunks: seq<seq<Line>>, n: nat, b: Block)
    requires n <= |chunks| && TagLike(b.tag)
    ensures PlainsHarmless(Laid(chunks, n), b) <==> StayHarmless(chunks, n, b)
  {
    if n > 0 {
      LaidHarmless(chunks, n - 1, b);
      StayStep(chunks, n, b);
      MoreHarmless(Laid(chunks, n - 1), chunks[n - 1], n - 1, b);
    }
  }

  lemma StartHarmless(chunks: seq<seq<Line>>, b: Block)
    requires TagLike(b.tag)
    ensures PlainsHarmless(Start(chunks), b) <==> StayHarmless(chunks, |chunks|, b)
  {
    LaidHarmless(chunks, |chunks|, b);
    TrimFrontHarmless(Laid(chunks, |chunks|), b);
    TrimBackHarmless(TrimFront(Laid(chunks, |chunks|)), b);
  }

  // ----- the marks of the extracted text

  lemma {:induction false} TrimFrontMarks(out: seq<OutLine>, k: nat)
    requires Mark(k) in out
    ensures Mark(k) in TrimFront(out)
  {
    assert out == [out[0]] + out[1..];
    if IsBlank(out[0]) {
      TrimFrontMarks(out[1..], k);
    } else if out[0].Plain? {
      assert Mark(k) in out[1..];
    }
  }

  lemma {:induction false} TrimBackMarks(out: seq<OutLine>, k: nat)
    requires Mark(k) in out
    ensures Mark(k) in TrimBack(out)
  {
    var n := |out| - 1;
    assert out == out[..n] + [out[n]];
    if IsBlank(out[n]) {
      TrimBackMarks(out[..n], k);
    } else if out[n].Plain? {
      assert Mark(k) in out[..n];
    }
  }

  lemma {:induction false} LaidMarks(chunks: seq<seq<Line>>, n: nat, k: nat)
    requires k < n <= |chunks| && AllComments(chunks[k])
    ensures Mark(k) in Laid(chunks, n)
  {
    if k < n - 1 {
      LaidMarks(chunks, n - 1, k);
    }
  }

  lemma StartMarks(chunks: seq<seq<Line>>, k: nat)
    requires k < |chunks| && AllComments(chunks[k])
    ensures Mark(k) in Start(chunks)
  {
    LaidMarks(chunks, |chunks|, k);
    TrimFrontMarks(Laid(chunks, |chunks|), k);
    TrimBackMarks(TrimFront(Laid(chunks, |chunks|)), k);
  }

  // ----- the text comes back exactly if its placeholders are harmless

  lemma StartStands(chunks: seq<seq<Line>>, keys: seq<nat>)
    requires KeysIn(chunks, keys) && Left(chunks, keys) == CommentChunks(chunks)
    ensures AllStand(Start(chunks), CommentChunks(chunks), BlocksFor(chunks, keys))
  {
    StartKeeps(chunks);
    var out := Start(chunks);
    forall i | 0 <= i < |out| ensures Stands(out[i], CommentChunks(chunks), BlocksFor(chunks, keys)) {
      if out[i].Mark? {
        var k := out[i].k;
        assert k in Left(chunks, keys);
        var q :| 0 <= q < |keys| && keys[q] == k;
        assert IsBlock(k, CommentChunks(chunks), BlocksFor(chunks, keys)[q]);
      }
    }
  }

  lemma {:induction false} BlocksBackFrom(all: seq<Block>, n: nat)
    requires GoodAll(all) && BlocksBack(all) && n <= |all|
    ensures GoodAll(all[n..]) && BlocksBack(all[n..])
  {
    if n == 0 {
      assert all[0..] == all;
    } else {
      BlocksBackRest(all);
      RestGood(all);
      BlocksBackFrom(all[1..], n - 1);
      assert all[1..][n - 1..] == all[n..];
    }
  }

  lemma MarkBack(chunks: seq<seq<Line>>, keys: seq<nat>, i: nat)
    requires CommentBlocks(chunks, keys) && i < |keys|
    ensures var all := BlocksFor(chunks, keys);
            GoodAll(all) && (Kept(Put([Tag(keys[i])], all)) == Kept(chunks[keys[i]]) <==>
                             LinesBack(chunks[keys[i]], all[i + 1..]))
  {
    var all := BlocksFor(chunks, keys);
    BlocksAreGood(chunks, keys);
    PutTag(all, i);
    GoodFrom(all, i + 1);
    LinesBackKept(chunks[keys[i]], all[i + 1..]);
  }

  lemma GoodFrom(all: seq<Block>, n: nat)
    requires GoodAll(all) && n <= |all|
    ensures GoodAll(all[n..])
  {
    forall i | 0 <= i < |all| - n ensures all[n..][i] == all[n + i] {
    }
  }

  lemma BlocksComeBack(chunks: seq<seq<Line>>, keys: seq<nat>)
    requires CommentBlocks(chunks, keys) && Left(chunks, keys) == CommentChunks(chunks)
    requires PiecesBack(Start(chunks), CommentChunks(chunks), BlocksFor(chunks, keys))
    ensures BlocksBack(BlocksFor(chunks, keys))
  {
    var all := BlocksFor(chunks, keys);
    forall i | 0 <= i < |all| ensures LinesBack(all[i].lines, all[i + 1..]) {
      StartMarks(chunks, keys[i]);
      var p :| 0 <= p < |Start(chunks)| && Start(chunks)[p] == Mark(keys[i]);
      assert PieceBack(Start(chunks)[p], CommentChunks(chunks), all);
      assert keys[i] in Left(chunks, keys);
      MarkBack(chunks, keys, i);
    }
  }

  /** Enough and necessary, for the lines that stay. */
  lemma StaysHarmless(chunks: seq<seq<Line>>, keys: seq<nat>, i: nat)
    requires Solid(chunks) && CommentBlocks(chunks, keys) && BlocksBack(BlocksFor(chunks, keys)) && i < |keys|
    requires PiecesBack(Start(chunks), CommentChunks(chunks), BlocksFor(chunks, keys))
    ensures StayHarmless(chunks, |chunks|, BlockFor(chunks, keys[i]))
  {
    var all, out := BlocksFor(chunks, keys), Start(chunks);
    BlocksAreGood(chunks, keys);
    StartOneLine(chunks);
    forall p | 0 <= p < |out| && out[p].Plain? ensures Harmless(out[p].text, all[i]) {
      assert PieceBack(out[p], CommentChunks(chunks), all);
      BackIsHarmless(out[p].text, all);
    }
    assert Good(all[i]);
    StartHarmless(chunks, all[i]);
  }

  lemma EarlierHarmless(chunks: seq<seq<Line>>, keys: seq<nat>, h: nat, i: nat)
    requires CommentBlocks(chunks, keys) && BlocksBack(BlocksFor(chunks, keys)) && h < i < |keys|
    ensures HarmlessIn(chunks[keys[h]], BlockFor(chunks, keys[i]))
  {
    var all := BlocksFor(chunks, keys);
    var rest := all[h + 1..];
    BlocksAreGood(chunks, keys);
    BlocksBackFrom(all, h + 1);
    assert LinesBack(all[h].lines, rest) && rest[i - h - 1] == all[i];
    forall p | 0 <= p < |chunks[keys[h]]| ensures Harmless(chunks[keys[h]][p], all[i]) {
      assert Good(all[h]) && Back(all[h].lines[p], rest);
      BackIsHarmless(all[h].lines[p], rest);
    }
  }

  lemma BackIsSafe(chunks: seq<seq<Line>>, keys: seq<nat>)
    requires Solid(chunks) && CommentBlocks(chunks, keys) && Left(chunks, keys) == CommentChunks(chunks)
    requires PiecesBack(Start(chunks), CommentChunks(chunks), BlocksFor(chunks, keys))
    ensures Safe(chunks)
  {
    BlocksComeBack(chunks, keys);
    forall k | 0 <= k < |chunks| && AllComments(chunks[k]) ensures SafeBlock(chunks, k) {
      var i := KeyAt(chunks, keys, k);
      StaysHarmless(chunks, keys, i);
      forall j | 0 <= j < k && AllComments(chunks[j]) ensures HarmlessIn(chunks[j], BlockFor(chunks, k)) {
        var h := KeyAt(chunks, keys, j);
        assert h < i;
        EarlierHarmless(chunks, keys, h, i);
      }
    }
  }

  lemma KeyAt(chunks: seq<seq<Line>>, keys: seq<nat>, k: nat) returns (i: nat)
    requires KeysIn(chunks, keys) && Left(chunks, keys) == CommentChunks(chunks)
    requires k < |chunks| && AllComments(chunks[k])
    ensures i < |keys| && keys[i] == k
  {
    assert k in CommentChunks(chunks);
    assert k in Left(chunks, keys);
    i :| 0 <= i < |keys| && keys[i] == k;
  }

  lemma SafeStays(chunks: seq<seq<Line>>, keys: seq<nat>, p: nat)
    requires Solid(chunks) && CommentBlocks(chunks, keys) && Safe(chunks)
    requires p < |Start(chunks)| && Start(chunks)[p].Plain?
    ensures Back(Start(chunks)[p].text, BlocksFor(chunks, keys))
  {
    var all, l := BlocksFor(chunks, keys), Start(chunks)[p].text;
    BlocksAreGood(chunks, keys);
    StartOneLine(chunks);
    forall i | 0 <= i < |all| ensures Harmless(l, all[i]) {
      assert Good(all[i]) && SafeBlock(chunks, keys[i]);
      StartHarmless(chunks, all[i]);
    }
    HarmlessIsBack(l, all);
  }

  lemma SafeMark(chunks: seq<seq<Line>>, keys: seq<nat>, h: nat)
    requires CommentBlocks(chunks, keys) && Safe(chunks) && h < |keys|
    ensures Kept(Put([Tag(keys[h])], BlocksFor(chunks, keys))) == Kept(chunks[keys[h]])
  {
    var all := BlocksFor(chunks, keys);
    var rest := all[h + 1..];
    MarkBack(chunks, keys, h);
    GoodFrom(all, h + 1);
    forall p | 0 <= p < |all[h].lines| ensures Back(all[h].lines[p], rest) {
      forall i | 0 <= i < |rest| ensures Harmless(all[h].lines[p], rest[i]) {
        assert rest[i] == all[h + 1 + i] && SafeBlock(chunks, keys[h + 1 + i]);
        assert HarmlessIn(chunks[keys[h]], BlockFor(chunks, keys[h + 1 + i]));
      }
      assert Good(all[h]);
      HarmlessIsBack(all[h].lines[p], rest);
    }
  }

  lemma SafeIsBack(chunks: seq<seq<Line>>, keys: seq<nat>)
    requires Solid(chunks) && CommentBlocks(chunks, keys) && Left(chunks, keys) == CommentChunks(chunks) && Safe(chunks)
    ensures PiecesBack(Start(chunks), CommentChunks(chunks), BlocksFor(chunks, keys))
  {
    var all, out := BlocksFor(chunks, keys), Start(chunks);
    StartKeeps(chunks);
    forall p | 0 <= p < |out| ensures PieceBack(out[p], CommentChunks(chunks), all) {
      if out[p].Plain? {
        SafeStays(chunks, keys, p);
      } else {
        assert out[p].k in CommentChunks(chunks);
        var h := KeyAt(chunks, keys, out[p].k);
        SafeMark(chunks, keys, h);
      }
    }
  }

  /** The lines come back after all blocks have been put back exactly if every placeholder in them is harmless. */
  lemma AllBackIffSafe(chunks: seq<seq<Line>>)
    requires Solid(chunks)
    ensures var all := BlocksFor(chunks, CommentKeys(chunks, |chunks|));
            Kept(Put(Shows(Start(chunks)), all)) == Kept(Flatten(chunks)) <==> Safe(chunks)
  {
    var keys := CommentKeys(chunks, |chunks|);
    KeysAreBlocks(chunks);
    BlocksAreGood(chunks, keys);
    StartKeeps(chunks);
    StartStands(chunks, keys);
    PiecesBackKept(Start(chunks), CommentChunks(chunks), BlocksFor(chunks, keys));
    if PiecesBack(Start(chunks), CommentChunks(chunks), BlocksFor(chunks, keys)) {
      BackIsSafe(chunks, keys);
    }
    if Safe(chunks) {
      SafeIsBack(chunks, keys);
    }
  }

  lemma {:induction false} PutOneLine(lines: seq<Line>, all: seq<Block>)
    requires Tagged(all) && AllOneLine(lines)
    ensures AllOneLine(Put(lines, all))
    decreases |all|
  {
    if all != [] {
      ReplaceInOneLine(lines, all[0]);
      PutOneLine(ReplaceIn(lines, all[0]), all[1..]);
    }
  }

  lemma {:induction false} ReplaceInOneLine(lines: seq<Line>, b: Block)
    requires b.tag != ""
    ensures AllOneLine(ReplaceIn(lines, b))
  {
    if lines != [] {
      ReplaceInOneLine(lines[1..], b);
    }
  }

  lemma RestoredText(chunks: seq<seq<Line>>, keys: seq<nat>)
    requires Solid(chunks) && KeysIn(chunks, keys)
    ensures Kept(Lines(Text(Restored(Start(chunks), chunks, keys)))) ==
            Kept(Put(Shows(Start(chunks)), BlocksFor(chunks, keys)))
  {
    var lines := Put(Shows(Start(chunks)), BlocksFor(chunks, keys));
    RestoredShows(Start(chunks), chunks, keys);
    StartOneLine(chunks);
    forall i | 0 <= i < |Start(chunks)| ensures OneLine(Shows(Start(chunks))[i]) {
      if Start(chunks)[i].Mark? {
        TagEnds(Start(chunks)[i].k);
      }
    }
    PutOneLine(Shows(Start(chunks)), BlocksFor(chunks, keys));
    if lines == [] {
      KeptOne("");
    } else {
      LinesJoin(lines);
    }
  }

  // ----- the program

  /** The placeholders and the texts of the blocks in `keys`, in the order of the dictionary. */
  function BlocksOf(chunks: seq<seq<Line>>, keys: seq<nat>): (blocks: seq<(string, string)>)
    requires KeysIn(chunks, keys)
    ensures |blocks| == |keys|
    ensures forall i :: 0 <= i < |keys| ==> blocks[i] == (Tag(keys[i]), BlockText(chunks[keys[i]]))
  {
    seq(|keys|, i requires 0 <= i < |keys| => (Tag(keys[i]), BlockText(chunks[keys[i]])))
  }

  /** Every placeholder replaced, wherever it occurs, one after the other. */
  function PutAllBack(text: string, blocks: seq<(string, string)>): string
    requires forall i :: 0 <= i < |blocks| ==> blocks[i].0 != ""
    decreases |blocks|
  {
    if blocks == [] then text else PutAllBack(Replace(text, blocks[0].0, blocks[0].1), blocks[1..])
  }

  lemma {:induction false} PutAllBackText(out: seq<OutLine>, chunks: seq<seq<Line>>, keys: seq<nat>)
    requires KeysIn(chunks, keys)
    ensures forall i :: 0 <= i < |keys| ==> BlocksOf(chunks, keys)[i].0 != ""
    ensures PutAllBack(Text(out), BlocksOf(chunks, keys)) == Text(Restored(out, chunks, keys))
    decreases |keys|
  {
    TagsNotEmpty(keys);
    if keys != [] {
      var block := BlockText(chunks[keys[0]]);
      ReplacedText(out, keys[0], block);
      PutAllBackText(Replaced(out, keys[0], block), chunks, keys[1..]);
      assert BlocksOf(chunks, keys)[1..] == BlocksOf(chunks, keys[1..]);
    }
  }

  function ChunksOf(sql: string): seq<seq<Line>> {
    ChunksFrom([], Lines(sql))
  }

  lemma {:induction false} ChunksOneLine(current: seq<Line>, lines: seq<Line>)
    requires AllOneLine(current) && AllOneLine(lines)
    ensures forall i :: 0 <= i < |ChunksFrom(current, lines)| ==> AllOneLine(ChunksFrom(current, lines)[i])
    decreases |lines|
  {
    if lines != [] {
      if Strip(lines[0]) != [] {
        ChunksOneLine(current + [lines[0]], lines[1..]);
      } else {
        ChunksOneLine([], lines[1..]);
      }
    }
  }

  lemma ChunksSolid(sql: string)
    ensures Solid(ChunksOf(sql)) && Kept(Flatten(ChunksOf(sql))) == Kept(Lines(sql))
  {
    ChunksKeepLines([], Lines(sql));
    assert [] + Lines(sql) == Lines(sql);
    ChunksOneLine([], Lines(sql));
  }

  lemma KeysNext(chunks: seq<seq<Line>>, n: nat)
    requires n < |chunks|
    ensures BlocksOf(chunks, CommentKeys(chunks, n + 1)) ==
            BlocksOf(chunks, CommentKeys(chunks, n)) +
            if AllComments(chunks[n]) then [(Tag(n), BlockText(chunks[n]))] else []
  {
  }

  lemma ShowsNext(chunks: seq<seq<Line>>, n: nat)
    requires n < |chunks|
    ensures Shows(Laid(chunks, n + 1)) ==
            Shows(Laid(chunks, n)) + [""] + (if AllComments(chunks[n]) then [Tag(n)] else chunks[n]) + [""]
  {
    var a, x := Laid(chunks, n), if AllComments(chunks[n]) then [Mark(n)] else Plains(chunks[n]);
    ShowsConcat(a, [Plain("")]);
    ShowsConcat(a + [Plain("")], x);
    ShowsConcat(a + [Plain("")] + x, [Plain("")]);
    assert Shows([Plain("")]) == [""] && Shows(x) == if AllComments(chunks[n]) then [Tag(n)] else chunks[n];
  }

  /** `extract_comment_blocks`: with the block for each placeholder, the text keeps the lines of the SQL. */
  method Extract(sql: string) returns (text: string, blocks: seq<(string, string)>)
    ensures var chunks := ChunksOf(sql);
            text == Text(Start(chunks)) && blocks == BlocksOf(chunks, CommentKeys(chunks, |chunks|)) &&
            Covered(Start(chunks), CommentChunks(chunks).Keys) &&
            KeptOut(Start(chunks), CommentChunks(chunks)) == Kept(Lines(sql))
  {
    var chunks := SplitChunks(Lines(sql));
    var result: seq<string> := [];
    blocks := [];
    for i := 0 to |chunks|
      invariant result == Shows(Laid(chunks, i)) && blocks == BlocksOf(chunks, CommentKeys(chunks, i))
    {
      var chunk := chunks[i];
      KeysNext(chunks, i);
      ShowsNext(chunks, i);
      if AllComments(chunk) {
        blocks := blocks + [(Tag(i), BlockText(chunk))];
        result := result + [""] + [Tag(i)] + [""];
      } else {
        result := result + [""] + chunk + [""];
      }
    }
    text := Strip(Join(result));
    StripText(Laid(chunks, |chunks|));
    StartKeeps(chunks);
    ChunksSolid(sql);
  }

  /** What lets blocks be put back into a text: their placeholders are nowhere but in their own lines. */
  predicate Fits(out: seq<OutLine>, chunks: seq<seq<Line>>, keys: seq<nat>) {
    Blocks(chunks, keys) && LaterFree(chunks, keys) &&
    PlainsOneLine(out) && Covered(out, Left(chunks, keys).Keys) &&
    forall i :: 0 <= i < |keys| ==> PlainsFree(out, Tag(keys[i]))
  }

  /**
   * `restore_comment_blocks`.  If the text shows the lines of `out`, with placeholders that are nowhere else, the
   * blocks come in their places, whatever the formatter did to the rest.
   */
  method Restore(
      text: string, blocks: seq<(string, string)>,
      ghost out: seq<OutLine>, ghost chunks: seq<seq<Line>>, ghost keys: seq<nat>)
    returns (result: string)
    requires forall i :: 0 <= i < |blocks| ==> blocks[i].0 != ""
    ensures result == PutAllBack(text, blocks)
    ensures Fits(out, chunks, keys) && text == Text(out) && blocks == BlocksOf(chunks, keys) ==>
              Kept(Lines(result)) == KeptOut(out, Left(chunks, keys))
  {
    result := text;
    assert blocks[0..] == blocks;
    for i := 0 to |blocks|
      invariant PutAllBack(result, blocks[i..]) == PutAllBack(text, blocks)
    {
      assert blocks[i..][1..] == blocks[i + 1..];
      result := Replace(result, blocks[i].0, blocks[i].1);
    }
    if Fits(out, chunks, keys) && text == Text(out) && blocks == BlocksOf(chunks, keys) {
      PutAllBackText(out, chunks, keys);
      RestoredKeeps(out, chunks, keys);
      KeptOfText(Restored(out, chunks, keys));
    }
  }

  /**
   * Restoring after extracting keeps the stripped lines that are not blank exactly if every placeholder of an extracted
   * block that the SQL spells itself is harmless.
   */
  method CommentRoundTrip(sql: string) returns (restored: string)
    ensures Kept(Lines(restored)) == Kept(Lines(sql)) <==> Safe(ChunksOf(sql))
  {
    var text, blocks := Extract(sql);
    ghost var chunks := ChunksOf(sql);
    ghost var keys := CommentKeys(chunks, |chunks|);
    PutAllBackText(Start(chunks), chunks, keys);
    restored := Restore(text, blocks, Start(chunks), chunks, keys);
    ChunksSolid(sql);
    KeysAreBlocks(chunks);
    RestoredText(chunks, keys);
    AllBackIffSafe(chunks);
  }

  lemma StripNothing(l: Line)
    requires l != "" && !IsSpace(l[0]) && !IsSpace(l[|l| - 1])
    ensures Strip(l) == l
  {
    RStripTight(l);
  }

  lemma TwoChunks(a: Line, b: Line)
    requires Strip(a) != [] && Strip(b) != []
    ensures ChunksFrom([], [a, "", b]) == [[a], [b]]
  {
    var lines, last: seq<Line> := [a, "", b], [b];
    assert lines[1..] == ["", b] && ["", b][1..] == last && last[1..] == [];
    assert Strip("") == [] && [] + [a] == [a] && [] + [b] == [b];
    assert ChunksFrom([b], []) == [[b]] && ChunksFrom([], last) == [[b]];
    assert [[a]] + [[b]] == [[a], [b]];
  }

  /** An SQL text that spells a placeholder behind some code: the block is put there as well. */
  lemma PlaceholderInSql(front: Line, tag: string)
    requires front == "SELECT 1 " && tag == Tag(0)
    ensures !Safe(ChunksFrom([], ["-- a", "", front + tag]))
  {
    TagIsTagLike(0);
    var a, b := "-- a", front + tag;
    StripNothing(a);
    StripNothing(b);
    TwoChunks(a, b);
    var chunks := [[a], [b]];
    assert b[|front|..] == tag && StartsWith(b[|front|..], tag);
    assert !IsComment(b) && !AllComments(chunks[1]) && IsComment(a) && AllComments(chunks[0]);
    assert !HarmlessIn(chunks[1], BlockFor(chunks, 0)) by {
      assert chunks[1][0] == b;
      assert |tag| > |a|;
    }
    assert !SafeBlock(chunks, 0);
  }
}

/**
 * What becomes of each line of a text when comment blocks are put back, one after the other: exactly when a line comes
 * back although it contains a placeholder.
 */
module SqlLines {
  import opened Strings
  import opened SqlBlocks
  import opened SqlComments
  import opened Texts

  datatype Block = Block(tag: string, lines: seq<Line>)

  predicate Good(b: Block) {
    TagLike(b.tag) && IsSolid(b.lines) && AllOneLine(b.lines) && AllComments(b.lines)
  }

  /** Blocks of comment lines, with placeholders that are not part of each other. */
  predicate GoodAll(blocks: seq<Block>) {
    (forall i :: 0 <= i < |blocks| ==> Good(blocks[i])) &&
    forall i, j :: 0 <= i < |blocks| && 0 <= j < |blocks| && i != j ==> !Contains(blocks[i].tag, blocks[j].tag)
  }

  predicate Tagged(blocks: seq<Block>) {
    forall i :: 0 <= i < |blocks| ==> blocks[i].tag != ""
  }

  /** The lines after one placeholder has been replaced in each. */
  function ReplaceIn(lines: seq<Line>, b: Block): seq<Line>
    requires b.tag != ""
  {
    if lines == [] then [] else Lines(Replace(lines[0], b.tag, BlockText(b.lines))) + ReplaceIn(lines[1..], b)
  }

  /** The lines after all blocks have been put back. */
  function Put(lines: seq<Line>, blocks: seq<Block>): seq<Line>
    requires Tagged(blocks)
    decreases |blocks|
  {
    if blocks == [] then lines else Put(ReplaceIn(lines, blocks[0]), blocks[1..])
  }

  lemma {:induction false} ReplaceInConcat(a: seq<Line>, c: seq<Line>, b: Block)
    requires b.tag != ""
    ensures ReplaceIn(a + c, b) == ReplaceIn(a, b) + ReplaceIn(c, b)
  {
    if a == [] {
      assert a + c == c;
    } else {
      assert (a + c)[1..] == a[1..] + c;
      ReplaceInConcat(a[1..], c, b);
    }
  }

  lemma {:induction false} PutConcat(a: seq<Line>, c: seq<Line>, blocks: seq<Block>)
    requires Tagged(blocks)
    ensures Put(a + c, blocks) == Put(a, blocks) + Put(c, blocks)
    decreases |blocks|
  {
    if blocks != [] {
      ReplaceInConcat(a, c, blocks[0]);
      PutConcat(ReplaceIn(a, blocks[0]), ReplaceIn(c, blocks[0]), blocks[1..]);
    }
  }

  lemma ReplaceInOne(l: Line, b: Block)
    requires b.tag != ""
    ensures ReplaceIn([l], b) == Lines(Replace(l, b.tag, BlockText(b.lines)))
  {
    assert [l][1..] == [] && ReplaceIn([], b) == [];
  }

  // ----- lines without placeholders stay

  lemma ReplaceInFree(l: Line, b: Block)
    requires b.tag != "" && OneLine(l) && !Contains(l, b.tag)
    ensures ReplaceIn([l], b) == [l]
  {
    ReplaceInOne(l, b);
    ReplaceAbsent(l, b.tag, BlockText(b.lines));
    LinesOfLine(l);
  }

  predicate NoneIn(a: string, blocks: seq<Block>) {
    forall i :: 0 <= i < |blocks| ==> !Contains(a, blocks[i].tag)
  }

  lemma NoneInStep(a: string, blocks: seq<Block>)
    requires blocks != []
    ensures NoneIn(a, blocks) <==> !Contains(a, blocks[0].tag) && NoneIn(a, blocks[1..])
  {
    assert forall i :: 0 < i < |blocks| ==> blocks[i] == blocks[1..][i - 1];
  }

  lemma {:induction false} PutFree(l: Line, blocks: seq<Block>)
    requires Tagged(blocks) && OneLine(l) && NoneIn(l, blocks)
    ensures Put([l], blocks) == [l]
    decreases |blocks|
  {
    if blocks != [] {
      NoneInStep(l, blocks);
      ReplaceInFree(l, blocks[0]);
      PutFree(l, blocks[1..]);
    }
  }

  lemma SpaceIsFree(l: Line, tag: string)
    requires TagLike(tag) && AllSpace(l)
    ensures !Contains(l, tag)
  {
    if p :| 0 <= p <= |l| && StartsWith(l[p..], tag) {
      assert l[p] == l[p..][..|tag|][0] == '-';
    }
  }

  lemma PutSpace(l: Line, blocks: seq<Block>)
    requires GoodAll(blocks) && OneLine(l) && AllSpace(l)
    ensures Put([l], blocks) == [l]
  {
    forall i | 0 <= i < |blocks| ensures !Contains(l, blocks[i].tag) {
      SpaceIsFree(l, blocks[i].tag);
    }
    PutFree(l, blocks);
  }

  /** Blank lines stay as they are. */
  lemma {:induction false} PutBlank(lines: seq<Line>, blocks: seq<Block>)
    requires GoodAll(blocks) && AllOneLine(lines) && Kept(lines) == []
    ensures Put(lines, blocks) == lines
  {
    if lines == [] {
      PutNothing(blocks);
    } else {
      var l, rest := lines[0], lines[1..];
      StripEmpty(l);
      PutSpace(l, blocks);
      PutBlank(rest, blocks);
      assert lines == [l] + rest;
      PutConcat([l], rest, blocks);
    }
  }

  lemma {:induction false} PutNothing(blocks: seq<Block>)
    requires Tagged(blocks)
    ensures Put([], blocks) == []
    decreases |blocks|
  {
    if blocks != [] {
      PutNothing(blocks[1..]);
    }
  }

  // ----- no line is lost

  /** A text has no line that is kept exactly when it is white space. */
  lemma {:induction false} KeptNone(s: string)
    ensures Kept(Lines(s)) == [] <==> AllSpace(s)
  {
    if s == "" {
      KeptOne("");
    } else {
      var rest := Lines(s[1..]);
      KeptNone(s[1..]);
      SpaceStep(s);
      StripEmpty(rest[0]);
      if s[0] == '\n' {
        assert Lines(s)[0] == "" && Lines(s)[1..] == rest;
      } else {
        var first := [s[0]] + rest[0];
        assert Lines(s)[0] == first && Lines(s)[1..] == rest[1..];
        StripEmpty(first);
        SpaceStep(first);
        assert first[1..] == rest[0];
      }
    }
  }

  lemma SpaceStep(s: string)
    requires s != ""
    ensures AllSpace(s) <==> IsSpace(s[0]) && AllSpace(s[1..])
  {
    assert forall i :: 0 < i < |s| ==> s[i] == s[1..][i - 1];
  }

  lemma SpaceConcat(a: string, b: string)
    ensures AllSpace(a + b) <==> AllSpace(a) && AllSpace(b)
  {
    assert forall i :: 0 <= i < |a| ==> (a + b)[i] == a[i];
    assert forall i :: 0 <= i < |b| ==> (a + b)[|a| + i] == b[i];
  }

  lemma {:induction false} ReplaceSpace(s: string, pat: string, rep: string)
    requires pat != "" && !AllSpace(pat) && !AllSpace(rep)
    ensures AllSpace(Replace(s, pat, rep)) <==> AllSpace(s)
    decreases |s|
  {
    if |s| >= |pat| {
      if s[..|pat|] == pat {
        SpaceConcat(rep, Replace(s[|pat|..], pat, rep));
        assert s == pat + s[|pat|..];
        SpaceConcat(pat, s[|pat|..]);
      } else {
        ReplaceSpace(s[1..], pat, rep);
        SpaceStep(s);
        SpaceStep([s[0]] + Replace(s[1..], pat, rep));
      }
    }
  }

  lemma BlockNotSpace(b: Block)
    requires Good(b)
    ensures !AllSpace(b.tag) && !AllSpace(BlockText(b.lines)) && b.lines != [] && !AllSpace(b.lines[0])
  {
    assert b.tag[0] == '-';
    var l := b.lines[0];
    assert IsComment(l);
    StripEmpty(l);
    var i :| 0 <= i < |l| && !IsSpace(l[i]);
    assert BlockText(b.lines)[i] == l[i];
  }

  lemma GrowsOne(l: Line, b: Block)
    requires Good(b)
    ensures |Kept(ReplaceIn([l], b))| >= |KeptLine(l)|
  {
    BlockNotSpace(b);
    ReplaceInOne(l, b);
    ReplaceSpace(l, b.tag, BlockText(b.lines));
    KeptNone(Replace(l, b.tag, BlockText(b.lines)));
    StripEmpty(l);
  }

  lemma {:induction false} Grows(lines: seq<Line>, b: Block)
    requires Good(b)
    ensures |Kept(ReplaceIn(lines, b))| >= |Kept(lines)|
  {
    if lines != [] {
      Grows(lines[1..], b);
      GrowsOne(lines[0], b);
      ReplaceInOne(lines[0], b);
      KeptConcat(ReplaceIn([lines[0]], b), ReplaceIn(lines[1..], b));
    }
  }

  /** Putting blocks back makes no fewer lines. */
  lemma {:induction false} PutGrows(lines: seq<Line>, blocks: seq<Block>)
    requires GoodAll(blocks)
    ensures |Kept(Put(lines, blocks))| >= |Kept(lines)|
    decreases |blocks|
  {
    if blocks != [] {
      Grows(lines, blocks[0]);
      PutGrows(ReplaceIn(lines, blocks[0]), blocks[1..]);
    }
  }

  // ----- a line with a placeholder

  lemma ReplaceAt(a: string, tag: string, r: string, rep: string)
    requires tag != "" && NoMatch(a + (tag + r), |a|, tag)
    ensures Replace(a + (tag + r), tag, rep) == a + (rep + Replace(r, tag, rep))
  {
    var s := a + (tag + r);
    ReplaceSkips(s, |a|, tag, rep);
    assert s[..|a|] == a && s[|a|..] == tag + r;
    ReplaceFront(tag, r, rep);
  }

  lemma JoinBehind(a: string, first: Line, more: seq<Line>)
    ensures Join([a + first] + more) == a + Join([first] + more)
  {
    assert ([a + first] + more)[1..] == more && ([first] + more)[1..] == more;
    assert more != [] ==> (a + first) + ("\n" + Join(more)) == a + (first + ("\n" + Join(more)));
  }

  lemma BlockBefore(chunk: seq<Line>, r: string)
    requires chunk != []
    ensures Join(chunk + Lines(r)) == BlockText(chunk) + r
  {
    JoinConcat(chunk, Lines(r));
    JoinLines(r);
    assert Join(chunk) + ("\n" + r) == Join(chunk) + "\n" + r;
  }

  lemma FirstOff<T>(lines: seq<T>, more: seq<T>)
    requires lines != []
    ensures lines + more == [lines[0]] + (lines[1..] + more)
  {
  }

  lemma TailsJoin<T>(first: T, more: seq<T>, t: seq<T>)
    ensures [first] + more + t == [first] + (more + t)
  {
  }

  /** A block in a line: its first line comes behind what is before it, what follows it on a line of its own. */
  lemma LinesWithBlock(a: string, chunk: seq<Line>, r: string)
    requires OneLine(a) && chunk != [] && AllOneLine(chunk)
    ensures Lines(a + (BlockText(chunk) + r)) == [a + chunk[0]] + chunk[1..] + Lines(r)
  {
    var more := chunk[1..] + Lines(r);
    BlockBefore(chunk, r);
    FirstOff(chunk, Lines(r));
    JoinBehind(a, chunk[0], more);
    LinesJoin([a + chunk[0]] + more);
    TailsJoin(a + chunk[0], chunk[1..], Lines(r));
  }

  lemma KeptSolid(chunk: seq<Line>)
    requires forall l :: l in chunk ==> Strip(l) != []
    ensures |Kept(chunk)| == |chunk|
  {
    if chunk != [] {
      KeptSolid(chunk[1..]);
    }
  }

  lemma OneKept(first: Line, chunk: seq<Line>, r: string)
    requires Strip(first) != [] && IsSolid(chunk)
    requires |Kept([first] + chunk[1..] + Lines(r))| <= 1
    ensures |chunk| == 1 && AllSpace(r)
  {
    KeptConcat([first] + chunk[1..], Lines(r));
    KeptConcat([first], chunk[1..]);
    KeptOne(first);
    KeptSolid(chunk[1..]);
    KeptNone(r);
  }

  lemma NotSpaceBehind(a: string, c: string)
    requires !AllSpace(c)
    ensures Strip(a + c) != []
  {
    SpaceConcat(a, c);
    StripEmpty(a + c);
  }

  /** The text `a` is all that comes before the first placeholder of the line, and `r` all behind it. */
  predicate FirstAt(l: Line, a: string, tag: string, r: string) {
    OneLine(a) && !Contains(a, tag) && l == a + (tag + r) && NoMatch(l, |a|, tag)
  }

  /** The first placeholder of a line. */
  lemma FirstTag(l: Line, tag: string) returns (a: string, r: string)
    requires tag != "" && OneLine(l) && Contains(l, tag)
    ensures FirstAt(l, a, tag, r)
  {
    var h :| 0 <= h <= |l| && StartsWith(l[h..], tag);
    var n := FirstPlace(l, tag, h);
    var rest := l[n..];
    a, r := l[..n], rest[|tag|..];
    assert rest == tag + r && l == a + rest;
    NoMatchInFront(l, n, tag);
  }

  /** What becomes of a line with a placeholder before white space, if the block has one line. */
  lemma HitAt(l: Line, a: string, r: string, b: Block)
    requires Good(b) && FirstAt(l, a, b.tag, r) && AllSpace(r) && |b.lines| == 1
    ensures ReplaceIn([l], b) == [a + b.lines[0]] + Lines(r) && Kept(Lines(r)) == []
  {
    var block := BlockText(b.lines);
    ReplaceInOne(l, b);
    ReplaceAt(a, b.tag, r, block);
    SpaceIsFree(r, b.tag);
    ReplaceAbsent(r, b.tag, block);
    LinesWithBlock(a, b.lines, r);
    OnlyLine(a + b.lines[0], b.lines);
    KeptNone(r);
  }

  lemma OnlyLine<T>(first: T, lines: seq<T>)
    requires |lines| == 1
    ensures [first] + lines[1..] == [first]
  {
  }

  /** If only one line is kept, it is such a line and such a block. */
  lemma HitLine(l: Line, a: string, r: string, b: Block)
    requires Good(b) && FirstAt(l, a, b.tag, r) && |Kept(ReplaceIn([l], b))| <= 1
    ensures |b.lines| == 1 && AllSpace(r)
  {
    var block := BlockText(b.lines);
    var rest := Replace(r, b.tag, block);
    ReplaceInOne(l, b);
    ReplaceAt(a, b.tag, r, block);
    LinesWithBlock(a, b.lines, rest);
    BlockNotSpace(b);
    NotSpaceBehind(a, b.lines[0]);
    OneKept(a + b.lines[0], b.lines, rest);
    ReplaceSpace(r, b.tag, block);
  }

  // ----- no placeholder begins before a block and ends in it

  /** What may stand behind any text without completing a placeholder there. */
  predicate Starts(c: string) {
    |c| > 1 &&
    ((c[0] == '-' && c[1] == '-') || (IsSpace(c[0]) && (c[1] == '-' || IsSpace(c[1]))) ||
     (|c| > 2 && c[0] == '-' && IsSpace(c[1]) && (c[2] == '-' || IsSpace(c[2]))))
  }

  lemma CommentStarts(l: Line)
    requires IsComment(l)
    ensures |l| > 1 && ((l[0] == '-' && l[1] == '-') || (IsSpace(l[0]) && (l[1] == '-' || IsSpace(l[1]))))
  {
    StripIsTight(l);
    var before, after :| l == before + Strip(l) + after && AllSpace(before) && AllSpace(after);
    assert l[|before|] == Strip(l)[0] && l[|before| + 1] == Strip(l)[1];
    assert forall i :: 0 <= i < |before| ==> l[i] == before[i];
  }

  lemma NoStraddle(a: string, c: string, tag: string, p: nat)
    requires TagLike(tag) && Starts(c) && p < |a| && StartsWith((a + c)[p..], tag)
    ensures StartsWith(a[p..], tag)
  {
    var t := a + c;
    assert forall i :: p <= i < p + |tag| ==> t[i] == t[p..][..|tag|][i - p] == tag[i - p];
    assert t[|a|] == c[0] && t[|a| + 1] == c[1] && (|c| > 2 ==> t[|a| + 2] == c[2]);
    assert p + |tag| <= |a|;
    assert a[p..][..|tag|] == tag;
  }

  lemma NoMatchBefore(a: string, c: string, tag: string)
    requires TagLike(tag) && Starts(c) && !Contains(a, tag)
    ensures NoMatch(a + c, |a|, tag)
  {
    forall p | 0 <= p < |a| ensures !StartsWith((a + c)[p..], tag) {
      if StartsWith((a + c)[p..], tag) {
        NoStraddle(a, c, tag, p);
      }
    }
  }

  lemma StartsStep(c1: string, tag: string, r: string, d: Line)
    requires TagLike(tag) && Starts(c1 + (tag + r)) && IsComment(d)
    ensures Starts(c1 + d)
  {
    CommentStarts(d);
    var c, e := c1 + (tag + r), c1 + d;
    assert c[0] == (if c1 == "" then tag[0] else c1[0]) && c[1] == if |c1| > 1 then c1[1] else (tag + r)[1 - |c1|];
    assert |c1| > 2 ==> c[2] == c1[2] == e[2];
    if c1 == "" {
      assert e == d;
    } else if |c1| == 1 {
      assert e[0] == c1[0] && e[1] == d[0] && e[2] == d[1];
    } else {
      assert e[0] == c1[0] && e[1] == c1[1] && (|c1| == 2 ==> c[2] == tag[0] && e[2] == d[0]);
    }
  }

  // ----- what stands before a line that only one line is kept of

  /** One block: the text before the line contains no placeholder and stays before what becomes of the line. */
  lemma PrefixStep(a: string, c: string, b: Block) returns (next: Line, tail: seq<Line>)
    requires Good(b) && OneLine(a) && OneLine(c) && Starts(c) && !AllSpace(c)
    requires |Kept(ReplaceIn([a + c], b))| <= 1
    ensures !Contains(a, b.tag) && OneLine(next) && Starts(next) && !AllSpace(next) && Kept(tail) == []
    ensures AllOneLine(tail) && ReplaceIn([a + c], b) == [a + next] + tail && ReplaceIn([c], b) == [next] + tail
  {
    PrefixIsFree(a, c, b);
    if Contains(c, b.tag) {
      var c1, r := FirstTag(c, b.tag);
      PrefixHit(a, c, c1, r, b);
      next, tail := c1 + b.lines[0], Lines(r);
    } else {
      NeitherContains(a, c, b.tag);
      ReplaceInFree(a + c, b);
      ReplaceInFree(c, b);
      next, tail := c, [];
    }
  }

  lemma NeitherContains(a: string, c: string, tag: string)
    requires TagLike(tag) && Starts(c) && !Contains(a, tag) && !Contains(c, tag)
    ensures !Contains(a + c, tag)
  {
    NoMatchBefore(a, c, tag);
    forall p | |a| <= p <= |a + c| ensures !StartsWith((a + c)[p..], tag) {
      assert (a + c)[p..] == c[p - |a|..];
    }
  }

  lemma PrefixIsFree(a: string, c: string, b: Block)
    requires Good(b) && OneLine(a) && !AllSpace(c) && |Kept(ReplaceIn([a + c], b))| <= 1
    ensures !Contains(a, b.tag)
  {
    if Contains(a, b.tag) {
      var a1, a2 := FirstTag(a, b.tag);
      LongerLine(a, a1, a2, c, b.tag);
      HitLine(a + c, a1, a2 + c, b);
      SpaceConcat(a2, c);
    }
  }

  lemma LongerLine(l: Line, a: string, r: string, c: string, tag: string)
    requires TagLike(tag) && FirstAt(l, a, tag, r)
    ensures FirstAt(l + c, a, tag, r + c)
  {
    assert l + c == a + (tag + (r + c));
    NoMatchBefore(a, tag + (r + c), tag);
  }

  lemma NoMatchFurther(a: string, c: string, n: nat, tag: string)
    requires n <= |c| && NoMatch(a + c, |a|, tag) && NoMatch(c, n, tag)
    ensures NoMatch(a + c, |a| + n, tag)
  {
    forall p | |a| <= p < |a| + n ensures !StartsWith((a + c)[p..], tag) {
      assert (a + c)[p..] == c[p - |a|..];
    }
  }

  lemma BehindFirst(a: string, c: Line, c1: string, r: string, tag: string)
    requires TagLike(tag) && OneLine(a) && Starts(c) && !Contains(a, tag) && FirstAt(c, c1, tag, r)
    ensures FirstAt(a + c, a + c1, tag, r)
  {
    NoMatchBefore(a, c, tag);
    NoMatchFurther(a, c, |c1|, tag);
    Joins(a, c1, tag + r);
    NoMatchInFront(a + c, |a + c1|, tag);
    assert (a + c)[..|a + c1|] == a + c1;
  }

  lemma PrefixHit(a: string, c: Line, c1: string, r: string, b: Block)
    requires Good(b) && OneLine(a) && OneLine(c) && Starts(c) && !Contains(a, b.tag) && FirstAt(c, c1, b.tag, r)
    requires |Kept(ReplaceIn([a + c], b))| <= 1
    ensures ReplaceIn([a + c], b) == [a + (c1 + b.lines[0])] + Lines(r)
    ensures ReplaceIn([c], b) == [c1 + b.lines[0]] + Lines(r)
    ensures Kept(Lines(r)) == [] && OneLine(c1 + b.lines[0]) && Starts(c1 + b.lines[0]) && !AllSpace(c1 + b.lines[0])
  {
    var d := b.lines[0];
    BehindFirst(a, c, c1, r, b.tag);
    HitLine(a + c, a + c1, r, b);
    HitAt(a + c, a + c1, r, b);
    HitAt(c, c1, r, b);
    Joins(a, c1, d);
    BlockNotSpace(b);
    SpaceConcat(c1, d);
    assert IsComment(d);
    StartsStep(c1, b.tag, r, d);
  }

  lemma PutTail(l: Line, tail: seq<Line>, blocks: seq<Block>)
    requires GoodAll(blocks) && AllOneLine(tail) && Kept(tail) == []
    ensures Put([l] + tail, blocks) == Put([l], blocks) + tail
    ensures Kept(Put([l] + tail, blocks)) == Kept(Put([l], blocks))
  {
    PutConcat([l], tail, blocks);
    PutBlank(tail, blocks);
    KeptConcat(Put([l], blocks), tail);
  }

  lemma PrefixJoin(first: Line, put: seq<Line>, more: seq<Line>, t: seq<Line>)
    requires put == [first] + more && Kept(more) == [] && Kept(t) == []
    ensures put + t == [first] + (more + t) && Kept(more + t) == []
  {
    KeptConcat(more, t);
    TailsJoin(first, more, t);
  }

  /** All blocks. */
  lemma {:induction false} PrefixPut(a: string, c: string, blocks: seq<Block>) returns (x: Line, tail: seq<Line>)
    requires GoodAll(blocks) && OneLine(a) && OneLine(c) && Starts(c) && !AllSpace(c)
    requires |Kept(Put([a + c], blocks))| <= 1
    ensures NoneIn(a, blocks) && Put([a + c], blocks) == [a + x] + tail && Put([c], blocks) == [x] + tail
    ensures Kept(tail) == [] && !AllSpace(x)
    decreases |blocks|
  {
    if blocks == [] {
      x, tail := c, [];
    } else {
      var b, rest := blocks[0], blocks[1..];
      RestGood(blocks);
      PutGrows(ReplaceIn([a + c], b), rest);
      var next, t := PrefixStep(a, c, b);
      PutTail(a + next, t, rest);
      PutTail(next, t, rest);
      var more;
      x, more := PrefixPut(a, next, rest);
      tail := more + t;
      PrefixJoin(a + x, Put([a + next], rest), more, t);
      PrefixJoin(x, Put([next], rest), more, t);
      NoneInStep(a, blocks);
    }
  }

  // ----- exactly when a line comes back

  predicate Back(l: Line, blocks: seq<Block>)
    requires Tagged(blocks)
  {
    Kept(Put([l], blocks)) == KeptLine(l)
  }

  /** Every line of a block comes back, through the blocks that are put back after it. */
  predicate BlocksBack(blocks: seq<Block>)
    requires Tagged(blocks)
  {
    forall i :: 0 <= i < |blocks| ==> LinesBack(blocks[i].lines, blocks[i + 1..])
  }

  predicate LinesBack(lines: seq<Line>, blocks: seq<Block>)
    requires Tagged(blocks)
  {
    forall i :: 0 <= i < |lines| ==> Back(lines[i], blocks)
  }

  /**
   * The line does not contain the placeholder, or the block is nothing but that very placeholder and the line contains
   * it once, at its end; no space may come before it in the block unless nothing does in the line.
   */
  predicate Harmless(l: Line, b: Block) {
    Contains(l, b.tag) ==> |b.lines| == 1 && Strip(b.lines[0]) == b.tag && AtEnd(Strip(l), b)
  }

  predicate AtEnd(s: string, b: Block)
    requires |b.lines| == 1
  {
    var n := |s| - |b.tag|;
    n >= 0 && s[n..] == b.tag && !Contains(s[..n], b.tag) && (n == 0 || RStrip(b.lines[0]) == b.tag)
  }

  predicate HarmlessAll(l: Line, blocks: seq<Block>) {
    forall i :: 0 <= i < |blocks| ==> Harmless(l, blocks[i])
  }

  lemma StripBehind(a: string, x: string)
    requires !AllSpace(x)
    ensures Strip(a + x) == if LStrip(a) == "" then Strip(x) else LStrip(a) + RStrip(x)
    ensures RStrip(x) != ""
  {
    RStripEmpty(x);
    LStripConcat(a, x);
    RStripConcat(LStrip(a), x);
  }

  lemma RStripEmpty(x: string)
    ensures RStrip(x) == "" ==> AllSpace(x)
  {
    RStripCuts(x);
  }

  lemma CutFront(u: string, x: string, y: string)
    requires u + x == u + y
    ensures x == y
  {
    assert x == (u + x)[|u|..] && y == (u + y)[|u|..];
  }

  lemma StripTag(a: string, tag: string)
    requires TagLike(tag)
    ensures Strip(a + tag) == LStrip(a) + tag
  {
    assert tag[0] == '-';
    TagLikeEnds(tag);
    StripBehind(a, tag);
    assert LStrip(a) == "" ==> LStrip(a) + tag == tag;
  }

  /** A text is equal up to white space after its end has been exchanged, so its ends were. */
  lemma EndsEqual(a: string, x: string, tag: string)
    requires TagLike(tag) && !AllSpace(x) && Strip(a + x) == Strip(a + tag)
    ensures Strip(x) == tag && (LStrip(a) != "" ==> RStrip(x) == tag)
  {
    StripTag(a, tag);
    StripBehind(a, x);
    if LStrip(a) == "" {
      assert LStrip(a) + tag == tag;
    } else {
      CutFront(LStrip(a), RStrip(x), tag);
      StripAfterStrip(x);
      TagLikeEnds(tag);
    }
  }

  lemma StripBefore(a: string, r: string)
    requires AllSpace(r)
    ensures Strip(a + r) == Strip(a)
  {
    LStripBlank(r);
    RStripConcat(a, r);
    StripAfterStrip(a + r);
    StripAfterStrip(a);
  }

  /** A placeholder is in a line exactly when it is in the stripped line. */
  lemma StripContains(l: Line, tag: string)
    requires TagLike(tag)
    ensures Contains(Strip(l), tag) <==> Contains(l, tag)
  {
    StripIsTight(l);
    var before, after :| l == before + Strip(l) + after && AllSpace(before) && AllSpace(after);
    var a, b := |before|, |before| + |Strip(l)|;
    assert l[a..b] == Strip(l);
    FreePart(l, a, b, tag);
    if p :| 0 <= p <= |l| && StartsWith(l[p..], tag) {
      TagWithin(l, a, b, tag, p);
    }
  }

  lemma TagWithin(l: Line, a: nat, b: nat, tag: string, p: nat)
    requires TagLike(tag) && a <= b <= |l| && AllSpace(l[..a]) && AllSpace(l[b..])
    requires p <= |l| && StartsWith(l[p..], tag)
    ensures Contains(l[a..b], tag)
  {
    assert forall i :: p <= i < p + |tag| ==> l[i] == l[p..][..|tag|][i - p] == tag[i - p];
    assert forall i :: 0 <= i < a ==> IsSpace(l[..a][i]) && l[..a][i] == l[i];
    assert forall i :: b <= i < |l| ==> IsSpace(l[b..][i - b]) && l[b..][i - b] == l[i];
    assert l[p] == tag[0] && l[p + |tag| - 1] == tag[|tag| - 1];
    assert a <= p && p + |tag| <= b;
    assert l[a..b][p - a..][..|tag|] == tag;
  }

  lemma TagStarts(tag: string, r: string)
    requires TagLike(tag)
    ensures Starts(tag) && Starts(tag + r)
  {
  }

  /** A line that ends in one placeholder contains no other if what is before that does not. */
  lemma NoOther(a: string, tag: string, r: string, q: string)
    requires TagLike(tag) && TagLike(q) && AllSpace(r) && !Contains(a, q) && !Contains(tag, q)
    ensures !Contains(a + (tag + r), q)
  {
    TagStarts(tag, r);
    NeitherContains(a, tag, q);
    Joins(a, tag, r);
    StripBefore(a + tag, r);
    StripContains(a + tag, q);
    StripContains(a + (tag + r), q);
  }

  /** A block that is nothing but its placeholder contains no other one. */
  lemma TagLineFree(c: Line, tag: string, q: string)
    requires TagLike(q) && Strip(c) == tag && !Contains(tag, q)
    ensures !Contains(c, q)
  {
    StripContains(c, q);
  }

  lemma PutTagLine(c: Line, tag: string, blocks: seq<Block>)
    requires GoodAll(blocks) && OneLine(c) && Strip(c) == tag
    requires NoneIn(tag, blocks)
    ensures Put([c], blocks) == [c]
  {
    forall i | 0 <= i < |blocks| ensures !Contains(c, blocks[i].tag) {
      TagLineFree(c, tag, blocks[i].tag);
    }
    PutFree(c, blocks);
  }

  lemma RestGood(blocks: seq<Block>)
    requires GoodAll(blocks) && blocks != []
    ensures GoodAll(blocks[1..]) && Good(blocks[0])
    ensures NoneIn(blocks[0].tag, blocks[1..])
  {
    forall i | 0 <= i < |blocks| - 1 ensures blocks[1..][i] == blocks[i + 1] {
    }
  }

  lemma AtEndOf(a: string, b: Block)
    requires TagLike(b.tag) && |b.lines| == 1 && !Contains(a, b.tag)
    requires LStrip(a) != "" ==> RStrip(b.lines[0]) == b.tag
    ensures AtEnd(LStrip(a) + b.tag, b)
  {
    var u := LStrip(a);
    var n := LStripCuts(a);
    var s := u + b.tag;
    assert s[|u|..] == b.tag && s[..|u|] == u;
    FreePart(a, n, |a|, b.tag);
    assert a[n..|a|] == a[n..];
  }

  lemma FirstKept(x: Line, tail: seq<Line>)
    requires Kept(tail) == []
    ensures Kept([x] + tail) == KeptLine(x)
  {
    KeptConcat([x], tail);
    KeptOne(x);
  }

  lemma FirstComesBack(a: string, c: Line, want: string, blocks: seq<Block>) returns (x: Line)
    requires GoodAll(blocks) && OneLine(a) && OneLine(c) && IsComment(c) && Back(c, blocks)
    requires Kept(Put([a + c], blocks)) == if want == [] then [] else [want]
    ensures !AllSpace(x) && Strip(x) == Strip(c) && Strip(a + x) == want
    ensures Put([c], blocks) == [c] ==> x == c
    ensures NoneIn(a, blocks)
  {
    CommentStarts(c);
    StripEmpty(c);
    var tail;
    x, tail := PrefixPut(a, c, blocks);
    FirstKept(a + x, tail);
    FirstKept(x, tail);
    StripEmpty(x);
    NotSpaceBehind(a, x);
  }

  /** One block: the line comes back only if what is put into the place of the placeholder does. */
  lemma HitStep(l: Line, a: string, r: string, blocks: seq<Block>)
    requires GoodAll(blocks) && blocks != [] && OneLine(l) && FirstAt(l, a, blocks[0].tag, r) && Back(l, blocks)
    ensures |blocks[0].lines| == 1 && AllSpace(r)
    ensures Kept(Put([a + blocks[0].lines[0]], blocks[1..])) == KeptLine(l)
  {
    var b, rest := blocks[0], blocks[1..];
    RestGood(blocks);
    PutGrows(ReplaceIn([l], b), rest);
    HitLine(l, a, r, b);
    HitAt(l, a, r, b);
    PutTail(a + b.lines[0], Lines(r), rest);
  }

  /** A line with the placeholder of the first block comes back: so that block is nothing but the placeholder. */
  lemma HitComesBack(l: Line, a: string, r: string, blocks: seq<Block>)
    requires GoodAll(blocks) && blocks != [] && OneLine(l) && FirstAt(l, a, blocks[0].tag, r) && Back(l, blocks)
    requires LinesBack(blocks[0].lines, blocks[1..])
    ensures Harmless(l, blocks[0]) && forall i :: 0 < i < |blocks| ==> !Contains(l, blocks[i].tag)
  {
    var b, rest := blocks[0], blocks[1..];
    RestGood(blocks);
    HitStep(l, a, r, blocks);
    var c := b.lines[0];
    assert IsComment(c);
    var x := FirstComesBack(a, c, Strip(l), rest);
    Joins(a, b.tag, r);
    StripBefore(a + b.tag, r);
    EndsEqual(a, x, b.tag);
    PutTagLine(c, b.tag, rest);
    StripTag(a, b.tag);
    AtEndOf(a, b);
    forall i | 0 < i < |blocks| ensures !Contains(l, blocks[i].tag) {
      assert rest[i - 1] == blocks[i];
      NoOther(a, b.tag, r, blocks[i].tag);
    }
  }

  lemma BlocksBackRest(blocks: seq<Block>)
    requires Tagged(blocks) && blocks != [] && BlocksBack(blocks)
    ensures BlocksBack(blocks[1..]) && LinesBack(blocks[0].lines, blocks[1..])
  {
    var rest := blocks[1..];
    assert LinesBack(blocks[0].lines, blocks[0 + 1..]);
    forall i | 0 <= i < |rest| ensures LinesBack(rest[i].lines, rest[i + 1..]) {
      assert rest[i + 1..] == blocks[i + 1 + 1..] && LinesBack(blocks[i + 1].lines, blocks[i + 1 + 1..]);
    }
  }

  lemma HarmlessStep(l: Line, blocks: seq<Block>)
    requires blocks != []
    ensures HarmlessAll(l, blocks) <==> Harmless(l, blocks[0]) && HarmlessAll(l, blocks[1..])
  {
    assert forall i :: 0 < i < |blocks| ==> blocks[i] == blocks[1..][i - 1];
  }

  /** Only harmless placeholders are in a line that comes back, if the blocks themselves come back. */
  lemma {:induction false} BackIsHarmless(l: Line, blocks: seq<Block>)
    requires GoodAll(blocks) && OneLine(l) && BlocksBack(blocks) && Back(l, blocks)
    ensures HarmlessAll(l, blocks)
    decreases |blocks|
  {
    if blocks != [] {
      RestGood(blocks);
      BlocksBackRest(blocks);
      var b := blocks[0];
      if Contains(l, b.tag) {
        var a, r := FirstTag(l, b.tag);
        HitComesBack(l, a, r, blocks);
      } else {
        ReplaceInFree(l, b);
        BackIsHarmless(l, blocks[1..]);
        HarmlessStep(l, blocks);
      }
    }
  }

  lemma TagFromEnd(s: string, tag: string, q: string)
    requires |s| >= |tag| && |s| >= |q| && s[|s| - |tag|..] == tag && s[|s| - |q|..] == q
    ensures Contains(tag, q) || Contains(q, tag)
  {
    if |tag| >= |q| {
      assert tag[|tag| - |q|..] == q && StartsWith(tag[|tag| - |q|..], q);
    } else {
      assert q[|q| - |tag|..] == tag && StartsWith(q[|q| - |tag|..], tag);
    }
  }

  /** A harmless placeholder stands at the end of the line, with none before it. */
  lemma HarmlessEnds(l: Line, b: Block) returns (a: string, r: string)
    requires Good(b) && OneLine(l) && Contains(l, b.tag) && Harmless(l, b)
    ensures FirstAt(l, a, b.tag, r) && AllSpace(r) && (LStrip(a) == "" || RStrip(b.lines[0]) == b.tag)
  {
    var before, after := Around(l);
    var u := Strip(l)[..|Strip(l)| - |b.tag|];
    a, r := before + u, after;
    LineOf(l, before, u, b.tag, after);
    EndsAfter(before, u, b.tag, after);
    EmptyAfterSpace(before, u);
  }

  lemma Around(l: Line) returns (before: string, after: string)
    ensures l == before + Strip(l) + after && AllSpace(before) && AllSpace(after)
  {
    StripIsTight(l);
    before, after :| l == before + Strip(l) + after && AllSpace(before) && AllSpace(after);
  }

  lemma EmptyAfterSpace(before: string, u: string)
    requires AllSpace(before)
    ensures u == "" ==> LStrip(before + u) == ""
  {
    LStripBlank(before);
    LStripConcat(before, u);
  }

  lemma EndsAfter(before: string, u: string, tag: string, after: string)
    requires TagLike(tag) && AllSpace(before) && !Contains(u, tag)
    ensures !Contains(before + u, tag) && NoMatch((before + u) + (tag + after), |before + u|, tag)
  {
    SpaceThenFree(before, u, tag);
    TagStarts(tag, after);
    NoMatchBefore(before + u, tag + after, tag);
  }

  lemma LineOf(l: Line, before: string, u: string, tag: string, after: string)
    requires OneLine(l) && l == before + Strip(l) + after && |Strip(l)| == |u| + |tag|
    requires Strip(l)[..|u|] == u && Strip(l)[|u|..] == tag
    ensures l == (before + u) + (tag + after) && OneLine(before + u)
  {
    assert Strip(l) == u + tag;
    Joins(before, u, tag);
    Joins(before + u, tag, after);
    assert forall i :: 0 <= i < |before + u| ==> (before + u)[i] == l[i];
  }

  lemma SpaceNoTag(s: string, p: nat, tag: string)
    requires TagLike(tag) && p < |s| && IsSpace(s[p])
    ensures !StartsWith(s[p..], tag)
  {
    assert |s[p..]| >= |tag| ==> s[p..][..|tag|][0] == s[p];
  }

  lemma SpaceThenFree(before: string, u: string, tag: string)
    requires TagLike(tag) && AllSpace(before) && !Contains(u, tag)
    ensures !Contains(before + u, tag)
  {
    var s := before + u;
    forall p | 0 <= p <= |s| ensures !StartsWith(s[p..], tag) {
      if p < |before| {
        SpaceNoTag(s, p, tag);
      } else {
        assert s[p..] == u[p - |before|..];
      }
    }
  }

  /** The line with the block in the place of its placeholder is the same up to white space. */
  lemma SameLine(l: Line, a: string, r: string, c: Line, tag: string)
    requires TagLike(tag) && l == a + (tag + r) && AllSpace(r)
    requires Strip(c) == tag && (LStrip(a) == "" || RStrip(c) == tag)
    ensures Strip(a + c) == Strip(l)
  {
    StripEmpty(c);
    StripBehind(a, c);
    StripTag(a, tag);
    Joins(a, tag, r);
    StripBefore(a + tag, r);
    assert LStrip(a) == "" ==> LStrip(a) + tag == tag;
  }

  /** Replacing a harmless placeholder leaves the line as it is, up to white space. */
  lemma {:induction false} HarmlessIsBack(l: Line, blocks: seq<Block>)
    requires GoodAll(blocks) && OneLine(l) && HarmlessAll(l, blocks)
    ensures Back(l, blocks)
    decreases |blocks|
  {
    if blocks == [] {
      KeptOne(l);
    } else {
      RestGood(blocks);
      HarmlessStep(l, blocks);
      var b := blocks[0];
      if Contains(l, b.tag) {
        HarmlessHit(l, blocks);
      } else {
        ReplaceInFree(l, b);
        HarmlessIsBack(l, blocks[1..]);
      }
    }
  }

  lemma HarmlessHit(l: Line, blocks: seq<Block>)
    requires GoodAll(blocks) && blocks != [] && OneLine(l) && HarmlessAll(l, blocks) && Contains(l, blocks[0].tag)
    ensures Back(l, blocks)
  {
    var b, rest := blocks[0], blocks[1..];
    RestGood(blocks);
    var a, r := HarmlessEnds(l, b);
    HitAt(l, a, r, b);
    SameLine(l, a, r, b.lines[0], b.tag);
    SameStays(l, a + b.lines[0], blocks);
    PutTail(a + b.lines[0], Lines(r), rest);
  }

  lemma SameStays(l: Line, next: Line, blocks: seq<Block>)
    requires GoodAll(blocks) && blocks != [] && HarmlessAll(l, blocks) && Contains(l, blocks[0].tag)
    requires OneLine(next) && Strip(next) == Strip(l)
    ensures Kept(Put([next], blocks[1..])) == KeptLine(l)
  {
    var rest := blocks[1..];
    RestGood(blocks);
    forall i | 0 <= i < |rest| ensures !Contains(next, rest[i].tag) {
      OtherTagsAbsent(l, next, blocks, i + 1);
    }
    PutFree(next, rest);
    KeptOne(next);
  }

  lemma OtherTagsAbsent(l: Line, next: Line, blocks: seq<Block>, i: nat)
    requires GoodAll(blocks) && 0 < i < |blocks| && HarmlessAll(l, blocks) && Contains(l, blocks[0].tag)
    requires Strip(next) == Strip(l)
    ensures !Contains(next, blocks[i].tag)
  {
    var b, q := blocks[0], blocks[i];
    assert Good(b) && Good(q) && Harmless(l, b) && Harmless(l, q);
    StripContains(l, q.tag);
    StripContains(next, q.tag);
    if Contains(l, q.tag) {
      TagFromEnd(Strip(l), b.tag, q.tag);
    }
  }

  // ----- many lines

  lemma PartsEqual<T>(a: seq<T>, b: seq<T>, c: seq<T>, d: seq<T>)
    requires |a| >= |b| && |c| >= |d|
    ensures a + c == b + d <==> a == b && c == d
  {
    if a + c == b + d {
      assert |a + c| == |b + d|;
      assert a == (a + c)[..|a|] && b == (b + d)[..|b|];
      assert c == (a + c)[|a|..] && d == (b + d)[|b|..];
    }
  }

  /** As no line is lost, lines come back exactly when each does. */
  lemma {:induction false} LinesBackKept(lines: seq<Line>, blocks: seq<Block>)
    requires GoodAll(blocks)
    ensures Kept(Put(lines, blocks)) == Kept(lines) <==> LinesBack(lines, blocks)
  {
    if lines == [] {
      PutNothing(blocks);
    } else {
      var l, rest := lines[0], lines[1..];
      LinesBackKept(rest, blocks);
      assert lines == [l] + rest;
      PutConcat([l], rest, blocks);
      KeptConcat(Put([l], blocks), Put(rest, blocks));
      PutGrows([l], blocks);
      KeptOne(l);
      PutGrows(rest, blocks);
      PartsEqual(Kept(Put([l], blocks)), KeptLine(l), Kept(Put(rest, blocks)), Kept(rest));
      LinesBackStep(lines, blocks);
    }
  }

  lemma LinesBackStep(lines: seq<Line>, blocks: seq<Block>)
    requires Tagged(blocks) && lines != []
    ensures LinesBack(lines, blocks) <==> Back(lines[0], blocks) && LinesBack(lines[1..], blocks)
  {
    assert forall i :: 0 < i < |lines| ==> lines[i] == lines[1..][i - 1];
  }

  /** What becomes of the placeholder of block `i` is what the blocks after it make of its lines. */
  lemma {:induction false} PutTag(blocks: seq<Block>, i: nat)
    requires GoodAll(blocks) && i < |blocks|
    ensures Kept(Put([blocks[i].tag], blocks)) == Kept(Put(blocks[i].lines, blocks[i + 1..]))
    decreases i
  {
    var tag, rest := blocks[i].tag, blocks[1..];
    RestGood(blocks);
    TagLikeEnds(tag);
    if i == 0 {
      ReplaceInTag(blocks[0]);
      PutConcat(blocks[0].lines, [""], rest);
      PutSpace("", rest);
      KeptConcat(Put(blocks[0].lines, rest), [""]);
      KeptOne("");
    } else {
      assert !Contains(blocks[i].tag, blocks[0].tag);
      ReplaceInFree(tag, blocks[0]);
      assert rest[i - 1] == blocks[i] && rest[i..] == blocks[i + 1..];
      PutTag(rest, i - 1);
    }
  }

  lemma ReplaceInTag(b: Block)
    requires Good(b)
    ensures ReplaceIn([b.tag], b) == b.lines + [""]
  {
    ReplaceInOne(b.tag, b);
    assert b.tag + "" == b.tag;
    ReplaceFront(b.tag, "", BlockText(b.lines));
    assert Replace("", b.tag, BlockText(b.lines)) == "" && BlockText(b.lines) + "" == BlockText(b.lines);
    BlockLines(b.lines);
  }
}

/**
 * The comment passes of python/tools/format_sql.py over characters, as the program runs them.  A placeholder is a
 * comment line like "-- __COMMENT_BLOCK_0__", and the program puts a block back wherever that text occurs.
 */
module SqlBlocks {
  import opened Strings
  import opened SqlComments
  import opened Texts

  // ----- lines and texts

  predicate OneLine(l: string) {
    '\n' !in l
  }

  predicate AllOneLine(lines: seq<string>) {
    forall i :: 0 <= i < |lines| ==> OneLine(lines[i])
  }

  /** `'\n'.join(lines)` */
  function Join(lines: seq<string>): string {
    if lines == [] then "" else if |lines| == 1 then lines[0] else lines[0] + ("\n" + Join(lines[1..]))
  }

  /** The lines of a text. */
  function Lines(s: string): (lines: seq<string>)
    ensures lines != [] && AllOneLine(lines)
  {
    if s == "" then [""]
    else
      var rest := Lines(s[1..]);
      if s[0] == '\n' then [""] + rest else [[s[0]] + rest[0]] + rest[1..]
  }

  lemma {:induction false} LinesOfLine(l: string)
    requires OneLine(l)
    ensures Lines(l) == [l]
  {
    if l != "" {
      assert l[0] in l && l == [l[0]] + l[1..];
      LinesOfLine(l[1..]);
    }
  }

  lemma {:induction false} LinesSplit(l: string, s: string)
    requires OneLine(l)
    ensures Lines(l + ("\n" + s)) == [l] + Lines(s)
  {
    var t := l + ("\n" + s);
    if l == "" {
      assert t == "\n" + s && t[1..] == s;
    } else {
      assert l[0] in l && l == [l[0]] + l[1..];
      assert t[1..] == l[1..] + ("\n" + s);
      LinesSplit(l[1..], s);
      assert ([l[1..]] + Lines(s))[1..] == Lines(s);
    }
  }

  lemma {:induction false} LinesJoin(lines: seq<string>)
    requires lines != [] && AllOneLine(lines)
    ensures Lines(Join(lines)) == lines
  {
    if |lines| == 1 {
      LinesOfLine(lines[0]);
    } else {
      LinesJoin(lines[1..]);
      LinesSplit(lines[0], Join(lines[1..]));
    }
  }

  lemma {:induction false} JoinLines(s: string)
    ensures Join(Lines(s)) == s
  {
    if s != "" {
      JoinLines(s[1..]);
      var rest := Lines(s[1..]);
      if s[0] == '\n' {
        assert ([""] + rest)[1..] == rest;
      } else {
        assert ([[s[0]] + rest[0]] + rest[1..])[1..] == rest[1..];
        assert s == [s[0]] + s[1..];
      }
    }
  }

  lemma {:induction false} JoinConcat(a: seq<string>, b: seq<string>)
    requires a != [] && b != []
    ensures Join(a + b) == Join(a) + ("\n" + Join(b))
  {
    if |a| == 1 {
      assert (a + b)[1..] == b;
    } else {
      assert (a + b)[1..] == a[1..] + b;
      JoinConcat(a[1..], b);
    }
  }

  // ----- placeholders

  function Tag(k: nat): string {
    Numbered("-- __COMMENT_BLOCK_", k)
  }

  function Show(o: OutLine): string {
    match o
    case Plain(text) => text
    case Mark(k) => Tag(k)
  }

  function Shows(out: seq<OutLine>): (lines: seq<string>)
    ensures |lines| == |out| && forall i :: 0 <= i < |out| ==> lines[i] == Show(out[i])
  {
    seq(|out|, i requires 0 <= i < |out| => Show(out[i]))
  }

  function Text(out: seq<OutLine>): string {
    Join(Shows(out))
  }

  lemma TextFirst(out: seq<OutLine>)
    requires out != []
    ensures Text(out) == if |out| == 1 then Show(out[0]) else Show(out[0]) + ("\n" + Text(out[1..]))
  {
    assert Shows(out)[1..] == Shows(out[1..]);
  }

  lemma TextConcat(a: seq<OutLine>, b: seq<OutLine>)
    requires a != [] && b != []
    ensures Text(a + b) == Text(a) + ("\n" + Text(b))
  {
    assert Shows(a + b) == Shows(a) + Shows(b);
    JoinConcat(Shows(a), Shows(b));
  }

  /** What matters of placeholders: two dashes and a space, and neither dashes nor space behind them. */
  predicate TagLike(t: string) {
    |t| > 3 && t[0] == '-' && t[1] == '-' && t[2] == ' ' &&
    forall i :: 2 < i < |t| ==> t[i] != '-' && !IsSpace(t[i])
  }

  lemma FrontIsTagLike()
    ensures TagLike("-- __COMMENT_BLOCK_")
  {
  }

  lemma NumberedIsTagLike(front: string, k: nat)
    requires TagLike(front)
    ensures TagLike(Numbered(front, k))
  {
    var f, d, t := |front|, Decimal(k), Numbered(front, k);
    assert forall i :: 0 <= i < f ==> t[i] == front[i];
    assert forall i :: f <= i < f + |d| ==> t[i] == d[i - f];
    assert t[f + |d|] == '_' && t[f + |d| + 1] == '_';
  }

  lemma TagIsTagLike(k: nat)
    ensures TagLike(Tag(k))
  {
    FrontIsTagLike();
    NumberedIsTagLike("-- __COMMENT_BLOCK_", k);
  }

  lemma TagLikeEnds(t: string)
    requires TagLike(t)
    ensures LStrip(t) == t && RStrip(t) == t && Strip(t) == t && OneLine(t)
  {
    RStripTight(t);
  }

  lemma TagEnds(k: nat)
    ensures LStrip(Tag(k)) == Tag(k) && RStrip(Tag(k)) == Tag(k) && Strip(Tag(k)) == Tag(k) && OneLine(Tag(k))
    ensures Tag(k) != ""
  {
    TagIsTagLike(k);
    TagLikeEnds(Tag(k));
  }

  lemma BlankShow(o: OutLine)
    ensures IsBlank(o) ==> LStrip(Show(o)) == "" && RStrip(Show(o)) == ""
    ensures !IsBlank(o) ==> LStrip(Show(o)) != "" && RStrip(Show(o)) != ""
  {
    if o.Plain? {
      StripEmpty(o.text);
      if IsBlank(o) {
        LStripBlank(o.text);
      } else {
        StripAfterStrip(o.text);
        assert Strip("") == "";
      }
    } else {
      TagEnds(o.k);
    }
  }

  /** Stripping the front of the text trims the front of its lines. */
  lemma {:induction false} LStripText(out: seq<OutLine>)
    ensures LStrip(Text(out)) == Text(TrimFront(out))
  {
    if out != [] {
      var o, rest := out[0], out[1..];
      TextFirst(out);
      BlankShow(o);
      if rest != [] {
        LStripConcat(Show(o), "\n" + Text(rest));
        assert ("\n" + Text(rest))[1..] == Text(rest);
      }
      if IsBlank(o) {
        LStripText(rest);
      } else {
        TextFirst(TrimFront(out));
        if o.Mark? {
          TagEnds(o.k);
        } else {
          assert TrimFront(out)[1..] == rest;
        }
      }
    }
  }

  lemma RStripLast(a: string, b: string)
    ensures RStrip(a + ("\n" + b)) == if RStrip(b) == "" then RStrip(a) else a + ("\n" + RStrip(b))
  {
    RStripConcat(a, "\n" + b);
    assert ("\n" + b)[1..] == b;
  }

  lemma TextLast(front: seq<OutLine>, o: OutLine)
    ensures Text(front + [o]) == if front == [] then Show(o) else Text(front) + ("\n" + Show(o))
  {
    if front == [] {
      assert front + [o] == [o];
    } else {
      TextConcat(front, [o]);
    }
    TextFirst([o]);
  }

  /** Stripping the back of the text trims the back of its lines. */
  lemma {:induction false} RStripText(out: seq<OutLine>)
    ensures RStrip(Text(out)) == Text(TrimBack(out))
  {
    if out != [] {
      var n := |out| - 1;
      var front, o := out[..n], out[n];
      assert out == front + [o];
      TextLast(front, o);
      BlankShow(o);
      if front != [] {
        RStripLast(Text(front), Show(o));
      }
      if IsBlank(o) {
        RStripText(front);
      } else if o.Mark? {
        TagEnds(o.k);
      } else {
        TextLast(front, Plain(RStrip(o.text)));
      }
    }
  }

  lemma StripText(out: seq<OutLine>)
    ensures Strip(Text(out)) == Text(TrimBack(TrimFront(out)))
  {
    LStripText(out);
    RStripText(TrimFront(out));
  }

  // ----- replacing in a joined text

  /** No placeholder is part of another. */
  lemma TagsDiffer(j: nat, k: nat)
    requires Contains(Tag(j), Tag(k))
    ensures j == k
  {
    var s, t := Tag(j), Tag(k);
    TagIsTagLike(j);
    TagIsTagLike(k);
    var p := DashesAtFront(s, t);
    assert s[0..] + "" == s;
    NumbersDiffer("-- __COMMENT_BLOCK_", k, j, "");
  }

  lemma DashesAtFront(s: string, t: string) returns (p: nat)
    requires TagLike(s) && TagLike(t) && Contains(s, t)
    ensures p == 0 && StartsWith(s[p..], t)
  {
    p :| 0 <= p <= |s| && StartsWith(s[p..], t);
    assert s[p..][..|t|][0] == s[p] && s[p..][..|t|][1] == s[p + 1];
  }

  /** What the lines of the text become when one placeholder is replaced, wherever it occurs. */
  function Replaced(out: seq<OutLine>, k: nat, block: string): seq<OutLine> {
    if out == [] then []
    else
      (if out[0].Plain? || out[0] == Mark(k) then Plains(Lines(Replace(Show(out[0]), Tag(k), block))) else [out[0]]) +
      Replaced(out[1..], k, block)
  }

  lemma PlainsText(lines: seq<string>)
    ensures Text(Plains(lines)) == Join(lines)
  {
    assert Shows(Plains(lines)) == lines;
  }

  lemma ReplacedOne(o: OutLine, k: nat, block: string)
    ensures Replaced([o], k, block) != [] && Text(Replaced([o], k, block)) == Replace(Show(o), Tag(k), block)
  {
    var r := Replace(Show(o), Tag(k), block);
    assert [o][1..] == [] && Replaced([], k, block) == [];
    if o.Plain? || o == Mark(k) {
      assert Replaced([o], k, block) == Plains(Lines(r));
      PlainsText(Lines(r));
      JoinLines(r);
    } else {
      if Contains(Tag(o.k), Tag(k)) {
        TagsDiffer(o.k, k);
      }
      ReplaceAbsent(Tag(o.k), Tag(k), block);
      assert Replaced([o], k, block) == [o];
      TextFirst([o]);
    }
  }

  lemma ReplacedFirst(out: seq<OutLine>, k: nat, block: string)
    requires out != []
    ensures Replaced(out, k, block) == Replaced([out[0]], k, block) + Replaced(out[1..], k, block)
  {
    var o := out[0];
    assert [o][1..] == [] && Replaced([], k, block) == [];
    var head := if o.Plain? || o == Mark(k) then Plains(Lines(Replace(Show(o), Tag(k), block))) else [o];
    assert head + [] == head;
  }

  /** Replacing a placeholder in the text replaces it in the lines. */
  lemma {:induction false} ReplacedText(out: seq<OutLine>, k: nat, block: string)
    ensures Replace(Text(out), Tag(k), block) == Text(Replaced(out, k, block))
    ensures out != [] ==> Replaced(out, k, block) != []
  {
    if out == [] {
      assert Text(out) == "" && Replaced(out, k, block) == [];
    } else {
      TagEnds(k);
      TextFirst(out);
      ReplacedOne(out[0], k, block);
      ReplacedFirst(out, k, block);
      if |out| == 1 {
        assert Replaced(out[1..], k, block) == [];
      } else {
        ReplacedText(out[1..], k, block);
        ReplaceAcross(Show(out[0]), '\n', Text(out[1..]), Tag(k), block);
        TextConcat(Replaced([out[0]], k, block), Replaced(out[1..], k, block));
      }
    }
  }

  // ----- putting blocks back into lines that do not contain their placeholders

  /** `'\n'.join(chunk) + '\n'` */
  function BlockText(chunk: seq<Line>): string {
    Join(chunk) + "\n"
  }

  lemma BlockLines(chunk: seq<Line>)
    requires chunk != [] && AllOneLine(chunk)
    ensures Lines(BlockText(chunk)) == chunk + [""]
  {
    JoinConcat(chunk, [""]);
    assert "\n" + "" == "\n";
    LinesJoin(chunk + [""]);
  }

  predicate PlainsOneLine(out: seq<OutLine>) {
    forall i :: 0 <= i < |out| && out[i].Plain? ==> OneLine(out[i].text)
  }

  predicate PlainsFree(out: seq<OutLine>, tag: string) {
    forall i :: 0 <= i < |out| && out[i].Plain? ==> !Contains(out[i].text, tag)
  }

  predicate Free(lines: seq<Line>, tag: string) {
    forall i :: 0 <= i < |lines| ==> !Contains(lines[i], tag)
  }

  lemma EmptyIsFree(k: nat)
    ensures !Contains("", Tag(k))
  {
    TagEnds(k);
  }

  /** Where no line contains the placeholder, replacing it puts the block in the place of its mark. */
  lemma {:induction false} ReplacedIsPutBack(out: seq<OutLine>, k: nat, chunk: seq<Line>)
    requires chunk != [] && AllOneLine(chunk) && PlainsOneLine(out) && PlainsFree(out, Tag(k))
    ensures Replaced(out, k, BlockText(chunk)) == PutBack(out, k, chunk)
  {
    if out != [] {
      ReplacedIsPutBack(out[1..], k, chunk);
      TagEnds(k);
      if out[0].Plain? {
        ReplaceAbsent(out[0].text, Tag(k), BlockText(chunk));
        LinesOfLine(out[0].text);
        assert Plains([out[0].text]) == [out[0]];
      } else if out[0] == Mark(k) {
        assert Tag(k) + "" == Tag(k);
        ReplaceFront(Tag(k), "", BlockText(chunk));
        assert Replace("", Tag(k), BlockText(chunk)) == "" && BlockText(chunk) + "" == BlockText(chunk);
        BlockLines(chunk);
      }
    }
  }

  lemma {:induction false} PutBackFree(out: seq<OutLine>, k: nat, chunk: seq<Line>, q: nat)
    requires PlainsFree(out, Tag(q)) && Free(chunk, Tag(q))
    ensures PlainsFree(PutBack(out, k, chunk), Tag(q))
  {
    if out != [] {
      PutBackFree(out[1..], k, chunk, q);
      EmptyIsFree(q);
      assert PlainsFree(if out[0] == Mark(k) then Plains(chunk + [""]) else [out[0]], Tag(q));
    }
  }

  lemma {:induction false} PutBackOneLine(out: seq<OutLine>, k: nat, chunk: seq<Line>)
    requires PlainsOneLine(out) && AllOneLine(chunk)
    ensures PlainsOneLine(PutBack(out, k, chunk))
  {
    if out != [] {
      PutBackOneLine(out[1..], k, chunk);
    }
  }

  /** The lines after the blocks in `keys` have been put back, one after the other. */
  function Restored(out: seq<OutLine>, chunks: seq<seq<Line>>, keys: seq<nat>): seq<OutLine>
    requires KeysIn(chunks, keys)
    decreases |keys|
  {
    if keys == [] then out
    else Restored(Replaced(out, keys[0], BlockText(chunks[keys[0]])), chunks, keys[1..])
  }

  predicate KeysIn(chunks: seq<seq<Line>>, keys: seq<nat>) {
    forall i :: 0 <= i < |keys| ==> keys[i] < |chunks|
  }

  /** Each key once, of chunks with lines. */
  predicate Blocks(chunks: seq<seq<Line>>, keys: seq<nat>) {
    KeysIn(chunks, keys) &&
    (forall i, j :: 0 <= i < j < |keys| ==> keys[i] < keys[j]) &&
    forall i :: 0 <= i < |keys| ==> chunks[keys[i]] != [] && AllOneLine(chunks[keys[i]])
  }

  /** No block contains the placeholder of one that is put back after it. */
  predicate LaterFree(chunks: seq<seq<Line>>, keys: seq<nat>)
    requires KeysIn(chunks, keys)
  {
    forall i, j :: 0 <= i < j < |keys| ==> Free(chunks[keys[i]], Tag(keys[j]))
  }

  function Left(chunks: seq<seq<Line>>, keys: seq<nat>): map<nat, seq<Line>>
    requires KeysIn(chunks, keys)
  {
    map k | k in keys :: chunks[k]
  }

  lemma LeftRest(chunks: seq<seq<Line>>, keys: seq<nat>)
    requires Blocks(chunks, keys) && keys != []
    ensures Left(chunks, keys) - {keys[0]} == Left(chunks, keys[1..])
    ensures keys[0] in Left(chunks, keys) && Left(chunks, keys)[keys[0]] == chunks[keys[0]]
    ensures Left(chunks, keys).Keys - {keys[0]} == Left(chunks, keys[1..]).Keys
  {
    assert keys == [keys[0]] + keys[1..];
  }

  /** Putting blocks back keeps the lines, as long as no line contains a placeholder that is still to be replaced. */
  lemma {:induction false} RestoredKeeps(out: seq<OutLine>, chunks: seq<seq<Line>>, keys: seq<nat>)
    requires Blocks(chunks, keys) && LaterFree(chunks, keys)
    requires PlainsOneLine(out) && Covered(out, Left(chunks, keys).Keys)
    requires forall i :: 0 <= i < |keys| ==> PlainsFree(out, Tag(keys[i]))
    ensures var r := Restored(out, chunks, keys);
            PlainsOneLine(r) && Covered(r, {}) && KeptOut(r, map[]) == KeptOut(out, Left(chunks, keys))
    decreases |keys|
  {
    if keys == [] {
      assert Left(chunks, keys) == map[];
    } else {
      var k, rest := keys[0], keys[1..];
      var next := PutBack(out, k, chunks[k]);
      ReplacedIsPutBack(out, k, chunks[k]);
      LeftRest(chunks, keys);
      PutBackKeeps(out, Left(chunks, keys), k);
      PutBackOneLine(out, k, chunks[k]);
      forall i | 0 <= i < |rest| ensures PlainsFree(next, Tag(rest[i])) {
        assert rest[i] == keys[i + 1];
        PutBackFree(out, k, chunks[k], rest[i]);
      }
      RestoredKeeps(next, chunks, rest);
    }
  }

  /** What is kept of a text without marks. */
  lemma KeptOfText(out: seq<OutLine>)
    requires PlainsOneLine(out) && Covered(out, {})
    ensures Kept(Lines(Text(out))) == KeptOut(out, map[])
  {
    KeptText(out);
    assert Shows(out) == TextOf(out);
    if out == [] {
      assert Kept([""]) == Kept(TextOf(out)) by {
        KeptOne("");
      }
    } else {
      LinesJoin(Shows(out));
    }
  }

  // ----- parts of a text without a placeholder

  lemma NoMatchInFront(s: string, n: nat, pat: string)
    requires n <= |s| && pat != "" && NoMatch(s, n, pat)
    ensures !Contains(s[..n], pat)
  {
    forall p | 0 <= p <= n ensures !StartsWith(s[..n][p..], pat) {
      assert p + |pat| <= n ==> s[..n][p..][..|pat|] == s[p..][..|pat|];
    }
  }

  lemma FreePart(s: string, a: nat, b: nat, tag: string)
    requires a <= b <= |s|
    ensures Contains(s[a..b], tag) ==> Contains(s, tag)
  {
    if p :| 0 <= p <= b - a && StartsWith(s[a..b][p..], tag) {
      assert s[a + p..][..|tag|] == s[a..b][p..][..|tag|];
    }
  }
}

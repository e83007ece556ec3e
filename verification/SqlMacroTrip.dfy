/**
 * `preprocess_macros` and `postprocess_macros` of python/tools/format_sql.py: when taking macros out and putting them
 * back is the identity.
 */
module SqlMacroTrip {
  import opened SqlCuts
  import opened SqlMacros
  import opened SqlText
  import opened Texts

  // ----- the program

  /**
   * If the match can be cut so that its front is what a name can end in, the rest of it does not stand behind a
   * closing parenthesis.
   */
  predicate SafeMatch(sql: string, span: (nat, nat))
    requires IsMatch(sql, span)
  {
    forall e :: span.0 < e < span.1 && NameTail(sql[span.0..e]) ==> !Behind(sql, sql[e..span.1])
  }

  lemma NameEndsBefore(m: string, e: nat, i: nat)
    requires e <= |m| && AllInName(m[..e]) && i < |m| && m[i] == '('
    ensures e <= i
  {
    assert forall k :: 0 <= k < e ==> m[k] == m[..e][k];
  }

  lemma SafeMatchSafeCall(sql: string, span: (nat, nat), b: nat)
    requires IsMatch(sql, span) && SafeMatch(sql, span) && span.1 <= b <= |sql|
    ensures SafeCall(sql, sql[span.0..b])
  {
    var m := sql[span.0..b];
    forall e | 0 < e < |m| && NameTail(m[..e]) ensures !Behind(sql, m[e..]) {
      var n := span.1 - span.0;
      assert m[n - 1] == sql[span.1 - 1];
      NameEndsBefore(m, e, n - 1);
      Slices(sql, span.0, b, e, n);
      BehindPart(sql, m[e..], n - e);
    }
  }

  lemma Slices(s: string, a: nat, b: nat, e: nat, n: nat)
    requires a + n <= b <= |s| && e <= n
    ensures s[a..b][..e] == s[a..a + e] && s[a..b][e..][..n - e] == s[a + e..a + n]
  {
  }

  lemma BehindPart(sql: string, y: string, n: nat)
    requires n <= |y|
    ensures Behind(sql, y) ==> Behind(sql, y[..n])
  {
    if q :| 0 < q <= |sql| && sql[q - 1] == ')' && StartsWith(sql[q..], y) {
      assert sql[q..][..n] == sql[q..][..|y|][..n];
    }
  }

  lemma MoreCalls(macros: seq<string>)
    requires macros != [] && AllCalls(macros[..|macros| - 1]) && IsCall(macros[|macros| - 1])
    ensures AllCalls(macros)
  {
    forall k | 0 <= k < |macros| - 1 ensures IsCall(macros[k]) {
      assert macros[..|macros| - 1][k] == macros[k];
    }
  }

  /** What the matches of a text without marks open are calls. */
  lemma {:induction false} MatchesAreCalls(sql: string, matches: seq<(nat, nat)>, macros: seq<string>)
    requires forall i :: 0 <= i < |matches| ==> IsMatch(sql, matches[i])
    requires NoMark(sql) && AreCalls(sql, matches, macros)
    ensures AllCalls(macros)
    decreases |matches|
  {
    if matches != [] {
      var span := matches[|matches| - 1];
      var earlier := matches[..|matches| - 1];
      if forall b :: span.1 <= b <= |sql| ==> !ClosesAt(sql, span.1, b) {
        MatchesAreCalls(sql, earlier, macros);
      } else {
        MatchesAreCalls(sql, earlier, macros[..|macros| - 1]);
        var b :| span.1 <= b <= |sql| && ClosesAt(sql, span.1, b) && macros[|macros| - 1] == sql[span.0..b];
        ClosedIsCall(sql, span, b);
        MoreCalls(macros);
      }
    }
  }

  predicate AllSafe(sql: string, macros: seq<string>) {
    forall k :: 0 <= k < |macros| ==> SafeCall(sql, macros[k])
  }

  lemma MoreSafe(sql: string, macros: seq<string>)
    requires macros != [] && AllSafe(sql, macros[..|macros| - 1]) && SafeCall(sql, macros[|macros| - 1])
    ensures AllSafe(sql, macros)
  {
    forall k | 0 <= k < |macros| - 1 ensures SafeCall(sql, macros[k]) {
      assert macros[..|macros| - 1][k] == macros[k];
    }
  }

  lemma {:induction false} MatchesAreSafe(sql: string, matches: seq<(nat, nat)>, macros: seq<string>)
    requires forall i :: 0 <= i < |matches| ==> IsMatch(sql, matches[i]) && SafeMatch(sql, matches[i])
    requires AreCalls(sql, matches, macros)
    ensures AllSafe(sql, macros)
    decreases |matches|
  {
    if matches != [] {
      var span := matches[|matches| - 1];
      var earlier := matches[..|matches| - 1];
      if forall b :: span.1 <= b <= |sql| ==> !ClosesAt(sql, span.1, b) {
        MatchesAreSafe(sql, earlier, macros);
      } else {
        MatchesAreSafe(sql, earlier, macros[..|macros| - 1]);
        var b :| span.1 <= b <= |sql| && ClosesAt(sql, span.1, b) && macros[|macros| - 1] == sql[span.0..b];
        SafeMatchSafeCall(sql, span, b);
        MoreSafe(sql, macros);
      }
    }
  }

  /** The calls that safe matches open are safe. */
  lemma CallsAreSafe(sql: string, matches: seq<(nat, nat)>, macros: seq<string>)
    requires forall i :: 0 <= i < |matches| ==> IsMatch(sql, matches[i]) && SafeMatch(sql, matches[i])
    requires NoMark(sql) && AreCalls(sql, matches, macros)
    ensures SafeCalls(sql, macros)
  {
    MatchesAreCalls(sql, matches, macros);
    MatchesAreSafe(sql, matches, macros);
  }

  lemma ClosedIsCall(sql: string, span: (nat, nat), b: nat)
    requires NoMark(sql) && IsMatch(sql, span) && span.1 <= b <= |sql| && ClosesAt(sql, span.1, b)
    ensures IsCall(sql[span.0..b])
  {
    assert Depth(sql, span.1, span.1) == 0;
    assert 1 + Depth(sql, span.1, b - 1) > 0;
    NoMarkPart(sql, span.0, b);
  }

  // ----- texts in which all matches are safe

  predicate IsWord(c: char) {
    InName(c) || 'a' <= c <= 'z' || 'A' <= c <= 'Z'
  }

  /** A word that ends with the match of a name does not end in a bar, and no word stands behind a parenthesis. */
  predicate Spaced(sql: string, span: (nat, nat))
    requires IsMatch(sql, span)
  {
    (forall q :: 0 < q < |sql| && sql[q - 1] == ')' ==> !IsWord(sql[q])) &&
    forall e :: span.0 < e < span.1 && !IsWord(sql[e]) ==> sql[e - 1] != '_'
  }

  lemma BehindFirst(sql: string, y: string) returns (q: nat)
    requires y != "" && Behind(sql, y)
    ensures 0 < q < |sql| && sql[q - 1] == ')' && sql[q] == y[0]
  {
    q :| 0 < q <= |sql| && sql[q - 1] == ')' && StartsWith(sql[q..], y);
    assert sql[q..][..|y|][0] == sql[q];
  }

  /** However macro names begin, they are safe if no word stands right behind a parenthesis. */
  lemma SpacedIsSafe(sql: string, span: (nat, nat))
    requires IsMatch(sql, span) && Spaced(sql, span)
    ensures SafeMatch(sql, span)
  {
    forall e | span.0 < e < span.1 && NameTail(sql[span.0..e]) ensures !Behind(sql, sql[e..span.1]) {
      assert sql[e - 1] == sql[span.0..e][e - span.0 - 1];
      assert IsWord(sql[e]);
      if Behind(sql, sql[e..span.1]) {
        var q := BehindFirst(sql, sql[e..span.1]);
        assert false;
      }
    }
  }

  /** Whatever stands behind parentheses, names that neither begin with a bar nor have two in a row are safe. */
  predicate PlainMatch(sql: string, span: (nat, nat))
    requires IsMatch(sql, span)
  {
    sql[span.0] != '_' && forall k :: span.0 <= k && k + 1 < span.1 ==> !(sql[k] == '_' && sql[k + 1] == '_')
  }

  lemma PlainIsSafe(sql: string, span: (nat, nat))
    requires IsMatch(sql, span) && PlainMatch(sql, span)
    ensures SafeMatch(sql, span)
  {
    forall e | span.0 < e < span.1 ensures !NameTail(sql[span.0..e]) {
      var x := sql[span.0..e];
      assert x[0] == sql[span.0] && x[|x| - 1] == sql[e - 1];
      assert |x| > 1 ==> x[|x| - 2] == sql[e - 2];
    }
  }

  lemma {:induction false} TakeOutMore(sql: string, macros: seq<string>, m: string, n: nat)
    requires n <= |macros| && m != "" && forall k :: 0 <= k < |macros| ==> macros[k] != ""
    ensures TakeOut(sql, macros + [m], n) == TakeOut(sql, macros, n)
  {
    if n > 0 {
      TakeOutMore(sql, macros, m, n - 1);
    }
  }

  /** `preprocess_macros`, from the spans that the regular expression finds. */
  method Preprocess(sql: string, matches: seq<(nat, nat)>) returns (result: string, macros: seq<string>)
    requires forall i :: 0 <= i < |matches| ==> IsMatch(sql, matches[i])
    ensures AreCalls(sql, matches, macros)
    ensures (forall k :: 0 <= k < |macros| ==> macros[k] != "") && result == TakeOut(sql, macros, |macros|)
    // a text without marks can be put together again exactly if no macro is taken out from within a placeholder
    ensures NoMark(sql) ==> (PutBack(result, macros, |macros|) == sql <==> AllClean(sql, macros, |macros|))
  {
    result, macros := sql, [];
    for n := 0 to |matches|
      invariant AreCalls(sql, matches[..n], macros)
      invariant forall k :: 0 <= k < |macros| ==> macros[k] != ""
      invariant result == TakeOut(sql, macros, |macros|)
    {
      var (start, end) := matches[n];
      assert IsMatch(sql, matches[n]);
      var i, closed := ScanCall(sql, end);
      if closed {
        var macro := sql[start..i];
        CallAppends(sql, matches, n, macros, i);
        TakeOutMore(sql, macros, macro, |macros|);
        result := Replace(result, macro, Name(|macros|));
        macros := macros + [macro];
      } else {
        OpenCallSkipped(sql, matches, n, macros);
      }
    }
    assert matches[..|matches|] == matches;
    if NoMark(sql) {
      MatchesAreCalls(sql, matches, macros);
      ComesBackIffClean(sql, macros);
    }
  }

  /**
   * `postprocess_macros`.  If the text shows placeholders for macros of a full text without marks, it comes back,
   * whatever the formatter did to the rest.
   */
  method Postprocess(text: string, macros: seq<string>, ghost shown: Text, ghost full: string)
    returns (result: string)
    ensures result == PutBack(text, macros, |macros|)
    ensures text == Render(shown) && Expand(shown, macros) == Chars(full) && NoMark(full) ==> result == full
  {
    result := text;
    for n := 0 to |macros|
      invariant result == PutBack(text, macros, n)
    {
      result := Replace(result, Name(n), macros[n]);
    }
    if text == Render(shown) && Expand(shown, macros) == Chars(full) && NoMark(full) {
      ShownComesBack(shown, full, macros);
    }
  }

  /**
   * Taking the macros out and putting them back is the identity on an SQL text without marks exactly if no macro is
   * taken out from within a placeholder; so it is if all matches are safe.
   */
  method MacroRoundTrip(sql: string, matches: seq<(nat, nat)>) returns (result: string, ghost macros: seq<string>)
    requires forall i :: 0 <= i < |matches| ==> IsMatch(sql, matches[i])
    ensures AreCalls(sql, matches, macros) && forall k :: 0 <= k < |macros| ==> macros[k] != ""
    ensures NoMark(sql) ==> (result == sql <==> AllClean(sql, macros, |macros|))
    ensures NoMark(sql) && (forall i :: 0 <= i < |matches| ==> SafeMatch(sql, matches[i])) ==> result == sql
  {
    var text, texts := Preprocess(sql, matches);
    macros := texts;
    result := Postprocess(text, texts, [], "");
    if NoMark(sql) && forall i :: 0 <= i < |matches| ==> SafeMatch(sql, matches[i]) {
      CallsAreSafe(sql, matches, texts);
      SafeIsClean(sql, texts);
    }
  }

  // ----- without these conditions

  /** Where the first character of the pattern does not occur, nothing is replaced. */
  lemma ReplaceWithout(a: string, b: string, pat: string, rep: string)
    requires pat != "" && pat[0] !in a
    ensures Replace(a + b, pat, rep) == a + Replace(b, pat, rep)
  {
    var s := a + b;
    forall p | 0 <= p < |a| ensures !StartsWith(s[p..], pat) {
      assert s[p] == a[p] != pat[0];
      assert |s[p..]| >= |pat| ==> s[p..][..|pat|][0] == s[p];
    }
    ReplaceSkips(s, |a|, pat, rep);
    assert s[..|a|] == a && s[|a|..] == b;
  }

  lemma ReplaceOnce(a: string, pat: string, b: string, rep: string)
    requires pat != "" && pat[0] !in a && pat[0] !in b
    ensures Replace(a + (pat + b), pat, rep) == a + (rep + b)
  {
    ReplaceWithout(a, pat + b, pat, rep);
    ReplaceFront(pat, b, rep);
    ReplaceWithout(b, "", pat, rep);
    assert b + "" == b && Replace("", pat, rep) == "";
  }

  lemma NamesGlue()
    ensures Name(1) + "_macro_0__" == "__macro_1_" + Name(0)
  {
  }

  /** The second placeholder but for its last bar, which with the text behind it makes up the first. */
  lemma FakeName(rep: string)
    ensures Replace(Name(1) + "_macro_0__", Name(0), rep) == "__macro_1_" + rep
  {
    var a, s := "__macro_1_", Name(1) + "_macro_0__";
    NamesGlue();
    forall p | 0 <= p < |a| ensures !StartsWith(s[p..], Name(0)) {
      if StartsWith(s[p..], Name(0)) {
        NameInsideName(1, 0, p, "_macro_0__");
        NameStart(s[p..], 0);
        assert false;
      }
    }
    ReplaceSkips(s, |a|, Name(0), rep);
    assert s[..|a|] == a && s[|a|..] == Name(0) + "";
    ReplaceFront(Name(0), "", rep);
  }

  lemma NothingToPutBack(rep: string)
    ensures Replace("x!()__macro_1_x!()", Name(1), rep) == "x!()__macro_1_x!()"
  {
    var s := "x!()__macro_1_x!()";
    forall p | 0 <= p < |s| ensures !StartsWith(s[p..], Name(1)) {
      if StartsWith(s[p..], Name(1)) {
        NameStart(s[p..], 1);
        assert false;
      }
    }
    ReplaceSkips(s, |s|, Name(1), rep);
    assert s[..|s|] + "" == s;
  }

  lemma TakeOutTwo(x: string, y: string, tail: string)
    requires x != "" && y != "" && x[0] !in y + tail && y[0] !in Name(0) + tail
    ensures TakeOut(x + (y + tail), [x, y], 2) == Name(0) + (Name(1) + tail)
  {
    var sql, macros := x + (y + tail), [x, y];
    ReplaceOnce("", x, y + tail, Name(0));
    assert "" + sql == sql && "" + (Name(0) + (y + tail)) == Name(0) + (y + tail);
    assert TakeOut(sql, macros, 0) == sql;
    assert TakeOut(sql, macros, 1) == Name(0) + (y + tail);
    ReplaceOnce(Name(0), y, tail, Name(1));
  }

  lemma PutBackTwo(text: string, x: string, y: string)
    ensures PutBack(text, [x, y], 2) == Replace(Replace(text, Name(0), x), Name(1), y)
  {
    assert PutBack(text, [x, y], 0) == text;
    assert PutBack(text, [x, y], 1) == Replace(text, Name(0), x);
  }

  lemma FirstPutBack(x: string)
    ensures Replace(Name(0) + (Name(1) + "_macro_0__"), Name(0), x) == x + ("__macro_1_" + x)
  {
    ReplaceFront(Name(0), Name(1) + "_macro_0__", x);
    FakeName(x);
  }

  lemma SecondPutBack(y: string)
    ensures Replace("x!()" + ("__macro_1_" + "x!()"), Name(1), y) == "x!()__macro_1_x!()"
  {
    assert "x!()" + ("__macro_1_" + "x!()") == "x!()__macro_1_x!()";
    NothingToPutBack(y);
  }

  lemma TakenOutOfExample()
    ensures TakeOut("x!()" + ("y!()" + "_macro_0__"), ["x!()", "y!()"], 2) == Name(0) + (Name(1) + "_macro_0__")
  {
    assert Name(0) == "__macro_0__";
    TakeOutTwo("x!()", "y!()", "_macro_0__");
  }

  lemma PutBackOfExample(text: string)
    requires text == Name(0) + (Name(1) + "_macro_0__")
    ensures PutBack(text, ["x!()", "y!()"], 2) == "x!()__macro_1_x!()"
  {
    PutBackTwo(text, "x!()", "y!()");
    FirstPutBack("x!()");
    SecondPutBack("y!()");
  }

  /**
   * It does not help that no name occurs in the SQL: here the second placeholder and the text behind it make up the
   * first name, and the second macro is lost.
   */
  lemma OverlapBreaks()
    ensures var sql, macros := "x!()" + ("y!()" + "_macro_0__"), ["x!()", "y!()"];
            PutBack(TakeOut(sql, macros, 2), macros, 2) == "x!()__macro_1_x!()" != sql
  {
    TakenOutOfExample();
    PutBackOfExample(TakeOut("x!()" + ("y!()" + "_macro_0__"), ["x!()", "y!()"], 2));
    assert ("x!()" + ("y!()" + "_macro_0__"))[4] == 'y';
  }

  lemma UnsafeTakenOut()
    ensures var x, y := "x!()", "_!()";
            TakeOut(x + ("!() " + y), [x, y], 2) == "__macro_0_" + (Name(1) + (" " + Name(1)))
  {
    var x, y, front := "x!()", "_!()", "__macro_0_";
    var sql := x + ("!() " + y);
    ReplaceOnce("", x, "!() " + y, Name(0));
    assert "" + sql == sql && "" + (Name(0) + ("!() " + y)) == Name(0) + ("!() " + y);
    assert TakeOut(sql, [x, y], 0) == sql;
    UnsafeName();
    assert TakeOut(sql, [x, y], 1) == front + (y + (" " + y));
    ReplaceBehindName(front, y, " " + y);
    ReplaceOnce(" ", y, "", Name(1));
    assert y + "" == y && Name(1) + "" == Name(1);
  }

  lemma UnsafeName()
    ensures Name(0) + ("!() " + "_!()") == "__macro_0_" + ("_!()" + (" " + "_!()"))
    ensures AllInName("__macro_0_")
  {
    assert Name(0) == "__macro_0__";
    NameInName(0);
    assert "__macro_0_" == Name(0)[..10];
  }

  lemma ReplaceBehindName(front: string, y: string, rest: string)
    requires AllInName(front) && |y| > 1 && y[1] == '!'
    ensures Replace(front + (y + rest), y, Name(1)) == front + (Name(1) + Replace(rest, y, Name(1)))
  {
    var s := front + (y + rest);
    forall p | 0 <= p < |front| ensures !StartsWith(s[p..], y) {
      if p + 1 < |front| {
        assert s[p + 1] == front[p + 1];
      } else {
        assert s[p + 1] == y[0];
      }
      assert |s[p..]| >= |y| ==> s[p..][..|y|][1] == s[p + 1];
    }
    ReplaceSkips(s, |front|, y, Name(1));
    assert s[..|front|] == front && s[|front|..] == y + rest;
    ReplaceFront(y, rest, Name(1));
  }

  /** What comes before the first occurrence stays in front. */
  lemma FrontStays(s: string, n: nat, pat: string, rep: string)
    requires pat != "" && n <= |s| && NoMatch(s, n, pat)
    ensures StartsWith(Replace(s, pat, rep), s[..n])
  {
    ReplaceSkips(s, n, pat, rep);
    assert (s[..n] + Replace(s[n..], pat, rep))[..n] == s[..n];
  }

  lemma NoNameAt(s: string, p: nat, k: nat)
    requires p + 1 < |s| && (s[p] != '_' || s[p + 1] != '_')
    ensures !StartsWith(s[p..], Name(k))
  {
    if StartsWith(s[p..], Name(k)) {
      NameStart(s[p..], k);
    }
  }

  lemma NameHalves(rest: string)
    ensures "__macro_0_" + (Name(1) + rest) == Name(0) + ("_macro_1__" + rest)
  {
    assert Name(0) == "__macro_0__" && Name(1) == "__macro_1__";
  }

  lemma TailStays(rest: string, x: string)
    ensures StartsWith(Replace("_macro_1__" + rest, Name(0), x), "_m")
  {
    var tail := "_macro_1__" + rest;
    NoNameAt(tail, 0, 0);
    NoNameAt(tail, 1, 0);
    FrontStays(tail, 2, Name(0), x);
    assert tail[..2] == "_m";
  }

  /** Once the first macro is back, the second placeholder has lost its first bar. */
  lemma UnsafePutBack(x: string, y: string, rest: string)
    requires |x| == 4 && forall i :: 0 <= i < |x| ==> x[i] != '_'
    ensures var result := PutBack("__macro_0_" + (Name(1) + rest), [x, y], 2); |result| > 4 && result[4] == '_'
  {
    NameHalves(rest);
    PutBackTwo("__macro_0_" + (Name(1) + rest), x, y);
    ReplaceFront(Name(0), "_macro_1__" + rest, x);
    TailStays(rest, x);
    BarStays(x, Replace("_macro_1__" + rest, Name(0), x), y);
  }

  lemma BarStays(x: string, after: string, y: string)
    requires |x| == 4 && (forall i :: 0 <= i < |x| ==> x[i] != '_') && StartsWith(after, "_m")
    ensures var result := Replace(x + after, Name(1), y); |result| > 4 && result[4] == '_'
  {
    var once := x + after;
    assert once[4] == after[..2][0] == '_' && once[5] == after[..2][1] == 'm';
    forall p | 0 <= p < 5 ensures !StartsWith(once[p..], Name(1)) {
      NoNameAt(once, p, 1);
    }
    FrontStays(once, 5, Name(1), y);
    assert Replace(once, Name(1), y)[..5][4] == once[..5][4];
  }

  /** A call that begins like the end of a name is taken out of the placeholder in front of it. */
  lemma UnsafeMatchBreaks()
    ensures var sql, macros := "x!()" + ("!() " + "_!()"), ["x!()", "_!()"];
            PutBack(TakeOut(sql, macros, 2), macros, 2) != sql
  {
    UnsafeTakenOut();
    UnsafePutBack("x!()", "_!()", " " + Name(1));
    assert ("x!()" + ("!() " + "_!()"))[4] == '!';
  }
}

/**
 * What happens when a macro of python/tools/format_sql.py is taken out from within a placeholder: the placeholder is
 * cut, and from then on the middle of a name stays in the text, so the SQL does not come back.
 */
module SqlCuts {
  import opened SqlMacros
  import opened SqlText
  import opened Texts

  /**
   * Of placeholder `i`, only the first `q` characters are left, in front of placeholder `j`, whose macro begins with
   * the rest of it; `before` ends in the bars that placeholder `i` begins with, unless they are gone as well.
   * What stands behind placeholder `j` is not cut.
   */
  datatype Cut = Cut(before: string, i: nat, q: nat, j: nat, behind: Text)

  /** What is left of the name, without its first bars. */
  function Stump(i: nat, q: nat): string
    requires 3 <= q < |Name(i)|
  {
    Name(i)[2..q]
  }

  predicate IsCut(c: Cut, s: string, macros: seq<string>) {
    c.i < c.j < |macros| && 3 <= c.q < |Name(c.i)| && StartsWith(macros[c.j], Name(c.i)[c.q..]) &&
    s == c.before + (Stump(c.i, c.q) + (Name(c.j) + Render(c.behind)))
  }

  /** The text behind the cut expands to one without marks. */
  ghost predicate Whole(t: Text, macros: seq<string>) {
    exists sql :: Expand(t, macros) == Chars(sql) && NoMark(sql)
  }

  /** After `n` macros have been taken out, the text is cut. */
  ghost predicate HasCut(s: string, macros: seq<string>, n: nat)
    requires n <= |macros|
  {
    exists c :: IsCut(c, s, macros) && c.j < n && Covered(c.behind, n) && Whole(c.behind, macros[..n])
  }

  lemma CutBehind(x: string, s: string, macros: seq<string>, n: nat)
    requires n <= |macros| && HasCut(s, macros, n)
    ensures HasCut(x + s, macros, n)
  {
    var c :| IsCut(c, s, macros) && c.j < n && Covered(c.behind, n) && Whole(c.behind, macros[..n]);
    Joins(x, c.before, Stump(c.i, c.q) + (Name(c.j) + Render(c.behind)));
    assert IsCut(c.(before := x + c.before), x + s, macros);
  }

  // ----- texts without marks

  lemma NoMarkAcross(a: string, b: string)
    requires NoMark(a) && NoMark(b) && a != "" && a[|a| - 1] == ')'
    ensures NoMark(a + b)
  {
    forall i | 0 <= i <= |a + b| ensures !Mark((a + b)[i..]) {
      if i >= |a| {
        assert (a + b)[i..] == b[i - |a|..];
      } else {
        MarkInFront(a, b, i);
      }
    }
  }

  lemma MarkInFront(a: string, b: string, i: nat)
    requires i < |a| && a[|a| - 1] == ')'
    ensures Mark((a + b)[i..]) ==> Mark(a[i..])
  {
    var s := (a + b)[i..];
    if Mark(s) {
      assert forall k :: 0 <= k < 6 ==> s[k] == s[..6][k] == "macro_"[k];
      assert s[|a| - 1 - i] == ')';
      assert |a| - i >= 7;
      assert a[i..][..6] == s[..6] && a[i..][6] == s[6];
    }
  }

  lemma WholeTail(t: Text, n: nat, macros: seq<string>)
    requires n <= |t| && Whole(t, macros)
    ensures Whole(t[n..], macros)
  {
    var sql :| Expand(t, macros) == Chars(sql) && NoMark(sql);
    assert t == t[..n] + t[n..];
    ExpandConcat(t[..n], t[n..], macros);
    var k := |Expand(t[..n], macros)|;
    NoMarkTail(sql, k);
    assert Expand(t[n..], macros) == Chars(sql)[k..] == Chars(sql[k..]);
  }

  lemma WholeIsRaw(t: Text, macros: seq<string>)
    requires Whole(t, macros)
    ensures NoRawMark(t)
  {
    var sql :| Expand(t, macros) == Chars(sql) && NoMark(sql);
    NoRawMarks(t, macros, sql);
  }

  lemma WholeWith(t: Text, j: nat, macros: seq<string>)
    requires j < |macros| && IsCall(macros[j]) && Whole(t, macros)
    ensures Whole([Placeholder(j)] + t, macros)
  {
    var sql :| Expand(t, macros) == Chars(sql) && NoMark(sql);
    ExpandConcat([Placeholder(j)], t, macros);
    ExpandOne(Placeholder(j), macros);
    NoMarkAcross(macros[j], sql);
    assert Chars(macros[j] + sql) == Chars(macros[j]) + Chars(sql);
  }

  lemma WholeTaken(t: Text, macros: seq<string>, n: nat)
    requires n < |macros| && macros[n] != "" && Covered(t, n) && Whole(t, macros[..n])
    ensures var u := Replace(t, Chars(macros[n]), [Placeholder(n)]);
            Covered(u, n + 1) && Whole(u, macros[..n + 1])
  {
    var sql :| Expand(t, macros[..n]) == Chars(sql) && NoMark(sql);
    ReplaceKeepsExpansion(t, macros[..n], macros[n]);
    ReplaceCovers(t, macros[n], n);
    assert macros[..n + 1] == macros[..n] + [macros[n]];
  }

  // ----- a call that starts inside a name

  /** A call takes no more than the tail of a name: its mark stays. */
  lemma InsideBehindMark(w: string, k: nat, p: nat, rest: string)
    requires p < |Name(k)| && IsCall(w) && StartsWith((Name(k) + rest)[p..], w)
    ensures p > 2 && |w| > |Name(k)| - p && w[..|Name(k)| - p] == Name(k)[p..]
    ensures StartsWith(rest, w[|Name(k)| - p..])
  {
    NameInName(k);
    TailStarts(w, Name(k), p, rest);
    CallInName(w, k, p, rest);
    if p <= 2 {
      MarkAtFront(w[2 - p..], Name(k)[2..]);
    }
  }

  // ----- taking macros out

  /** The call goes on from the tail of the name into characters. */
  lemma CallBehindName(t: Text, w: string, p: nat) returns (v: nat)
    requires IsCall(w) && t != [] && t[0].Placeholder? && p < |Name(t[0].k)| && StartsWith(Render(t)[p..], w)
    ensures 2 < p && 0 < v <= |t| && StartsWith(w, Name(t[0].k)[p..])
    ensures Render(t)[..p] == Name(t[0].k)[..p] && Render(t)[p..] == w + Render(t[v..])
  {
    var k, rest := t[0].k, Render(t[1..]);
    InsideBehindMark(w, k, p, rest);
    var z := w[|Name(k)| - p..];
    NoMarkTail(w, |Name(k)| - p);
    CallShownIsRaw(t[1..], z);
    v := 1 + |z|;
    assert t[1..] == Chars(z) + t[v..];
    RenderConcat(Chars(z), t[v..]);
    RenderChars(z);
    NameThenCall(k, p, z, Render(t[v..]), w);
  }

  /** The first macro that is taken out starts inside the first placeholder. */
  lemma ReplaceInside(t: Text, w: string, n: nat) returns (p: nat, v: nat)
    requires IsCall(w) && CrossesFirst(t, w)
    ensures 2 < p < |Name(t[0].k)| && 0 < v <= |t| && StartsWith(w, Name(t[0].k)[p..])
    ensures Replace(Render(t), w, Name(n)) ==
            Name(t[0].k)[..p] + (Name(n) + Replace(Render(t[v..]), w, Name(n)))
  {
    var h :| 0 <= h < |Shown(t[0])| && StartsWith(Render(t)[h..], w);
    p := FirstPlace(Render(t), w, h);
    v := CallBehindName(t, w, p);
    ReplaceFirst(Render(t), p, w, Render(t[v..]), Name(n));
  }

  lemma NameThenCall(k: nat, p: nat, z: string, rest: string, w: string)
    requires p < |Name(k)| && |w| == |Name(k)| - p + |z|
    requires w[..|Name(k)| - p] == Name(k)[p..] && w[|Name(k)| - p..] == z
    ensures var s := Name(k) + (z + rest); s[..p] == Name(k)[..p] && s[p..] == w + rest
  {
    assert w == Name(k)[p..] + z;
    assert Name(k) == Name(k)[..p] + Name(k)[p..];
    Joins(Name(k)[p..], z, rest);
  }

  lemma NewCut(k: nat, p: nat, n: nat, w: string, v: Text, macros: seq<string>)
    requires k < n < |macros| && macros[n] == w && IsCall(w) && !Crosses(v, w)
    requires Covered(v, n) && Whole(v, macros[..n])
    requires 2 < p < |Name(k)| && StartsWith(w, Name(k)[p..])
    ensures HasCut(Name(k)[..p] + (Name(n) + Replace(Render(v), w, Name(n))), macros, n + 1)
  {
    TakeShown(v, w, n);
    WholeTaken(v, macros, n);
    var u := Replace(v, Chars(w), [Placeholder(n)]);
    assert Name(k)[..p] == "__" + Stump(k, p) by {
      assert Name(k)[..2] == "__";
      assert Name(k)[..p] == Name(k)[..2] + Name(k)[2..p];
    }
    Joins("__", Stump(k, p), Name(n) + Render(u));
    assert IsCut(Cut("__", k, p, n, u), Name(k)[..p] + (Name(n) + Render(u)), macros);
  }

  lemma TailCovered(t: Text, v: nat, macros: seq<string>, n: nat)
    requires n <= |macros| && v <= |t| && Covered(t, n) && Whole(t, macros[..n])
    ensures Covered(t[v..], n) && Whole(t[v..], macros[..n])
  {
    WholeTail(t, v, macros[..n]);
  }

  /** Taking out a macro that crosses cuts a placeholder. */
  lemma {:induction false} CrossingCuts(t: Text, macros: seq<string>, n: nat)
    requires n < |macros| && AllCalls(macros) && Covered(t, n) && Whole(t, macros[..n])
    requires Crosses(t, macros[n])
    ensures HasCut(Replace(Render(t), macros[n], Name(n)), macros, n + 1)
    decreases |t|
  {
    var w := macros[n];
    if |t| >= |w| && t[..|w|] == Chars(w) {
      CharsFirst(t, w);
      CrossesBehind(t, |w|, w);
      TailCovered(t, |w|, macros, n);
      CrossingCuts(t[|w|..], macros, n);
      CallAtFront(t, w, n);
      CutBehind(Name(n), Replace(Render(t[|w|..]), w, Name(n)), macros, n + 1);
    } else if CrossesFirst(t, w) {
      var p, v := ReplaceInside(t, w, n);
      TailCovered(t, v, macros, n);
      if Crosses(t[v..], w) {
        CrossingCuts(t[v..], macros, n);
        CutBehind(Name(n), Replace(Render(t[v..]), w, Name(n)), macros, n + 1);
        CutBehind(Name(t[0].k)[..p], Name(n) + Replace(Render(t[v..]), w, Name(n)), macros, n + 1);
      } else {
        NewCut(t[0].k, p, n, w, t[v..], macros);
      }
    } else {
      TailCovered(t, 1, macros, n);
      CrossingCuts(t[1..], macros, n);
      NoCallAtFront(t, w, n);
      CutBehind(Shown(t[0]), Replace(Render(t[1..]), w, Name(n)), macros, n + 1);
    }
  }

  lemma CallAtFront(t: Text, w: string, n: nat)
    requires w != "" && |t| >= |w| && t[..|w|] == Chars(w)
    ensures Replace(Render(t), w, Name(n)) == Name(n) + Replace(Render(t[|w|..]), w, Name(n))
  {
    assert t == Chars(w) + t[|w|..];
    RenderConcat(Chars(w), t[|w|..]);
    RenderChars(w);
    ReplaceFront(w, Render(t[|w|..]), Name(n));
  }

  lemma NoCallAtFront(t: Text, w: string, n: nat)
    requires t != [] && IsCall(w) && !CrossesFirst(t, w) && !(|t| >= |w| && t[..|w|] == Chars(w))
    ensures Replace(Render(t), w, Name(n)) == Shown(t[0]) + Replace(Render(t[1..]), w, Name(n))
  {
    var r, m := Render(t), |Shown(t[0])|;
    forall p | 0 <= p < m ensures !StartsWith(r[p..], w) {
      NoCallInside(t, w, p);
    }
    ReplaceSkips(r, m, w, Name(n));
    assert r[..m] == Shown(t[0]) && r[m..] == Render(t[1..]);
  }

  // ----- the cut stays while more macros are taken out

  /** A pattern that never goes over the border is replaced on each side of it on its own. */
  lemma {:induction false} ReplaceApart(a: string, b: string, pat: string, rep: string)
    requires pat != "" && forall p :: 0 <= p < |a| && StartsWith((a + b)[p..], pat) ==> p + |pat| <= |a|
    ensures Replace(a + b, pat, rep) == Replace(a, pat, rep) + Replace(b, pat, rep)
    decreases |a|
  {
    var s := a + b;
    if a == "" {
      assert s == b && Replace(a, pat, rep) == "";
    } else {
      assert s[0..] == s;
      if StartsWith(s, pat) {
        assert a[..|pat|] == s[..|pat|];
        ApartBehind(a, b, |pat|, pat);
        ReplaceApart(a[|pat|..], b, pat, rep);
        FrontAcross(a, b, pat, rep);
      } else {
        NotInFront(a, b, pat);
        ApartBehind(a, b, 1, pat);
        ReplaceApart(a[1..], b, pat, rep);
        AfterAcross(a, b, pat, rep);
      }
    }
  }

  lemma NotInFront(a: string, b: string, pat: string)
    requires !StartsWith(a + b, pat)
    ensures !StartsWith(a, pat)
  {
    assert |a| >= |pat| ==> (a + b)[..|pat|] == a[..|pat|];
  }

  lemma ApartBehind(a: string, b: string, n: nat, pat: string)
    requires n <= |a|
    requires forall p :: 0 <= p < |a| && StartsWith((a + b)[p..], pat) ==> p + |pat| <= |a|
    ensures forall p :: 0 <= p < |a[n..]| && StartsWith((a[n..] + b)[p..], pat) ==> p + |pat| <= |a[n..]|
  {
    forall p | 0 <= p < |a[n..]| && StartsWith((a[n..] + b)[p..], pat) ensures p + |pat| <= |a[n..]| {
      assert (a[n..] + b)[p..] == (a + b)[n + p..];
    }
  }

  lemma MarkInTail(s: string, n: nat)
    requires n <= |s|
    ensures !NoMark(s[n..]) ==> !NoMark(s)
  {
    if NoMark(s) {
      NoMarkTail(s, n);
    }
  }

  /** What goes over the border in front of a name and ends in a parenthesis has a mark. */
  lemma OverHasMark(a: string, j: nat, rest: string, w: string, p: nat)
    requires w != "" && w[|w| - 1] == ')' && p < |a| < p + |w| && StartsWith((a + (Name(j) + rest))[p..], w)
    ensures !NoMark(w)
  {
    var s, x := a + (Name(j) + rest), w[|a| - p..];
    assert s[p..][..|w|][|a| - p..] == s[|a|..p + |w|];
    assert s[|a|..] == Name(j) + rest && s[|a|..p + |w|] == (Name(j) + rest)[..|x|];
    assert x[|x| - 1] == w[|w| - 1];
    CallEndsBeyondName(x, j, rest);
    MarkInTail(w, |a| - p);
  }

  lemma NoCallOver(a: string, j: nat, rest: string, w: string, p: nat)
    requires IsCall(w) && p < |a| && StartsWith((a + (Name(j) + rest))[p..], w)
    ensures p + |w| <= |a|
  {
    if p + |w| > |a| {
      OverHasMark(a, j, rest, w, p);
    }
  }

  lemma EndsInFront(a: string, x: string, k: nat)
    requires k < |a + x| && (a + x)[k] == ')' && ')' !in x
    ensures k < |a|
  {
  }

  /** Nor does a call end in the stump of a name. */
  lemma NoCallIntoStump(a: string, x: string, w: string, p: nat)
    requires IsCall(w) && ')' !in x && p < |a| && StartsWith((a + x)[p..], w)
    ensures p + |w| <= |a|
  {
    assert (a + x)[p..][..|w|][|w| - 1] == (a + x)[p + |w| - 1];
    EndsInFront(a, x, p + |w| - 1);
  }

  lemma NoCallIn(x: string, w: string)
    requires IsCall(w) && ')' !in x
    ensures !Contains(x, w)
  {
    forall p | 0 <= p <= |x| ensures !StartsWith(x[p..], w) {
      assert |x[p..]| >= |w| ==> x[p..][..|w|][|w| - 1] == x[p + |w| - 1];
    }
  }

  lemma StumpHasNoEnd(i: nat, q: nat)
    requires 3 <= q < |Name(i)|
    ensures ')' !in Stump(i, q)
  {
    NameInName(i);
  }

  /** A call is taken out in front of the cut and behind it. */
  lemma TakenAround(a: string, x: string, j: nat, rest: string, w: string, rep: string)
    requires IsCall(w) && ')' !in x
    ensures Replace(a + (x + (Name(j) + rest)), w, rep) ==
            Replace(a, w, rep) + (x + Replace(Name(j) + rest, w, rep))
  {
    Joins(a, x, Name(j) + rest);
    forall p | 0 <= p < |a + x| && StartsWith(((a + x) + (Name(j) + rest))[p..], w) ensures p + |w| <= |a + x| {
      NoCallOver(a + x, j, rest, w, p);
    }
    ReplaceApart(a + x, Name(j) + rest, w, rep);
    forall p | 0 <= p < |a| && StartsWith((a + x)[p..], w) ensures p + |w| <= |a| {
      NoCallIntoStump(a, x, w, p);
    }
    ReplaceApart(a, x, w, rep);
    NoCallIn(x, w);
    ReplaceAbsent(x, w, rep);
    Joins(Replace(a, w, rep), x, Replace(Name(j) + rest, w, rep));
  }

  lemma RenderFront(j: nat, u: Text)
    ensures Render([Placeholder(j)] + u) == Name(j) + Render(u)
  {
    RenderConcat([Placeholder(j)], u);
    RenderOne(Placeholder(j));
  }

  /** What stands behind the cut is not cut by this macro. */
  lemma CutKept(c: Cut, s: string, macros: seq<string>, n: nat)
    requires n < |macros| && AllCalls(macros) && IsCut(c, s, macros) && c.j < n
    requires Covered(c.behind, n) && Whole(c.behind, macros[..n]) && !Crosses([Placeholder(c.j)] + c.behind, macros[n])
    ensures HasCut(Replace(s, macros[n], Name(n)), macros, n + 1)
  {
    var w, t := macros[n], [Placeholder(c.j)] + c.behind;
    StumpHasNoEnd(c.i, c.q);
    TakenAround(c.before, Stump(c.i, c.q), c.j, Render(c.behind), w, Name(n));
    RenderFront(c.j, c.behind);
    TakeShown(t, w, n);
    var u := Replace(c.behind, Chars(w), [Placeholder(n)]);
    TakenBehind(c.j, c.behind, w, n);
    RenderFront(c.j, u);
    WholeTaken(c.behind, macros, n);
    assert IsCut(c.(before := Replace(c.before, w, Name(n)), behind := u), Replace(s, w, Name(n)), macros);
  }

  lemma TakenBehind(j: nat, u: Text, w: string, n: nat)
    requires w != ""
    ensures Replace([Placeholder(j)] + u, Chars(w), [Placeholder(n)]) ==
            [Placeholder(j)] + Replace(u, Chars(w), [Placeholder(n)])
  {
    var t := [Placeholder(j)] + u;
    assert t[1..] == u;
    if |t| >= |w| {
      assert t[..|w|][0] == Placeholder(j) && Chars(w)[0] == Char(w[0]);
    }
  }

  /** This macro cuts a placeholder further behind. */
  lemma CutAgain(c: Cut, s: string, macros: seq<string>, n: nat)
    requires n < |macros| && AllCalls(macros) && IsCut(c, s, macros) && c.j < n
    requires Covered(c.behind, n) && Whole(c.behind, macros[..n]) && Crosses([Placeholder(c.j)] + c.behind, macros[n])
    ensures HasCut(Replace(s, macros[n], Name(n)), macros, n + 1)
  {
    var w, t, x := macros[n], [Placeholder(c.j)] + c.behind, Stump(c.i, c.q);
    WholeWith(c.behind, c.j, macros[..n]);
    CrossingCuts(t, macros, n);
    RenderFront(c.j, c.behind);
    StumpHasNoEnd(c.i, c.q);
    TakenAround(c.before, x, c.j, Render(c.behind), w, Name(n));
    CutBehind(x, Replace(Render(t), w, Name(n)), macros, n + 1);
    CutBehind(Replace(c.before, w, Name(n)), x + Replace(Render(t), w, Name(n)), macros, n + 1);
  }

  /** Whatever is taken out, the text stays cut. */
  lemma CutStays(s: string, macros: seq<string>, n: nat)
    requires n < |macros| && AllCalls(macros) && HasCut(s, macros, n)
    ensures HasCut(Replace(s, macros[n], Name(n)), macros, n + 1)
  {
    var c :| IsCut(c, s, macros) && c.j < n && Covered(c.behind, n) && Whole(c.behind, macros[..n]);
    if Crosses([Placeholder(c.j)] + c.behind, macros[n]) {
      CutAgain(c, s, macros, n);
    } else {
      CutKept(c, s, macros, n);
    }
  }

  // ----- putting macros back into a cut text

  /** A mark without the bars of its name, behind a parenthesis. */
  predicate IsBare(r: string, x: string, e: string, y: string) {
    (e == "" || e == "_") && Mark(y) && r == x + (")" + (e + y))
  }

  ghost predicate HasBare(r: string) {
    exists x, e, y :: IsBare(r, x, e, y)
  }

  /** A placeholder that is whole again, but for its bars at the front, in front of the rest `z` of a call. */
  predicate IsLate(r: string, x: string, i: nat, z: string, y: string) {
    NoMark(z) && r == x + ((Name(i)[2..] + z) + (")" + y))
  }

  /** Such a placeholder, when its macro is put back no more. */
  ghost predicate HasLate(r: string, m: nat) {
    exists x, i: nat, z, y :: i < m && IsLate(r, x, i, z, y)
  }

  /** The cut before macro `m` is put back. */
  ghost predicate StillCut(r: string, macros: seq<string>, m: nat) {
    exists c :: IsCut(c, r, macros) && m <= c.j && Whole(c.behind, macros)
  }

  lemma OnlyM(n: nat, k: nat)
    requires k < |Name(n)| && Name(n)[k] == 'm'
    ensures k == 2
  {
    var m := Name(n);
    assert forall i :: 8 <= i < |m| - 2 ==> m[i] == Decimal(n)[i - 8];
    assert forall i :: 0 <= i < 8 ==> m[i] == "__macro_"[i];
  }

  /** Only with its first two bars a name can reach over into a text that begins with an "m". */
  lemma OverBars(a: string, b: string, m: nat)
    requires a != "" && b != "" && b[0] == 'm' && |a| < |Name(m)| && StartsWith(a + b, Name(m))
    ensures a == "__" && 2 <= |Name(m)| <= |b| + 2 && a + b == Name(m) + b[|Name(m)| - 2..]
  {
    var s, n := a + b, Name(m);
    assert n[|a|] == s[..|n|][|a|] == b[0];
    OnlyM(m, |a|);
    assert a == s[..|n|][..2] == n[..2] == "__";
    assert s[|n|..] == b[|n| - 2..] && s == s[..|n|] + s[|n|..];
  }

  /** What a text that begins with an "m" becomes when a macro is put back, perhaps over its beginning. */
  function BackOf(b: string, m: nat, w: string, over: bool): string
    requires over ==> 2 <= |Name(m)| <= |b| + 2
  {
    if over then w + Replace(b[|Name(m)| - 2..], Name(m), w) else Replace(b, Name(m), w)
  }

  /** Putting a macro back in front of such a text, and perhaps over its beginning. */
  lemma {:induction false} BackFront(a: string, b: string, m: nat, w: string) returns (front: string, over: bool)
    requires b != "" && b[0] == 'm'
    ensures over ==> 2 <= |Name(m)| <= |b| + 2 && StartsWith("__" + b, Name(m))
    ensures Replace(a + b, Name(m), w) == front + BackOf(b, m, w, over)
    decreases |a|
  {
    var s, n := a + b, Name(m);
    if a == "" {
      assert s == b;
      front, over := "", false;
    } else if StartsWith(s, n) && |a| < |n| {
      OverBars(a, b, m);
      ReplaceFront(n, b[|n| - 2..], w);
      front, over := "", true;
    } else {
      var x, k := FrontStep(a, b, m, w);
      var rest;
      rest, over := BackFront(a[k..], b, m, w);
      front := x + rest;
      Joins(x, rest, BackOf(b, m, w, over));
    }
  }

  lemma FrontStep(a: string, b: string, m: nat, w: string) returns (x: string, k: nat)
    requires a != "" && (StartsWith(a + b, Name(m)) ==> |a| >= |Name(m)|)
    ensures 0 < k <= |a| && Replace(a + b, Name(m), w) == x + Replace(a[k..] + b, Name(m), w)
  {
    var n := Name(m);
    if StartsWith(a + b, n) {
      assert a[..|n|] == (a + b)[..|n|];
      FrontAcross(a, b, n, w);
      x, k := w, |n|;
    } else {
      NotInFront(a, b, n);
      AfterAcross(a, b, n, w);
      x, k := [a[0]], 1;
    }
  }

  lemma NoNameHere(s: string, p: nat, m: nat)
    requires p + 2 < |s| && (s[p] != '_' || s[p + 1] != '_' || s[p + 2] != 'm')
    ensures !StartsWith(s[p..], Name(m))
  {
    if StartsWith(s[p..], Name(m)) {
      NameStart(s[p..], m);
      MarkFirst(s[p..][2..]);
    }
  }

  /** No name starts in what is left of a cut one. */
  lemma StumpChars(i: nat, q: nat, j: nat, rest: string, p: nat)
    requires 3 <= q < |Name(i)| && p < q - 2
    ensures var s := Stump(i, q) + (Name(j) + rest);
            p + 2 < |s| && (s[p] != '_' || s[p + 1] != '_' || s[p + 2] != 'm')
  {
    var s, n := Stump(i, q) + (Name(j) + rest), Name(i);
    assert s[p] == n[p + 2];
    if p + 1 < q - 2 {
      assert s[p + 1] == n[p + 3];
      BarsAtEnds(i, p + 2);
    } else {
      assert s[p + 2] == Name(j)[1] == '_';
    }
  }

  lemma BackInStump(i: nat, q: nat, j: nat, rest: string, m: nat, w: string)
    requires 3 <= q < |Name(i)|
    ensures Replace(Stump(i, q) + (Name(j) + rest), Name(m), w) == Stump(i, q) + Replace(Name(j) + rest, Name(m), w)
  {
    var x, s := Stump(i, q), Stump(i, q) + (Name(j) + rest);
    forall p | 0 <= p < |x| ensures !StartsWith(s[p..], Name(m)) {
      StumpChars(i, q, j, rest, p);
      NoNameHere(s, p, m);
    }
    ReplaceSkips(s, |x|, Name(m), w);
    assert s[..|x|] == x && s[|x|..] == Name(j) + rest;
  }

  lemma {:induction false} ExpandRestored(t: Text, macros: seq<string>, m: nat)
    requires m < |macros|
    ensures Expand(Replace(t, [Placeholder(m)], Chars(macros[m])), macros) == Expand(t, macros)
  {
    if t != [] {
      var rest := Replace(t[1..], [Placeholder(m)], Chars(macros[m]));
      ExpandRestored(t[1..], macros, m);
      if t[0] == Placeholder(m) {
        assert t[..1] == [Placeholder(m)];
        ExpandConcat(Chars(macros[m]), rest, macros);
        ExpandChars(macros[m], macros);
      } else {
        assert t[..1][0] == t[0];
        ExpandConcat([t[0]], rest, macros);
        ExpandOne(t[0], macros);
      }
    }
  }

  lemma WholeRestored(t: Text, macros: seq<string>, m: nat)
    requires m < |macros| && Whole(t, macros)
    ensures Whole(Replace(t, [Placeholder(m)], Chars(macros[m])), macros)
  {
    ExpandRestored(t, macros, m);
  }

  /** Putting a macro back behind the cut. */
  lemma BackBehind(j: nat, u: Text, macros: seq<string>, m: nat)
    requires j < |macros| && m < |macros| && IsCall(macros[j]) && Whole(u, macros)
    ensures var u' := Replace(u, [Placeholder(m)], Chars(macros[m]));
            Replace(Name(j) + Render(u), Name(m), macros[m]) ==
            (if m == j then macros[j] else Name(j)) + Render(u')
  {
    var t, u' := [Placeholder(j)] + u, Replace(u, [Placeholder(m)], Chars(macros[m]));
    RenderFront(j, u);
    WholeWith(u, j, macros);
    WholeIsRaw(t, macros);
    RestoreShown(t, m, macros[m]);
    assert t[1..] == u && t[..1][0] == Placeholder(j);
    if m == j {
      assert t[..1] == [Placeholder(m)];
      RenderConcat(Chars(macros[j]), u');
      RenderChars(macros[j]);
    } else {
      RenderFront(j, u');
    }
  }

  // ----- a name over the cut

  /** A name that begins with the bars in front of the cut ends in the bars of the placeholder behind it. */
  lemma OverLength(i: nat, q: nat, j: nat, rest: string, m: nat)
    requires 3 <= q < |Name(i)| && StartsWith(Name(i)[..q] + (Name(j) + rest), Name(m))
    ensures |Name(m)| == q + 1 || |Name(m)| == q + 2
  {
    var s, n := Name(i)[..q] + (Name(j) + rest), |Name(m)|;
    assert forall k :: 0 <= k < n ==> Name(m)[k] == s[..n][k] == s[k];
    if n <= q {
      assert s[..n] == Name(i)[..n] && Name(i) + "" == Name(i);
      NumbersDiffer("__macro_", m, i, "");
    } else if n > q + 2 {
      assert s[q + 2] == Name(j)[2] == 'm';
      OnlyM(m, q + 2);
    }
  }

  /** A mark stays when no bars stand in front of it. */
  lemma MarkStays(e: string, y: string, m: nat, w: string) returns (y': string)
    requires (e == "" || e == "_") && Mark(y)
    ensures Mark(y') && Replace(e + y, Name(m), w) == e + y'
  {
    var s, k := e + y, |e| + 7;
    assert forall p :: 0 <= p < 6 ==> y[p] == y[..6][p] == "macro_"[p];
    forall p | 0 <= p < k ensures !StartsWith(s[p..], Name(m)) {
      if p + 2 < |s| {
        assert s[p] == (if p < |e| then '_' else y[p - |e|]) && s[p + 1] == y[p + 1 - |e|];
        NoNameHere(s, p, m);
      } else if StartsWith(s[p..], Name(m)) {
        NameStart(s[p..], m);
      }
    }
    ReplaceSkips(s, k, Name(m), w);
    y' := y[..7] + Replace(s[k..], Name(m), w);
    assert s[..k] == e + y[..7];
    Joins(e, y[..7], Replace(s[k..], Name(m), w));
    assert y'[..6] == y[..6] && y'[6] == y[6];
  }

  /** What is left behind such a name: at most one bar, and the mark of the placeholder behind it. */
  lemma OverLeaves(i: nat, q: nat, j: nat, rest: string, m: nat) returns (e: string, y: string)
    requires 3 <= q < |Name(i)| && StartsWith("__" + (Stump(i, q) + (Name(j) + rest)), Name(m))
    ensures var b := Stump(i, q) + (Name(j) + rest);
            2 <= |Name(m)| <= |b| + 2 && b[|Name(m)| - 2..] == e + y && (e == "" || e == "_") && Mark(y)
  {
    var b := Stump(i, q) + (Name(j) + rest);
    assert Name(i)[..2] == "__" && Name(i)[..q] == "__" + Stump(i, q);
    Joins("__", Stump(i, q), Name(j) + rest);
    OverLength(i, q, j, rest, m);
    e, y := Name(j)[|Name(m)| - q..2], Name(j)[2..] + rest;
    NameInName(j);
    assert y[..|Name(j)| - 2] == Name(j)[2..];
    MarkAtFront(y, Name(j)[2..]);
  }

  lemma OverIsBare(front: string, i: nat, q: nat, j: nat, rest: string, m: nat, w: string)
    requires 3 <= q < |Name(i)| && IsCall(w)
    requires StartsWith("__" + (Stump(i, q) + (Name(j) + rest)), Name(m))
    ensures var b := Stump(i, q) + (Name(j) + rest);
            2 <= |Name(m)| <= |b| + 2 && HasBare(front + BackOf(b, m, w, true))
  {
    var e, y := OverLeaves(i, q, j, rest, m);
    var y' := MarkStays(e, y, m, w);
    BareBehind(front, w, e, y');
  }

  lemma BareBehind(front: string, w: string, e: string, y: string)
    requires w != "" && w[|w| - 1] == ')' && (e == "" || e == "_") && Mark(y)
    ensures HasBare(front + (w + (e + y)))
  {
    var w0 := w[..|w| - 1];
    assert w == w0 + ")";
    Joins(w0, ")", e + y);
    Joins(front, w0, ")" + (e + y));
    assert IsBare(front + (w + (e + y)), front + w0, e, y);
  }

  // ----- the mark stays to the end

  lemma BareStays(r: string, m: nat, w: string)
    requires HasBare(r)
    ensures HasBare(Replace(r, Name(m), w))
  {
    var x, e, y :| IsBare(r, x, e, y);
    NameInName(m);
    ReplaceAcross(x, ')', e + y, Name(m), w);
    var y' := MarkStays(e, y, m, w);
    assert IsBare(Replace(r, Name(m), w), Replace(x, Name(m), w), e, y');
  }

  /** No name starts behind the beginning of a whole one and before the end of the call. */
  lemma NoNameInLate(i: nat, z: string, m: nat)
    requires NoMark(z)
    ensures !Contains(Name(i)[2..] + z, Name(m))
  {
    var b, k := Name(i)[2..] + z, |Name(i)| - 2;
    NameInName(i);
    forall p | 0 <= p <= |b| ensures !StartsWith(b[p..], Name(m)) {
      if StartsWith(b[p..], Name(m)) {
        NameStart(b[p..], m);
        MarkFirst(b[p..][2..]);
        LateMark(i, z, p + 2);
      }
    }
  }

  lemma LateMark(i: nat, z: string, p: nat)
    requires 0 < p <= |Name(i)[2..] + z| && Mark((Name(i)[2..] + z)[p..])
    ensures !NoMark(z)
  {
    var b, k := Name(i)[2..] + z, |Name(i)| - 2;
    MarkFirst(b[p..]);
    if p < k {
      assert b[p] == Name(i)[p + 2];
      OnlyM(i, p + 2);
    } else {
      assert b[p..] == z[p - k..];
    }
  }

  lemma NameAtLate(i: nat, z: string, m: nat)
    requires StartsWith("__" + (Name(i)[2..] + z), Name(m))
    ensures i == m
  {
    assert Name(i)[..2] == "__" && Name(i) == "__" + Name(i)[2..];
    Joins("__", Name(i)[2..], z);
    NumbersDiffer("__macro_", m, i, z);
  }

  lemma LateStays(r: string, m: nat, w: string)
    requires HasLate(r, m)
    ensures HasLate(Replace(r, Name(m), w), m + 1)
  {
    var x, i: nat, z, y :| i < m && IsLate(r, x, i, z, y);
    var b := Name(i)[2..] + z;
    NameInName(i);
    NameInName(m);
    MarkFirst(Name(i)[2..]);
    Joins(x, b, ")" + y);
    ReplaceAcross(x + b, ')', y, Name(m), w);
    var front, over := BackFront(x, b, m, w);
    if over {
      NameAtLate(i, z, m);
    }
    NoNameInLate(i, z, m);
    ReplaceAbsent(b, Name(m), w);
    Joins(front, b, ")" + Replace(y, Name(m), w));
    assert IsLate(Replace(r, Name(m), w), front, i, z, Replace(y, Name(m), w));
  }

  // ----- putting back one macro after the other

  /** The macro that cut the placeholder brings the rest of it back. */
  lemma CutIsLate(front: string, c: Cut, macros: seq<string>, y: string)
    requires c.i < c.j < |macros| && 3 <= c.q < |Name(c.i)| && IsCall(macros[c.j])
    requires StartsWith(macros[c.j], Name(c.i)[c.q..])
    ensures HasLate(front + (Stump(c.i, c.q) + (macros[c.j] + y)), c.j + 1)
  {
    var w, x, tail := macros[c.j], Stump(c.i, c.q), Name(c.i)[c.q..];
    NameInName(c.i);
    CallBeyond(w, tail);
    var z := w[|tail|..|w| - 1];
    NoMarkPart(w, |tail|, |w| - 1);
    assert w == tail + (z + ")");
    assert Name(c.i)[2..] == x + tail;
    LateParts(x, tail, z, y);
    assert IsLate(front + (x + (w + y)), front, c.i, z, y);
  }

  lemma CallBeyond(w: string, tail: string)
    requires IsCall(w) && StartsWith(w, tail) && ')' !in tail
    ensures |tail| < |w|
  {
    assert forall i :: 0 <= i < |tail| ==> w[i] == w[..|tail|][i] == tail[i];
  }

  lemma LateParts(x: string, tail: string, z: string, y: string)
    ensures x + ((tail + (z + ")")) + y) == ((x + tail) + z) + (")" + y)
  {
  }

  /** One step from a cut text. */
  lemma CutStep(c: Cut, r: string, macros: seq<string>, m: nat)
    requires IsCut(c, r, macros) && m <= c.j && Whole(c.behind, macros) && AllCalls(macros)
    ensures var r' := Replace(r, Name(m), macros[m]);
            HasBare(r') || HasLate(r', m + 1) || StillCut(r', macros, m + 1)
  {
    var w, x, rest := macros[m], Stump(c.i, c.q), Render(c.behind);
    var b := x + (Name(c.j) + rest);
    NameInName(c.i);
    MarkFirst(Name(c.i)[2..]);
    assert b[0] == Name(c.i)[2];
    var front, over := BackFront(c.before, b, m, w);
    if over {
      OverIsBare(front, c.i, c.q, c.j, rest, m, w);
    } else {
      var u := Replace(c.behind, [Placeholder(m)], Chars(w));
      BackInStump(c.i, c.q, c.j, rest, m, w);
      BackBehind(c.j, c.behind, macros, m);
      WholeRestored(c.behind, macros, m);
      if m == c.j {
        CutIsLate(front, c, macros, Render(u));
      } else {
        assert IsCut(c.(before := front, behind := u), Replace(r, Name(m), w), macros);
      }
    }
  }

  ghost predicate Stuck(r: string, macros: seq<string>, m: nat) {
    HasBare(r) || HasLate(r, m) || StillCut(r, macros, m)
  }

  lemma StuckStep(r: string, macros: seq<string>, m: nat)
    requires m < |macros| && AllCalls(macros) && Stuck(r, macros, m)
    ensures Stuck(Replace(r, Name(m), macros[m]), macros, m + 1)
  {
    if HasBare(r) {
      BareStays(r, m, macros[m]);
    } else if HasLate(r, m) {
      LateStays(r, m, macros[m]);
    } else {
      var c :| IsCut(c, r, macros) && m <= c.j && Whole(c.behind, macros);
      CutStep(c, r, macros, m);
    }
  }

  lemma {:induction false} PutBackStuck(text: string, macros: seq<string>, n: nat)
    requires n <= |macros| && AllCalls(macros) && HasCut(text, macros, |macros|)
    ensures Stuck(PutBack(text, macros, n), macros, n)
  {
    if n == 0 {
      assert macros[..|macros|] == macros;
      var c :| IsCut(c, text, macros) && c.j < |macros| && Whole(c.behind, macros);
      assert StillCut(text, macros, 0);
    } else {
      PutBackStuck(text, macros, n - 1);
      StuckStep(PutBack(text, macros, n - 1), macros, n - 1);
    }
  }

  /** A stuck text has a mark when all macros have been put back. */
  lemma StuckHasMark(r: string, macros: seq<string>)
    requires Stuck(r, macros, |macros|)
    ensures !NoMark(r)
  {
    if HasBare(r) {
      var x, e, y :| IsBare(r, x, e, y);
      assert r[|x| + 1 + |e|..] == y;
    } else {
      var x, i: nat, z, y :| i < |macros| && IsLate(r, x, i, z, y);
      NameInName(i);
      var tail := r[|x|..];
      assert tail == (Name(i)[2..] + z) + (")" + y);
      assert tail[..|Name(i)| - 2] == Name(i)[2..];
      MarkAtFront(tail, Name(i)[2..]);
    }
  }

  // ----- exactly when the SQL comes back

  lemma {:induction false} CutToTheEnd(sql: string, macros: seq<string>, k: nat, n: nat)
    requires k < n <= |macros| && AllCalls(macros) && HasCut(TakeOut(sql, macros, k + 1), macros, k + 1)
    ensures HasCut(TakeOut(sql, macros, n), macros, n)
    decreases n
  {
    if n > k + 1 {
      CutToTheEnd(sql, macros, k, n - 1);
      CutStays(TakeOut(sql, macros, n - 1), macros, n - 1);
    }
  }

  /** The first macro that is taken out from within a placeholder cuts it. */
  lemma FirstCut(sql: string, macros: seq<string>, k: nat)
    requires NoMark(sql) && AllCalls(macros) && k < |macros| && AllClean(sql, macros, k) && !Clean(sql, macros, k)
    ensures HasCut(TakeOut(sql, macros, k + 1), macros, k + 1)
  {
    TakeOutShows(sql, macros, k);
    TakenExpands(sql, macros, k);
    CrossingCuts(Taken(sql, macros, k), macros, k);
  }

  lemma LeastUnclean(sql: string, macros: seq<string>) returns (k: nat)
    requires AllCalls(macros) && !AllClean(sql, macros, |macros|)
    ensures k < |macros| && AllClean(sql, macros, k) && !Clean(sql, macros, k)
  {
    k := 0;
    while Clean(sql, macros, k)
      invariant k < |macros| && AllClean(sql, macros, k)
      decreases |macros| - k
    {
      assert AllClean(sql, macros, k + 1);
      k := k + 1;
    }
  }

  /** A text without marks comes back exactly if no macro is taken out from within a placeholder. */
  lemma ComesBackIffClean(sql: string, macros: seq<string>)
    requires NoMark(sql) && AllCalls(macros)
    ensures PutBack(TakeOut(sql, macros, |macros|), macros, |macros|) == sql <==> AllClean(sql, macros, |macros|)
  {
    if AllClean(sql, macros, |macros|) {
      CleanComesBack(sql, macros);
    } else {
      var k := LeastUnclean(sql, macros);
      FirstCut(sql, macros, k);
      CutToTheEnd(sql, macros, k, |macros|);
      var text := TakeOut(sql, macros, |macros|);
      PutBackStuck(text, macros, |macros|);
      StuckHasMark(PutBack(text, macros, |macros|), macros);
    }
  }
}

/**
 * The macro passes of python/tools/format_sql.py over characters, as the program runs them.  Placeholders are
 * names like "__macro_0__", which may overlap with each other and with the text around them.  As long as the SQL
 * does not spell part of a name itself, and no macro is taken out from within a placeholder, the passes do just what
 * they do over tokens.  What happens otherwise is in SqlCuts.
 */
module SqlMacros {
  import opened SqlText
  import opened Texts

  function Name(k: nat): string {
    Numbered("__macro_", k)
  }

  function Shown(x: Token): (s: string)
    ensures s != ""
  {
    match x
    case Char(c) => [c]
    case Placeholder(k) => Name(k)
  }

  /** The characters of a text over tokens. */
  function Render(t: Text): string {
    if t == [] then "" else Shown(t[0]) + Render(t[1..])
  }

  lemma {:induction false} RenderConcat(a: Text, b: Text)
    ensures Render(a + b) == Render(a) + Render(b)
  {
    if a == [] {
      assert a + b == b;
    } else {
      assert (a + b)[1..] == a[1..] + b;
      RenderConcat(a[1..], b);
    }
  }

  lemma {:induction false} RenderChars(s: string)
    ensures Render(Chars(s)) == s
  {
    if s != "" {
      assert Chars(s)[1..] == Chars(s[1..]);
      RenderChars(s[1..]);
    }
  }

  // ----- what the SQL must not contain

  /** The middle of a name: "macro_" and a digit. */
  predicate Mark(s: string) {
    |s| >= 7 && s[..6] == "macro_" && IsDigit(s[6])
  }

  predicate NoMark(s: string) {
    forall i :: 0 <= i <= |s| ==> !Mark(s[i..])
  }

  /** Part of a text without marks has none. */
  lemma NoMarkPart(sql: string, a: nat, b: nat)
    requires NoMark(sql) && a <= b <= |sql|
    ensures NoMark(sql[a..b])
  {
    forall i | 0 <= i <= b - a ensures !Mark(sql[a..b][i..]) {
      assert sql[a..b][i..] == sql[a + i..b];
      MarkGrows(sql[a + i..], b - a - i);
      assert sql[a + i..][..b - a - i] == sql[a + i..b];
    }
  }

  lemma MarkGrows(s: string, n: nat)
    requires n <= |s|
    ensures Mark(s[..n]) ==> Mark(s)
  {
    if Mark(s[..n]) {
      assert s[..n][..6] == s[..6] && s[..n][6] == s[6];
    }
  }

  predicate RawMark(u: Text) {
    |u| >= 7 && u[..6] == Chars("macro_") && u[6].Char? && IsDigit(u[6].c)
  }

  predicate NoRawMark(t: Text) {
    forall i :: 0 <= i <= |t| ==> !RawMark(t[i..])
  }

  lemma NoRawMarkTail(t: Text, n: nat)
    requires NoRawMark(t) && n <= |t|
    ensures NoRawMark(t[n..])
  {
    forall i | 0 <= i <= |t[n..]| ensures !RawMark(t[n..][i..]) {
      assert t[n..][i..] == t[n + i..];
    }
  }

  /** No bar at the end, nor one that another follows: a text that overlaps with the front of a name has one. */
  predicate NoBars(w: string) {
    forall i :: 0 <= i < |w| && w[i] == '_' ==> i + 1 < |w| && w[i + 1] != '_'
  }

  /** Such a text shows only where it stands as characters. */
  lemma {:induction false} ShownIsRaw(u: Text, w: string)
    requires StartsWith(Render(u), w) && NoBars(w)
    ensures |u| >= |w| && u[..|w|] == Chars(w)
  {
    if w != "" {
      var r := Render(u);
      assert r[..|w|][0] == r[0] == w[0];
      assert |w| > 1 ==> r[..|w|][1] == r[1] == w[1];
      assert r[1..] == Render(u[1..]);
      assert r[..|w|][1..] == r[1..][..|w| - 1];
      ShownIsRaw(u[1..], w[1..]);
      assert u[..|w|] == [u[0]] + u[1..][..|w| - 1];
      assert Chars(w) == [Char(w[0])] + Chars(w[1..]);
    }
  }

  lemma MarkIsRaw(u: Text)
    requires Mark(Render(u))
    ensures RawMark(u)
  {
    var w := "macro_" + [Render(u)[6]];
    assert Render(u)[..7] == w;
    ShownIsRaw(u, w);
    assert u[..7][..6] == u[..6] && Chars(w)[..6] == Chars("macro_");
    assert u[..7][6] == Chars(w)[6];
  }

  lemma MarkFirst(s: string)
    requires Mark(s)
    ensures s[0] == 'm'
  {
    assert s[..6][0] == s[0];
  }

  /** A second character other than a bar shows that the first token is a character. */
  lemma BarIsRaw(u: Text)
    requires |Render(u)| > 1 && Render(u)[1] != '_' && Render(u)[0] == '_'
    ensures u != [] && u[0].Char? && Render(u)[1..] == Render(u[1..])
  {
  }

  lemma BarMarkIsRaw(u: Text)
    requires StartsWith(Render(u), "_") && Mark(Render(u)[1..])
    ensures |u| > 0 && RawMark(u[1..])
  {
    MarkFirst(Render(u)[1..]);
    assert Render(u)[..1][0] == Render(u)[0];
    BarIsRaw(u);
    MarkIsRaw(u[1..]);
  }

  /** If the SQL has no mark, no text that expands to it has one among its characters. */
  lemma NoRawMarks(t: Text, macros: seq<string>, sql: string)
    requires Expand(t, macros) == Chars(sql) && NoMark(sql)
    ensures NoRawMark(t)
  {
    forall i | 0 <= i <= |t| ensures !RawMark(t[i..]) {
      if RawMark(t[i..]) {
        var w := "macro_" + [t[i + 6].c];
        assert t[i..][..7] == t[i..][..6] + [t[i..][6]];
        assert t == t[..i] + (Chars(w) + t[i + 7..]);
        ExpandConcat(t[..i], Chars(w) + t[i + 7..], macros);
        ExpandConcat(Chars(w), t[i + 7..], macros);
        ExpandChars(w, macros);
        MarkAt(sql, |Expand(t[..i], macros)|, w, Expand(t[..i], macros), Expand(t[i + 7..], macros));
      }
    }
  }

  lemma MarkAt(sql: string, n: nat, w: string, a: Text, b: Text)
    requires Chars(sql) == a + (Chars(w) + b) && n == |a| && Mark(w)
    ensures n <= |sql| && Mark(sql[n..])
  {
    forall k | 0 <= k < |w| ensures sql[n..][k] == w[k] {
      assert Chars(sql)[n + k] == Chars(w)[k];
    }
    assert sql[n..][..6] == w[..6];
  }

  // ----- replacing in the characters and in the tokens

  lemma NameStart(r: string, n: nat)
    requires StartsWith(r, Name(n))
    ensures |r| > 8 && r[0] == '_' && r[1] == '_' && Mark(r[2..])
    ensures |r| >= |Name(n)| && r[|Name(n)| - 1] == '_'
  {
    var m := Name(n);
    assert forall i :: 0 <= i < |m| ==> r[i] == r[..|m|][i];
    assert r[2..][..6] == "macro_" && m[8] == Decimal(n)[0];
  }

  /** Two bars stand only at the ends of a name. */
  lemma BarsAtEnds(j: nat, p: nat)
    requires 0 < p < |Name(j)| - 2
    ensures Name(j)[p] != '_' || Name(j)[p + 1] != '_'
  {
    var m := Name(j);
    assert forall i :: 8 <= i < |m| - 2 ==> m[i] == Decimal(j)[i - 8];
  }

  /** A name starts inside another only in the last two characters, unless it is the same. */
  lemma NameInsideName(j: nat, n: nat, p: nat, rest: string)
    requires p < |Name(j)| && StartsWith((Name(j) + rest)[p..], Name(n))
    ensures (p == 0 && j == n) || p >= |Name(j)| - 2
  {
    var m, r := Name(j), (Name(j) + rest)[p..];
    NameStart(r, n);
    if p == 0 {
      assert r == m + rest;
      NumbersDiffer("__macro_", n, j, rest);
    } else if p < |m| - 2 {
      BarsAtEnds(j, p);
    }
  }

  /** A name that starts inside what one token shows is the whole of it, or the text spells part of a name. */
  lemma NameInside(t: Text, n: nat, p: nat)
    requires t != [] && p < |Shown(t[0])| && StartsWith(Render(t)[p..], Name(n))
    ensures (t[0] == Placeholder(n) && p == 0) || RawMark(t[1..]) || (|t| > 1 && RawMark(t[2..]))
  {
    var r, rest := Render(t)[p..], Render(t[1..]);
    NameStart(r, n);
    if t[0].Placeholder? {
      NameInsideName(t[0].k, n, p, rest);
    }
    if p + 2 == |Shown(t[0])| {
      assert r[2..] == rest;
      MarkIsRaw(t[1..]);
    } else if p + 1 == |Shown(t[0])| {
      assert r[1..] == rest && rest[1..] == r[2..];
      BarMarkIsRaw(t[1..]);
      assert t[1..][1..] == t[2..];
    }
  }

  /** Restoring a macro in the characters is restoring it in the tokens. */
  lemma {:induction false} RestoreShown(t: Text, n: nat, m: string)
    requires NoRawMark(t)
    ensures Replace(Render(t), Name(n), m) == Render(Replace(t, [Placeholder(n)], Chars(m)))
  {
    if t != [] {
      NoRawMarkTail(t, 1);
      RestoreShown(t[1..], n, m);
      var r, rest := Render(t), Render(t[1..]);
      if t[0] == Placeholder(n) {
        assert r[..|Name(n)|] == Name(n) && r[|Name(n)|..] == rest;
        assert t[..1] == [Placeholder(n)];
        RenderConcat(Chars(m), Replace(t[1..], [Placeholder(n)], Chars(m)));
        RenderChars(m);
      } else {
        forall p | 0 <= p < |Shown(t[0])| ensures !StartsWith(r[p..], Name(n)) {
          if StartsWith(r[p..], Name(n)) {
            NameInside(t, n, p);
            assert false;
          }
        }
        ReplaceSkips(r, |Shown(t[0])|, Name(n), m);
        assert r[..|Shown(t[0])|] == Shown(t[0]) && r[|Shown(t[0])|..] == rest;
        assert t[..1] == [t[0]];
        RenderConcat([t[0]], Replace(t[1..], [Placeholder(n)], Chars(m)));
        assert Render([t[0]]) == Shown(t[0]) + Render([]);
      }
    }
  }

  // ----- taking a macro out of the characters

  /** The characters of names. */
  predicate InName(c: char) {
    IsDigit(c) || c in "_macro"
  }

  predicate AllInName(s: string) {
    forall i :: 0 <= i < |s| ==> InName(s[i])
  }

  lemma NameInName(k: nat)
    ensures AllInName(Name(k)) && Mark(Name(k)[2..])
  {
    assert Name(k)[2..][..6] == "macro_" && Name(k)[8] == Decimal(k)[0];
    assert forall i :: 8 <= i < |Name(k)| - 2 ==> Name(k)[i] == Decimal(k)[i - 8];
  }

  /** What a name can end in: bars alone, or characters of names and two bars. */
  predicate NameTail(x: string) {
    x != "" && AllInName(x) && x[|x| - 1] == '_' && (|x| > 1 ==> x[|x| - 2] == '_')
  }

  /** `y` stands behind a closing parenthesis, where there may be a placeholder in front of it. */
  predicate Behind(sql: string, y: string) {
    exists q :: 0 < q <= |sql| && sql[q - 1] == ')' && StartsWith(sql[q..], y)
  }

  /** Nowhere in the text can the end of a placeholder and what stands behind it be taken for the call. */
  predicate SafeCall(sql: string, w: string) {
    forall e :: 0 < e < |w| && NameTail(w[..e]) ==> !Behind(sql, w[e..])
  }

  predicate IsCall(w: string) {
    w != "" && w[|w| - 1] == ')' && NoMark(w)
  }

  lemma PrefixTail(r: string, w: string)
    requires StartsWith(r, w) && w != ""
    ensures r[0] == w[0] && StartsWith(r[1..], w[1..])
  {
    assert r[..|w|][0] == r[0] && r[..|w|][1..] == r[1..][..|w| - 1];
  }

  /** A text that ends in a parenthesis and has no mark does not begin inside the first placeholder. */
  lemma CallStartsRaw(u: Text, w: string)
    requires StartsWith(Render(u), w) && IsCall(w)
    ensures u != [] && u[0] == Char(w[0]) && StartsWith(Render(u[1..]), w[1..])
  {
    PrefixTail(Render(u), w);
    if u[0].Placeholder? {
      CallEndsBeyondName(w, u[0].k, Render(u[1..]));
    } else {
      assert Render(u)[1..] == Render(u[1..]);
    }
  }

  /** It shows only where it stands as characters. */
  lemma {:induction false} CallShownIsRaw(u: Text, w: string)
    requires StartsWith(Render(u), w) && IsCall(w)
    ensures |u| >= |w| && u[..|w|] == Chars(w)
    decreases |w|
  {
    CallStartsRaw(u, w);
    if |w| > 1 {
      NoMarkTail(w, 1);
      CallShownIsRaw(u[1..], w[1..]);
    }
    RawJoins(u, w);
  }

  lemma RawJoins(u: Text, w: string)
    requires u != [] && w != "" && u[0] == Char(w[0])
    requires |w| > 1 ==> |u| >= |w| && u[1..][..|w| - 1] == Chars(w[1..])
    ensures |u| >= |w| && u[..|w|] == Chars(w)
  {
    forall i | 0 <= i < |w| ensures u[i] == Char(w[i]) {
      if i > 0 {
        assert u[i] == u[1..][..|w| - 1][i - 1] == Chars(w[1..])[i - 1];
      }
    }
  }

  lemma NoMarkTail(s: string, n: nat)
    requires NoMark(s) && n <= |s|
    ensures NoMark(s[n..])
  {
    forall i | 0 <= i <= |s[n..]| ensures !Mark(s[n..][i..]) {
      assert s[n..][i..] == s[n + i..];
    }
  }

  /** What starts with a name and ends in a parenthesis has a mark. */
  lemma CallEndsBeyondName(w: string, k: nat, rest: string)
    requires StartsWith(Name(k) + rest, w) && w != "" && w[|w| - 1] == ')'
    ensures !NoMark(w)
  {
    NameInName(k);
    TailStarts(w, Name(k), 0, rest);
    MarkAtFront(w[2..], Name(k)[2..]);
  }

  lemma MarkAtFront(s: string, m: string)
    requires Mark(m) && StartsWith(s, m)
    ensures Mark(s)
  {
    assert s[..|m|][..6] == s[..6] && s[..|m|][6] == s[6];
  }

  /** A call that starts inside a name goes beyond its end. */
  lemma TailStarts(w: string, name: string, p: nat, rest: string)
    requires p < |name| && AllInName(name)
    requires StartsWith((name + rest)[p..], w) && w != "" && w[|w| - 1] == ')'
    ensures |w| > |name| - p && w[..|name| - p] == name[p..]
    ensures p <= 2 < |name| ==> StartsWith(w[2 - p..], name[2..])
  {
    var r := (name + rest)[p..];
    assert forall i :: 0 <= i < |w| ==> w[i] == r[..|w|][i] == r[i];
    assert forall i :: 0 <= i < |name| - p ==> r[i] == name[p + i];
    if p <= 2 < |name| {
      assert w[2 - p..][..|name| - 2] == name[2..];
    }
  }

  /** A call that starts inside a name starts with its tail, and goes on behind it. */
  lemma CallInName(w: string, k: nat, p: nat, rest: string)
    requires p < |Name(k)| && IsCall(w) && StartsWith((Name(k) + rest)[p..], w)
    ensures var e := |Name(k)| - p; e < |w| && NameTail(w[..e]) && StartsWith(rest, w[e..])
  {
    var name := Name(k);
    var e := |name| - p;
    NameInName(k);
    TailStarts(w, name, p, rest);
    assert forall i :: 0 <= i < e ==> w[..e][i] == w[i] == name[p + i];
    if p <= 2 {
      MarkAtFront(w[2 - p..], name[2..]);
    }
    assert (name + rest)[p..][e..] == rest && (name + rest)[p..][..|w|][e..] == rest[..|w| - e];
  }

  // ----- from within a placeholder

  /** The call starts inside the first placeholder. */
  predicate CrossesFirst(t: Text, w: string) {
    t != [] && t[0].Placeholder? && exists p :: 0 <= p < |Shown(t[0])| && StartsWith(Render(t)[p..], w)
  }

  /** The call is in the text from within a placeholder on. */
  predicate Crosses(t: Text, w: string) {
    t != [] && (CrossesFirst(t, w) || Crosses(t[1..], w))
  }

  /** Where no token starts the call, no character of the first token does either. */
  lemma NoCallInside(t: Text, w: string, p: nat)
    requires t != [] && p < |Shown(t[0])| && IsCall(w) && !CrossesFirst(t, w)
    requires !(|t| >= |w| && t[..|w|] == Chars(w))
    ensures !StartsWith(Render(t)[p..], w)
  {
    if t[0].Char? && StartsWith(Render(t)[p..], w) {
      assert Render(t)[0..] == Render(t);
      CallShownIsRaw(t, w);
      assert false;
    }
  }

  /** Characters cross nothing. */
  lemma {:induction false} CrossesBehind(t: Text, n: nat, w: string)
    requires n <= |t| && forall i :: 0 <= i < n ==> t[i].Char?
    ensures Crosses(t, w) <==> Crosses(t[n..], w)
    decreases n
  {
    if n == 0 {
      assert t[0..] == t;
    } else {
      CrossesBehind(t[1..], n - 1, w);
      assert t[1..][n - 1..] == t[n..];
    }
  }

  predicate AllCalls(macros: seq<string>) {
    forall k :: 0 <= k < |macros| ==> IsCall(macros[k])
  }

  /** What stands as characters behind a placeholder stands behind the end of a call in the SQL. */
  lemma RawBehind(t: Text, y: string, macros: seq<string>, sql: string)
    requires t != [] && t[0].Placeholder? && t[0].k < |macros| && AllCalls(macros)
    requires |t[1..]| >= |y| && t[1..][..|y|] == Chars(y) && Expand(t, macros) == Chars(sql)
    ensures Behind(sql, y)
  {
    var m := macros[t[0].k];
    assert t[1..] == Chars(y) + t[1..][|y|..];
    ExpandConcat(Chars(y), t[1..][|y|..], macros);
    ExpandChars(y, macros);
    CharsBehind(sql, m, y, Expand(t[1..][|y|..], macros));
  }

  lemma CharsBehind(sql: string, m: string, y: string, rest: Text)
    requires IsCall(m) && Chars(sql) == Chars(m) + (Chars(y) + rest)
    ensures Behind(sql, y)
  {
    assert forall i :: 0 <= i < |m| ==> Chars(sql)[i] == Chars(m)[i];
    assert forall i :: 0 <= i < |y| ==> Chars(sql)[|m| + i] == Chars(y)[i];
    assert |Chars(sql)| == |m| + |y| + |rest|;
    assert sql[|m| - 1] == ')' && sql[|m|..][..|y|] == y;
  }

  /** What is safe for a text is safe for its end. */
  lemma SafeTail(sql: string, n: nat, w: string)
    requires n <= |sql| && SafeCall(sql, w)
    ensures SafeCall(sql[n..], w)
  {
    forall e | 0 < e < |w| && NameTail(w[..e]) ensures !Behind(sql[n..], w[e..]) {
      BehindTail(sql, n, w[e..]);
    }
  }

  lemma BehindTail(sql: string, n: nat, y: string)
    requires n <= |sql|
    ensures Behind(sql[n..], y) ==> Behind(sql, y)
  {
    if q :| 0 < q <= |sql| - n && sql[n..][q - 1] == ')' && StartsWith(sql[n..][q..], y) {
      assert sql[n..][q..] == sql[n + q..] && sql[n + q - 1] == ')';
    }
  }

  /** The tail of a text expands to a tail of the SQL. */
  lemma ExpandTail(t: Text, n: nat, macros: seq<string>, sql: string)
    requires n <= |t| && Covered(t, |macros|) && Expand(t, macros) == Chars(sql)
    ensures Covered(t[n..], |macros|) && |Expand(t[..n], macros)| <= |sql|
    ensures Expand(t[n..], macros) == Chars(sql[|Expand(t[..n], macros)|..])
  {
    assert t == t[..n] + t[n..];
    ExpandConcat(t[..n], t[n..], macros);
    var k := |Expand(t[..n], macros)|;
    assert Expand(t[n..], macros) == Chars(sql)[k..] == Chars(sql[k..]);
  }

  /** A safe call crosses nothing. */
  lemma {:induction false} SafeNeverCrosses(t: Text, w: string, macros: seq<string>, sql: string)
    requires IsCall(w) && SafeCall(sql, w)
    requires Covered(t, |macros|) && Expand(t, macros) == Chars(sql) && AllCalls(macros)
    ensures !Crosses(t, w)
  {
    if t != [] {
      ExpandTail(t, 1, macros, sql);
      SafeTail(sql, |Expand(t[..1], macros)|, w);
      SafeNeverCrosses(t[1..], w, macros, sql[|Expand(t[..1], macros)|..]);
      if CrossesFirst(t, w) {
        CrossingBehind(t, w, macros, sql);
        assert false;
      }
    }
  }

  lemma CrossingBehind(t: Text, w: string, macros: seq<string>, sql: string)
    requires IsCall(w) && CrossesFirst(t, w)
    requires Covered(t, |macros|) && Expand(t, macros) == Chars(sql) && AllCalls(macros)
    ensures !SafeCall(sql, w)
  {
    var k := t[0].k;
    var p :| 0 <= p < |Shown(t[0])| && StartsWith(Render(t)[p..], w);
    CallInName(w, k, p, Render(t[1..]));
    var e := |Name(k)| - p;
    NoMarkTail(w, e);
    CallShownIsRaw(t[1..], w[e..]);
    RawBehind(t, w[e..], macros, sql);
  }

  /** Taking a macro out of the characters is taking it out of the tokens, if it crosses nothing. */
  lemma {:induction false} TakeShown(t: Text, w: string, k: nat)
    requires IsCall(w) && !Crosses(t, w)
    ensures Replace(Render(t), w, Name(k)) == Render(Replace(t, Chars(w), [Placeholder(k)]))
    decreases |t|
  {
    if t != [] {
      if |t| >= |w| && t[..|w|] == Chars(w) {
        CharsFirst(t, w);
        CrossesBehind(t, |w|, w);
        TakeShown(t[|w|..], w, k);
        TakeHere(t, w, k);
      } else {
        TakeShown(t[1..], w, k);
        forall p | 0 <= p < |Shown(t[0])| ensures !StartsWith(Render(t)[p..], w) {
          NoCallInside(t, w, p);
        }
        TakeLater(t, w, k);
      }
    }
  }

  lemma CharsFirst(t: Text, w: string)
    requires |t| >= |w| && t[..|w|] == Chars(w)
    ensures forall i :: 0 <= i < |w| ==> t[i] == Char(w[i])
  {
    forall i | 0 <= i < |w| ensures t[i] == Char(w[i]) {
      assert t[i] == t[..|w|][i] == Chars(w)[i];
    }
  }

  lemma TakeHere(t: Text, w: string, k: nat)
    requires w != "" && |t| >= |w| && t[..|w|] == Chars(w)
    requires Replace(Render(t[|w|..]), w, Name(k)) == Render(Replace(t[|w|..], Chars(w), [Placeholder(k)]))
    ensures Replace(Render(t), w, Name(k)) == Render(Replace(t, Chars(w), [Placeholder(k)]))
  {
    var rep := [Placeholder(k)];
    assert t == Chars(w) + t[|w|..];
    RenderConcat(Chars(w), t[|w|..]);
    RenderChars(w);
    ReplaceFront(w, Render(t[|w|..]), Name(k));
    RenderConcat(rep, Replace(t[|w|..], Chars(w), rep));
    RenderOne(Placeholder(k));
  }

  lemma TakeLater(t: Text, w: string, k: nat)
    requires w != "" && t != [] && !(|t| >= |w| && t[..|w|] == Chars(w))
    requires forall p :: 0 <= p < |Shown(t[0])| ==> !StartsWith(Render(t)[p..], w)
    requires Replace(Render(t[1..]), w, Name(k)) == Render(Replace(t[1..], Chars(w), [Placeholder(k)]))
    ensures Replace(Render(t), w, Name(k)) == Render(Replace(t, Chars(w), [Placeholder(k)]))
  {
    var r, rep := Render(t), [Placeholder(k)];
    ReplaceSkips(r, |Shown(t[0])|, w, Name(k));
    assert r[..|Shown(t[0])|] == Shown(t[0]) && r[|Shown(t[0])|..] == Render(t[1..]);
    RenderConcat([t[0]], Replace(t[1..], Chars(w), rep));
    RenderOne(t[0]);
    if |t| < |w| {
      assert t == [t[0]] + t[1..];
    }
  }

  lemma RenderOne(x: Token)
    ensures Render([x]) == Shown(x)
  {
    assert [x][1..] == [] && Render([]) == "";
  }

  // ----- the two passes

  /** The SQL after the first `n` macros have been taken out. */
  function TakeOut(sql: string, macros: seq<string>, n: nat): string
    requires n <= |macros| && forall k :: 0 <= k < |macros| ==> macros[k] != ""
  {
    if n == 0 then sql else Replace(TakeOut(sql, macros, n - 1), macros[n - 1], Name(n - 1))
  }

  /** The text after the first `n` macros have been put back. */
  function PutBack(text: string, macros: seq<string>, n: nat): string
    requires n <= |macros|
  {
    if n == 0 then text else Replace(PutBack(text, macros, n - 1), Name(n - 1), macros[n - 1])
  }

  /** Every macro is a call, and none can be mistaken in this SQL. */
  predicate SafeCalls(sql: string, macros: seq<string>) {
    AllCalls(macros) && forall k :: 0 <= k < |macros| ==> SafeCall(sql, macros[k])
  }

  /** The text from which macro `k` is taken out holds it nowhere from within a placeholder on. */
  predicate Clean(sql: string, macros: seq<string>, k: nat)
    requires k < |macros| && forall k :: 0 <= k < |macros| ==> macros[k] != ""
  {
    !Crosses(Taken(sql, macros, k), macros[k])
  }

  predicate AllClean(sql: string, macros: seq<string>, n: nat)
    requires n <= |macros| && forall k :: 0 <= k < |macros| ==> macros[k] != ""
  {
    forall k :: 0 <= k < n ==> Clean(sql, macros, k)
  }

  lemma SafeIsClean(sql: string, macros: seq<string>)
    requires SafeCalls(sql, macros)
    ensures AllClean(sql, macros, |macros|)
  {
    forall k | 0 <= k < |macros| ensures Clean(sql, macros, k) {
      TakenExpands(sql, macros, k);
      SafeNeverCrosses(Taken(sql, macros, k), macros[k], macros[..k], sql);
    }
  }

  lemma {:induction false} TakeOutShows(sql: string, macros: seq<string>, n: nat)
    requires n <= |macros| && AllCalls(macros) && AllClean(sql, macros, n)
    ensures TakeOut(sql, macros, n) == Render(Taken(sql, macros, n))
  {
    if n == 0 {
      RenderChars(sql);
    } else {
      TakeOutShows(sql, macros, n - 1);
      assert Clean(sql, macros, n - 1);
      TakeShown(Taken(sql, macros, n - 1), macros[n - 1], n - 1);
    }
  }

  lemma PutBackStep(t: Text, sql: string, macros: seq<string>, n: nat)
    requires n < |macros| && Expand(t, macros) == Chars(sql) && NoMark(sql)
    ensures Replace(Render(ExpandFirst(t, macros, n)), Name(n), macros[n]) == Render(ExpandFirst(t, macros, n + 1))
  {
    ExpandAgain(t, macros, n);
    NoRawMarks(ExpandFirst(t, macros, n), macros, sql);
    RestoreShown(ExpandFirst(t, macros, n), n, macros[n]);
    RestoreStep(t, macros, n);
  }

  lemma {:induction false} PutBackShows(t: Text, sql: string, macros: seq<string>, n: nat)
    requires n <= |macros| && Expand(t, macros) == Chars(sql) && NoMark(sql)
    ensures PutBack(Render(t), macros, n) == Render(ExpandFirst(t, macros, n))
  {
    if n == 0 {
      ExpandNone(t);
      assert macros[..0] == [];
    } else {
      PutBackShows(t, sql, macros, n - 1);
      PutBackStep(t, sql, macros, n - 1);
    }
  }

  /** A text without marks comes back if no macro is taken out from within a placeholder. */
  lemma CleanComesBack(sql: string, macros: seq<string>)
    requires NoMark(sql) && AllCalls(macros) && AllClean(sql, macros, |macros|)
    ensures PutBack(TakeOut(sql, macros, |macros|), macros, |macros|) == sql
  {
    var t := Taken(sql, macros, |macros|);
    TakenExpands(sql, macros, |macros|);
    assert macros[..|macros|] == macros;
    TakeOutShows(sql, macros, |macros|);
    ShownComesBack(t, sql, macros);
  }

  /** A text in which each placeholder stands for its macro comes back whole. */
  lemma ShownComesBack(t: Text, full: string, macros: seq<string>)
    requires Expand(t, macros) == Chars(full) && NoMark(full)
    ensures PutBack(Render(t), macros, |macros|) == full
  {
    assert macros[..|macros|] == macros;
    PutBackShows(t, full, macros, |macros|);
    RenderChars(full);
  }
}

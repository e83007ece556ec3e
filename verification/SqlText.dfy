/**
 * The macro passes of python/tools/format_sql.py over tokens: a placeholder is a token of its own.  What that says
 * about the passes over characters is in SqlMacros.
 */
module SqlText {
  import opened Texts

  datatype Token = Char(c: char) | Placeholder(k: nat)

  type Text = seq<Token>

  function Chars(s: string): (t: Text)
    ensures |t| == |s| && forall i :: 0 <= i < |s| ==> t[i] == Char(s[i])
  {
    seq(|s|, i requires 0 <= i < |s| => Char(s[i]))
  }

  // ----- finding the end of a macro call

  /** Opening less closing parentheses in `s[a..b]`. */
  function Depth(s: string, a: nat, b: nat): int
    requires a <= b <= |s|
  {
    if a == b then 0
    else Depth(s, a, b - 1) + (if s[b - 1] == '(' then 1 else if s[b - 1] == ')' then -1 else 0)
  }

  /** The call opened before `a` closes at `b`: there, and nowhere before, all parentheses are matched. */
  predicate ClosesAt(s: string, a: nat, b: nat)
    requires a <= b <= |s|
  {
    1 + Depth(s, a, b) == 0 && forall j :: a <= j < b ==> 1 + Depth(s, a, j) > 0
  }

  /** The scan that follows a match `name!(`. */
  method ScanCall(sql: string, end: nat) returns (i: nat, closed: bool)
    requires end <= |sql|
    ensures end <= i <= |sql|
    ensures closed ==> ClosesAt(sql, end, i) && i > end && sql[i - 1] == ')'
    ensures !closed ==> forall j :: end <= j <= |sql| ==> 1 + Depth(sql, end, j) > 0
  {
    i := end;
    var paren := 1;
    while i < |sql| && paren > 0
      invariant end <= i <= |sql| && paren == 1 + Depth(sql, end, i) >= 0
      invariant forall j :: end <= j < i ==> 1 + Depth(sql, end, j) > 0
      invariant paren == 0 ==> i > end && sql[i - 1] == ')'
    {
      if sql[i] == '(' {
        paren := paren + 1;
      } else if sql[i] == ')' {
        paren := paren - 1;
      }
      i := i + 1;
    }
    closed := paren == 0;
  }

  // ----- macros out and in

  /** Put the macro texts in place of their placeholders, all at once. */
  function Expand(t: Text, macros: seq<string>): Text {
    if t == [] then []
    else (if t[0].Placeholder? && t[0].k < |macros| then Chars(macros[t[0].k]) else [t[0]]) + Expand(t[1..], macros)
  }

  lemma {:induction false} ExpandConcat(a: Text, b: Text, macros: seq<string>)
    ensures Expand(a + b, macros) == Expand(a, macros) + Expand(b, macros)
  {
    if a == [] {
      assert a + b == b;
    } else {
      assert (a + b)[1..] == a[1..] + b;
      ExpandConcat(a[1..], b, macros);
    }
  }

  lemma {:induction false} ExpandChars(s: string, macros: seq<string>)
    ensures Expand(Chars(s), macros) == Chars(s)
  {
    if s != [] {
      assert Chars(s)[1..] == Chars(s[1..]);
      ExpandChars(s[1..], macros);
    }
  }

  /** Every placeholder in the text has a macro. */
  predicate Covered(t: Text, n: nat) {
    forall i :: 0 <= i < |t| && t[i].Placeholder? ==> t[i].k < n
  }

  lemma ExpandOne(x: Token, macros: seq<string>)
    ensures Expand([x], macros) == if x.Placeholder? && x.k < |macros| then Chars(macros[x.k]) else [x]
  {
    assert [x][1..] == [] && Expand([], macros) == [];
  }

  lemma ReplacedKeeps(t: Text, rest': Text, macros: seq<string>, m: string)
    requires |t| >= |m| && t[..|m|] == Chars(m)
    requires Expand(rest', macros + [m]) == Expand(t[|m|..], macros)
    ensures Expand([Placeholder(|macros|)] + rest', macros + [m]) == Expand(t, macros)
  {
    assert t == Chars(m) + t[|m|..];
    ExpandConcat(Chars(m), t[|m|..], macros);
    ExpandChars(m, macros);
    ExpandConcat([Placeholder(|macros|)], rest', macros + [m]);
    ExpandOne(Placeholder(|macros|), macros + [m]);
  }

  lemma PassedKeeps(t: Text, rest': Text, macros: seq<string>, m: string)
    requires t != [] && Covered(t, |macros|)
    requires Expand(rest', macros + [m]) == Expand(t[1..], macros)
    ensures Expand([t[0]] + rest', macros + [m]) == Expand(t, macros)
  {
    ExpandConcat([t[0]], rest', macros + [m]);
    ExpandOne(t[0], macros + [m]);
  }

  lemma {:induction false} ReplaceCovers(t: Text, m: string, n: nat)
    requires m != "" && Covered(t, n)
    ensures Covered(Replace(t, Chars(m), [Placeholder(n)]), n + 1)
    decreases |t|
  {
    var pat := Chars(m);
    if |t| >= |pat| {
      ReplaceCovers(if t[..|pat|] == pat then t[|pat|..] else t[1..], m, n);
    }
  }

  /** One replacement more or less does not change what the text expands to. */
  lemma {:induction false} ReplaceKeepsExpansion(t: Text, macros: seq<string>, m: string)
    requires m != "" && Covered(t, |macros|)
    ensures Expand(Replace(t, Chars(m), [Placeholder(|macros|)]), macros + [m]) == Expand(t, macros)
    decreases |t|
  {
    var pat, rep := Chars(m), [Placeholder(|macros|)];
    if |t| < |pat| {
      ExpandMore(t, macros, m);
    } else if t[..|pat|] == pat {
      ReplaceKeepsExpansion(t[|pat|..], macros, m);
      ReplacedKeeps(t, Replace(t[|pat|..], pat, rep), macros, m);
    } else {
      ReplaceKeepsExpansion(t[1..], macros, m);
      PassedKeeps(t, Replace(t[1..], pat, rep), macros, m);
    }
  }

  lemma {:induction false} ExpandMore(t: Text, macros: seq<string>, m: string)
    requires Covered(t, |macros|)
    ensures Expand(t, macros + [m]) == Expand(t, macros)
  {
    if t != [] {
      ExpandMore(t[1..], macros, m);
    }
  }

  /** A match of the regular expression: a name, an exclamation mark, and a parenthesis at the end. */
  predicate IsMatch(sql: string, span: (nat, nat)) {
    span.0 < span.1 <= |sql| && sql[span.1 - 1] == '('
  }

  /** `macros` lists the calls of the matches that close, in order, each up to its closing parenthesis. */
  ghost predicate AreCalls(sql: string, matches: seq<(nat, nat)>, macros: seq<string>)
    requires forall i :: 0 <= i < |matches| ==> IsMatch(sql, matches[i])
    decreases |matches|
  {
    if matches == [] then macros == []
    else
      var (start, end) := matches[|matches| - 1];
      assert IsMatch(sql, matches[|matches| - 1]);
      var earlier := matches[..|matches| - 1];
      if forall b :: end <= b <= |sql| ==> !ClosesAt(sql, end, b) then AreCalls(sql, earlier, macros)
      else
        macros != [] && AreCalls(sql, earlier, macros[..|macros| - 1]) &&
        exists b :: end <= b <= |sql| && ClosesAt(sql, end, b) && macros[|macros| - 1] == sql[start..b]
  }

  lemma CallAppends(sql: string, matches: seq<(nat, nat)>, n: nat, macros: seq<string>, b: nat)
    requires n < |matches| && forall i :: 0 <= i < |matches| ==> IsMatch(sql, matches[i])
    requires AreCalls(sql, matches[..n], macros) && IsMatch(sql, matches[n])
    requires matches[n].1 <= b <= |sql| && ClosesAt(sql, matches[n].1, b)
    ensures AreCalls(sql, matches[..n + 1], macros + [sql[matches[n].0..b]])
  {
    assert matches[..n + 1][..n] == matches[..n];
    var longer := macros + [sql[matches[n].0..b]];
    assert longer[..|longer| - 1] == macros;
  }

  lemma OpenCallSkipped(sql: string, matches: seq<(nat, nat)>, n: nat, macros: seq<string>)
    requires n < |matches| && forall i :: 0 <= i < |matches| ==> IsMatch(sql, matches[i])
    requires AreCalls(sql, matches[..n], macros)
    requires forall j :: matches[n].1 <= j <= |sql| ==> 1 + Depth(sql, matches[n].1, j) > 0
    ensures AreCalls(sql, matches[..n + 1], macros)
  {
    assert matches[..n + 1][..n] == matches[..n];
  }

  /** The text after the first `n` macros have been taken out of it. */
  function Taken(sql: string, macros: seq<string>, n: nat): Text
    requires n <= |macros| && forall k :: 0 <= k < |macros| ==> macros[k] != ""
  {
    if n == 0 then Chars(sql) else Replace(Taken(sql, macros, n - 1), Chars(macros[n - 1]), [Placeholder(n - 1)])
  }

  /** Taking macros out does not change what the text expands to. */
  lemma {:induction false} TakenExpands(sql: string, macros: seq<string>, n: nat)
    requires n <= |macros| && forall k :: 0 <= k < |macros| ==> macros[k] != ""
    ensures Covered(Taken(sql, macros, n), n) && Expand(Taken(sql, macros, n), macros[..n]) == Chars(sql)
  {
    if n == 0 {
      ExpandChars(sql, []);
    } else {
      TakenExpands(sql, macros, n - 1);
      ReplaceKeepsExpansion(Taken(sql, macros, n - 1), macros[..n - 1], macros[n - 1]);
      ReplaceCovers(Taken(sql, macros, n - 1), macros[n - 1], n - 1);
      assert macros[..n - 1] + [macros[n - 1]] == macros[..n];
    }
  }

  /** Expansion of the first `n` placeholders only: the state of the restoring loop. */
  function ExpandFirst(t: Text, macros: seq<string>, n: nat): Text
    requires n <= |macros|
  {
    Expand(t, macros[..n])
  }

  lemma {:induction false} ReplaceOneConcat(a: Text, b: Text, x: Token, rep: Text)
    ensures Replace(a + b, [x], rep) == Replace(a, [x], rep) + Replace(b, [x], rep)
  {
    if a == [] {
      assert a + b == b;
    } else {
      assert (a + b)[1..] == a[1..] + b && (a + b)[..1] == a[..1];
      ReplaceOneConcat(a[1..], b, x, rep);
    }
  }

  lemma {:induction false} ReplaceInChars(s: string, k: nat, rep: Text)
    ensures Replace(Chars(s), [Placeholder(k)], rep) == Chars(s)
  {
    if s != [] {
      assert Chars(s)[1..] == Chars(s[1..]);
      assert Chars(s)[..1][0] == Char(s[0]);
      ReplaceInChars(s[1..], k, rep);
    }
  }

  /** Restoring one more macro expands one more placeholder. */
  lemma {:induction false} RestoreStep(t: Text, macros: seq<string>, n: nat)
    requires n < |macros|
    ensures Replace(ExpandFirst(t, macros, n), [Placeholder(n)], Chars(macros[n])) == ExpandFirst(t, macros, n + 1)
  {
    if t != [] {
      var rep := Chars(macros[n]);
      RestoreStep(t[1..], macros, n);
      var head := if t[0].Placeholder? && t[0].k < n then Chars(macros[t[0].k]) else [t[0]];
      ReplaceOneConcat(head, ExpandFirst(t[1..], macros, n), Placeholder(n), rep);
      if t[0].Placeholder? && t[0].k < n {
        ReplaceInChars(macros[t[0].k], n, rep);
      } else if t[0] == Placeholder(n) {
        assert [t[0]][..1] == [Placeholder(n)] && [t[0]][1..] == [];
        assert rep + Replace([], [Placeholder(n)], rep) == rep;
      } else {
        assert [t[0]][..1] == [t[0]] && [t[0]][1..] == [];
      }
    }
  }

  lemma {:induction false} ExpandNone(t: Text)
    ensures Expand(t, []) == t
  {
    if t != [] {
      ExpandNone(t[1..]);
    }
  }

  /** What has been expanded in part expands to the same in full. */
  lemma {:induction false} ExpandAgain(t: Text, macros: seq<string>, n: nat)
    requires n <= |macros|
    ensures Expand(ExpandFirst(t, macros, n), macros) == Expand(t, macros)
  {
    if t != [] {
      ExpandAgain(t[1..], macros, n);
      var head := if t[0].Placeholder? && t[0].k < n then Chars(macros[t[0].k]) else [t[0]];
      ExpandConcat(head, ExpandFirst(t[1..], macros, n), macros);
      if t[0].Placeholder? && t[0].k < n {
        ExpandChars(macros[t[0].k], macros);
      } else {
        assert [t[0]][1..] == [];
      }
    }
  }

  /** The text after the first `n` macros have been restored in it. */
  function Restored(t: Text, macros: seq<string>, n: nat): Text
    requires n <= |macros|
  {
    if n == 0 then t else Replace(Restored(t, macros, n - 1), [Placeholder(n - 1)], Chars(macros[n - 1]))
  }

  lemma {:induction false} RestoredExpands(t: Text, macros: seq<string>, n: nat)
    requires n <= |macros|
    ensures Restored(t, macros, n) == ExpandFirst(t, macros, n)
  {
    if n == 0 {
      ExpandNone(t);
      assert macros[..0] == [];
    } else {
      RestoredExpands(t, macros, n - 1);
      var u := ExpandFirst(t, macros, n - 1);
      assert Restored(t, macros, n) == Replace(u, [Placeholder(n - 1)], Chars(macros[n - 1]));
      RestoreStep(t, macros, n - 1);
    }
  }

  /** Over tokens, taking any texts out of the SQL and putting them back is the identity. */
  lemma TokenRoundTrip(sql: string, macros: seq<string>)
    requires forall k :: 0 <= k < |macros| ==> macros[k] != ""
    ensures Restored(Taken(sql, macros, |macros|), macros, |macros|) == Chars(sql)
  {
    TakenExpands(sql, macros, |macros|);
    RestoredExpands(Taken(sql, macros, |macros|), macros, |macros|);
    assert macros[..|macros|] == macros;
  }
}

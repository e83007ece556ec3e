/** Python's `str.replace`, and decimal numbers. */
module Texts {
  /** Python's `str.replace`: leftmost occurrences first, not overlapping. */
  function Replace<T(==)>(t: seq<T>, pat: seq<T>, rep: seq<T>): seq<T>
    requires pat != []
  {
    if |t| < |pat| then t
    else if t[..|pat|] == pat then rep + Replace(t[|pat|..], pat, rep)
    else [t[0]] + Replace(t[1..], pat, rep)
  }

  lemma Joins<T>(a: seq<T>, b: seq<T>, c: seq<T>)
    ensures a + (b + c) == (a + b) + c
  {
  }

  predicate StartsWith(s: string, w: string) {
    |s| >= |w| && s[..|w|] == w
  }

  predicate Contains(s: string, w: string) {
    exists p :: 0 <= p <= |s| && StartsWith(s[p..], w)
  }

  /** The pattern starts nowhere in the first `n` characters. */
  predicate NoMatch(s: string, n: nat, pat: string)
    requires n <= |s|
  {
    forall p :: 0 <= p < n ==> !StartsWith(s[p..], pat)
  }

  /** Where nothing starts with the pattern, nothing is replaced. */
  lemma {:induction false} ReplaceSkips(s: string, n: nat, pat: string, rep: string)
    requires pat != "" && n <= |s| && NoMatch(s, n, pat)
    ensures Replace(s, pat, rep) == s[..n] + Replace(s[n..], pat, rep)
  {
    if n == 0 {
      assert s[0..] == s;
    } else if |s| < |pat| {
      assert s == s[..n] + s[n..];
    } else {
      assert !StartsWith(s[0..], pat) && s[0..] == s;
      forall p | 0 <= p < n - 1 ensures !StartsWith(s[1..][p..], pat) {
        assert s[1..][p..] == s[p + 1..];
      }
      ReplaceSkips(s[1..], n - 1, pat, rep);
      PrefixJoins(s, n, Replace(s[n..], pat, rep));
    }
  }

  lemma PrefixJoins(s: string, n: nat, rest: string)
    requires 0 < n <= |s|
    ensures [s[0]] + (s[1..][..n - 1] + rest) == s[..n] + rest && s[1..][n - 1..] == s[n..]
  {
  }

  lemma ReplaceFront(pat: string, b: string, rep: string)
    requires pat != ""
    ensures Replace(pat + b, pat, rep) == rep + Replace(b, pat, rep)
  {
    assert (pat + b)[..|pat|] == pat && (pat + b)[|pat|..] == b;
  }

  /** The first start of the pattern. */
  lemma FirstPlace(s: string, pat: string, h: nat) returns (n: nat)
    requires h <= |s| && StartsWith(s[h..], pat)
    ensures n <= h && NoMatch(s, n, pat) && StartsWith(s[n..], pat)
  {
    n := 0;
    while !StartsWith(s[n..], pat)
      invariant n <= h && NoMatch(s, n, pat)
      decreases h - n
    {
      n := n + 1;
    }
  }

  lemma ReplaceFirst(s: string, n: nat, pat: string, rest: string, rep: string)
    requires pat != "" && n <= |s| && NoMatch(s, n, pat) && s[n..] == pat + rest
    ensures Replace(s, pat, rep) == s[..n] + (rep + Replace(rest, pat, rep))
  {
    ReplaceSkips(s, n, pat, rep);
    ReplaceFront(pat, rest, rep);
  }

  predicate IsDigit(c: char) {
    '0' <= c <= '9'
  }

  function Decimal(n: nat): (s: string)
    ensures s != "" && forall i :: 0 <= i < |s| ==> IsDigit(s[i])
  {
    if n < 10 then [('0' as int + n) as char] else Decimal(n / 10) + [('0' as int + n % 10) as char]
  }

  /** The number that digits spell. */
  function Value(s: string): int {
    if s == "" then 0 else Value(s[..|s| - 1]) * 10 + (s[|s| - 1] as int - '0' as int)
  }

  lemma {:induction false} DecimalValue(n: nat)
    ensures Value(Decimal(n)) == n
  {
    if n < 10 {
      assert Decimal(n)[..0] == "";
    } else {
      DecimalValue(n / 10);
      assert Decimal(n)[..|Decimal(n)| - 1] == Decimal(n / 10);
    }
  }

  /** A number between a fixed front and two bars. */
  function Numbered(front: string, n: nat): string {
    front + (Decimal(n) + "__")
  }

  /** It is determined by how it begins: no other one, whatever follows it, starts like it. */
  lemma NumbersDiffer(front: string, n: nat, j: nat, rest: string)
    requires StartsWith(Numbered(front, j) + rest, Numbered(front, n))
    ensures n == j
  {
    var a, b, f := Decimal(n), Decimal(j), |front|;
    var r, m := Numbered(front, j) + rest, Numbered(front, n);
    assert forall i :: 0 <= i < |m| ==> r[i] == r[..|m|][i] == m[i];
    assert forall i :: 0 <= i < |a| ==> m[f + i] == a[i];
    assert forall i :: 0 <= i < |b| ==> r[f + i] == b[i];
    assert m[f + |a|] == '_' && r[f + |b|] == '_';
    assert |a| == |b|;
    assert a == b;
    DecimalValue(n);
    DecimalValue(j);
  }

  /** A text that does not start with the pattern keeps its first character. */
  lemma ReplaceAfter(s: string, pat: string, rep: string)
    requires pat != "" && s != "" && !StartsWith(s, pat)
    ensures Replace(s, pat, rep) == [s[0]] + Replace(s[1..], pat, rep)
  {
    if |s| < |pat| {
      assert s == [s[0]] + s[1..];
    }
  }

  lemma ReplaceAbsent(s: string, pat: string, rep: string)
    requires pat != "" && !Contains(s, pat)
    ensures Replace(s, pat, rep) == s
  {
    ReplaceSkips(s, |s|, pat, rep);
    assert s[..|s|] + s[|s|..] == s;
  }

  /** A pattern without the character `c` is replaced on each side of it on its own. */
  lemma {:induction false} ReplaceAcross(l: string, c: char, s: string, pat: string, rep: string)
    requires pat != "" && c !in pat
    ensures Replace(l + ([c] + s), pat, rep) == Replace(l, pat, rep) + ([c] + Replace(s, pat, rep))
    decreases |l|
  {
    if StartsWith(l, pat) {
      ReplaceAcross(l[|pat|..], c, s, pat, rep);
      FrontAcross(l, [c] + s, pat, rep);
    } else {
      NoMatchAcross(l, c, s, pat);
      if l == "" {
        EmptyAcross(c, s, pat, rep);
      } else {
        ReplaceAcross(l[1..], c, s, pat, rep);
        AfterAcross(l, [c] + s, pat, rep);
      }
    }
  }

  lemma EmptyAcross(c: char, s: string, pat: string, rep: string)
    requires pat != "" && !StartsWith("" + ([c] + s), pat)
    ensures Replace("" + ([c] + s), pat, rep) == Replace("", pat, rep) + ([c] + Replace(s, pat, rep))
  {
    var t := [c] + s;
    assert "" + t == t && t[1..] == s;
    ReplaceAfter(t, pat, rep);
    assert Replace("", pat, rep) == "";
  }

  lemma FrontAcross(l: string, t: string, pat: string, rep: string)
    requires pat != "" && StartsWith(l, pat)
    ensures Replace(l, pat, rep) == rep + Replace(l[|pat|..], pat, rep)
    ensures Replace(l + t, pat, rep) == rep + Replace(l[|pat|..] + t, pat, rep)
  {
    assert l == pat + l[|pat|..];
    ReplaceFront(pat, l[|pat|..], rep);
    assert l + t == pat + (l[|pat|..] + t);
    ReplaceFront(pat, l[|pat|..] + t, rep);
  }

  lemma AfterAcross(l: string, t: string, pat: string, rep: string)
    requires pat != "" && l != "" && !StartsWith(l, pat) && !StartsWith(l + t, pat)
    ensures Replace(l, pat, rep) == [l[0]] + Replace(l[1..], pat, rep)
    ensures Replace(l + t, pat, rep) == [l[0]] + Replace(l[1..] + t, pat, rep)
  {
    ReplaceAfter(l, pat, rep);
    ReplaceAfter(l + t, pat, rep);
    assert (l + t)[1..] == l[1..] + t;
  }

  lemma NoMatchAcross(l: string, c: char, s: string, pat: string)
    requires pat != "" && c !in pat && !StartsWith(l, pat)
    ensures !StartsWith(l + ([c] + s), pat)
  {
    var t := l + ([c] + s);
    if |l| < |pat| {
      assert |t| >= |pat| ==> t[..|pat|][|l|] == t[|l|] == c;
      assert pat[|l|] in pat;
    } else {
      assert t[..|pat|] == l[..|pat|];
    }
  }
}

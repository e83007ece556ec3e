/** Python's `str.strip`. */
module Strings {
  predicate IsSpace(c: char) {
    c in {' ', '\t', '\n', '\r', '\U{B}', '\U{C}'}
  }

  function LStrip(s: string): string {
    if s != [] && IsSpace(s[0]) then LStrip(s[1..]) else s
  }

  function RStrip(s: string): string {
    if s == [] then []
    else
      var rest := RStrip(s[1..]);
      if rest == [] && IsSpace(s[0]) then [] else [s[0]] + rest
  }

  function Strip(s: string): string {
    RStrip(LStrip(s))
  }

  predicate AllSpace(s: string) {
    forall i :: 0 <= i < |s| ==> IsSpace(s[i])
  }

  lemma {:induction false} StripsCommute(s: string)
    ensures LStrip(RStrip(s)) == RStrip(LStrip(s))
  {
    if s != [] {
      StripsCommute(s[1..]);
      assert ([s[0]] + RStrip(s[1..]))[1..] == RStrip(s[1..]);
    }
  }

  lemma {:induction false} LStripTwice(s: string)
    ensures LStrip(LStrip(s)) == LStrip(s)
  {
    if s != [] && IsSpace(s[0]) {
      LStripTwice(s[1..]);
    }
  }

  lemma {:induction false} RStripTwice(s: string)
    ensures RStrip(RStrip(s)) == RStrip(s)
  {
    if s != [] {
      RStripTwice(s[1..]);
      assert ([s[0]] + RStrip(s[1..]))[1..] == RStrip(s[1..]);
    }
  }

  /** Stripping one end first does not change what is left after stripping both. */
  lemma StripAfterStrip(s: string)
    ensures Strip(LStrip(s)) == Strip(s) && Strip(RStrip(s)) == Strip(s)
  {
    LStripTwice(s);
    StripsCommute(s);
    StripsCommute(LStrip(s));
    RStripTwice(LStrip(s));
  }

  lemma StripTwice(s: string)
    ensures Strip(Strip(s)) == Strip(s)
  {
    StripAfterStrip(LStrip(s));
    StripAfterStrip(s);
  }

  lemma {:induction false} LStripCuts(s: string) returns (n: nat)
    ensures n <= |s| && AllSpace(s[..n]) && LStrip(s) == s[n..]
    ensures LStrip(s) != [] ==> !IsSpace(LStrip(s)[0])
  {
    if s != [] && IsSpace(s[0]) {
      var m := LStripCuts(s[1..]);
      n := m + 1;
      assert s[1..][m..] == s[n..];
      forall i | 0 <= i < n ensures IsSpace(s[i]) {
        if i > 0 {
          assert s[1..][..m][i - 1] == s[i];
        }
      }
    } else {
      n := 0;
    }
  }

  lemma {:induction false} RStripCuts(s: string)
    ensures |RStrip(s)| <= |s| && RStrip(s) == s[..|RStrip(s)|] && AllSpace(s[|RStrip(s)|..])
    ensures RStrip(s) != [] ==> !IsSpace(RStrip(s)[|RStrip(s)| - 1])
  {
    if s != [] {
      RStripCuts(s[1..]);
      var n := |RStrip(s[1..])|;
      if RStrip(s) != [] {
        assert s[n + 1..] == s[1..][n..];
      } else {
        assert s[1..][n..] == s[1..];
        forall i | 0 < i < |s| ensures IsSpace(s[i]) {
          assert s[1..][i - 1] == s[i];
        }
      }
    }
  }

  /** `p` lies in `s` between white space. */
  ghost predicate Surrounded(s: string, p: string) {
    exists before, after :: s == before + p + after && AllSpace(before) && AllSpace(after)
  }

  /** Not empty, and without white space at its ends. */
  predicate Tight(p: string) {
    p != "" && !IsSpace(p[0]) && !IsSpace(p[|p| - 1])
  }

  /** Only white space goes, at both ends, and all of it. */
  lemma StripIsTight(s: string)
    ensures Surrounded(s, Strip(s)) && (Strip(s) != "" ==> Tight(Strip(s)))
  {
    var a := LStripCuts(s);
    RStripCuts(s[a..]);
    var b := a + |Strip(s)|;
    assert s[a..][|Strip(s)|..] == s[b..];
    assert s == s[..a] + Strip(s) + s[b..];
  }

  /** Nothing is left exactly when all is white space. */
  lemma StripEmpty(s: string)
    ensures Strip(s) == "" <==> AllSpace(s)
  {
    StripIsTight(s);
    var before, after :| s == before + Strip(s) + after && AllSpace(before) && AllSpace(after);
    if Strip(s) == "" {
      assert forall i :: 0 <= i < |s| ==> s[i] == if i < |before| then before[i] else after[i - |before|];
    } else {
      assert s[|before|] == Strip(s)[0];
    }
  }

  lemma {:induction false} LStripConcat(a: string, b: string)
    ensures LStrip(a + b) == if LStrip(a) == "" then LStrip(b) else LStrip(a) + b
  {
    if a == "" {
      assert a + b == b;
    } else {
      assert (a + b)[1..] == a[1..] + b;
      LStripConcat(a[1..], b);
    }
  }

  lemma {:induction false} RStripConcat(a: string, b: string)
    ensures RStrip(a + b) == if RStrip(b) == "" then RStrip(a) else a + RStrip(b)
  {
    if a == "" {
      assert a + b == b;
      assert RStrip(b) != "" ==> a + RStrip(b) == RStrip(b);
    } else {
      assert (a + b)[1..] == a[1..] + b;
      RStripConcat(a[1..], b);
      assert [a[0]] + (a[1..] + RStrip(b)) == a + RStrip(b);
    }
  }

  lemma RStripTight(s: string)
    requires s != "" && !IsSpace(s[|s| - 1])
    ensures RStrip(s) == s
  {
    RStripCuts(s);
    assert s == RStrip(s) + s[|RStrip(s)|..];
  }

  lemma LStripBlank(s: string)
    requires AllSpace(s)
    ensures LStrip(s) == "" && RStrip(s) == ""
  {
    var n := LStripCuts(s);
    RStripCuts(s);
  }
}

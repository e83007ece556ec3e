/** Enumeration and sorting of branch names, as Python's sets and `sorted` provide them. */
module Names {
  import opened Wrappers
  import opened Chains

  /** Code point order on strings, as Python compares them. */
  predicate Before(a: string, b: string) {
    if a == [] then true
    else if b == [] then false
    else if a[0] == b[0] then Before(a[1..], b[1..])
    else a[0] < b[0]
  }

  lemma {:induction false} BeforeTotal(a: string, b: string)
    ensures Before(a, b) || Before(b, a)
  {
    if a != [] && b != [] {
      BeforeTotal(a[1..], b[1..]);
    }
  }

  lemma {:induction false} BeforeTransitive(a: string, b: string, c: string)
    requires Before(a, b) && Before(b, c)
    ensures Before(a, c)
  {
    if a != [] && b != [] && c != [] {
      if a[0] == b[0] == c[0] {
        BeforeTransitive(a[1..], b[1..], c[1..]);
      }
    }
  }

  predicate Ascending(s: seq<string>) {
    forall i, j :: 0 <= i < j < |s| ==> Before(s[i], s[j])
  }

  function Insert(b: string, s: seq<string>): seq<string> {
    if s == [] then [b]
    else if Before(b, s[0]) then [b] + s
    else [s[0]] + Insert(b, s[1..])
  }

  lemma {:induction false} InsertAdds(b: string, s: seq<string>)
    ensures multiset(Insert(b, s)) == multiset(s) + multiset{b}
    ensures forall x :: x in Insert(b, s) ==> x == b || x in s
  {
    if s != [] {
      assert s == [s[0]] + s[1..];
      InsertAdds(b, s[1..]);
    }
  }

  lemma {:induction false} InsertKeepsAscending(b: string, s: seq<string>)
    requires Ascending(s)
    ensures Ascending(Insert(b, s))
  {
    if s != [] {
      if Before(b, s[0]) {
        forall i | 0 < i < |s| ensures Before(b, s[i]) {
          BeforeTransitive(b, s[0], s[i]);
        }
      } else {
        BeforeTotal(b, s[0]);
        InsertKeepsAscending(b, s[1..]);
        InsertAdds(b, s[1..]);
        forall x | x in s[1..] ensures Before(s[0], x) {
          var i :| 0 <= i < |s[1..]| && s[1..][i] == x;
          assert s[i + 1] == x;
        }
      }
    }
  }

  /** Python's `sorted` on a list of names. */
  function SortNames(s: seq<string>): (r: seq<string>)
    ensures Ascending(r)
    ensures multiset(r) == multiset(s)
  {
    if s == [] then []
    else
      var rest := SortNames(s[1..]);
      assert s == [s[0]] + s[1..];
      InsertAdds(s[0], rest);
      InsertKeepsAscending(s[0], rest);
      Insert(s[0], rest)
  }

  lemma SortNamesKeepsMembers(s: seq<string>)
    ensures forall b :: b in SortNames(s) <==> b in s
    ensures Distinct(s) ==> Distinct(SortNames(s))
  {
    var r := SortNames(s);
    assert forall b :: b in r <==> b in multiset(r);
    assert forall b :: b in s <==> b in multiset(s);
    if Distinct(s) {
      forall i, j | 0 <= i < j < |r| ensures r[i] != r[j] {
        if r[i] == r[j] {
          CountedTwice(r, i, j);
          CountedOnce(s, r[i]);
          assert false;
        }
      }
    }
  }

  lemma CountedTwice(r: seq<string>, i: nat, j: nat)
    requires i < j < |r| && r[i] == r[j]
    ensures multiset(r)[r[i]] >= 2
  {
    assert r == r[..j] + r[j..];
    assert r[i] == r[..j][i] && r[j] == r[j..][0];
  }

  lemma {:induction false} CountedOnce(s: seq<string>, b: string)
    requires Distinct(s)
    ensures multiset(s)[b] <= 1
  {
    if s != [] {
      assert s == [s[0]] + s[1..];
      CountedOnce(s[1..], b);
      if b == s[0] {
        assert b !in s[1..];
        assert b !in multiset(s[1..]);
      }
    }
  }

  /** The elements of a set in some order: Python fixes none. */
  method AnyOrder(S: set<Branch>) returns (s: seq<Branch>)
    ensures Distinct(s)
    ensures forall b :: b in s <==> b in S
  {
    s := [];
    var todo := S;
    while todo != {}
      invariant todo <= S
      invariant forall b :: b in s <==> b in S - todo
      invariant Distinct(s)
    {
      var b :| b in todo;
      assert b !in s;
      s := s + [b];
      todo := todo - {b};
    }
  }

  lemma MembersGrow(s: seq<Branch>, i: nat)
    requires i < |s|
    ensures Members(s[..i + 1]) == Members(s[..i]) + {s[i]}
  {
    assert s[..i + 1] == s[..i] + [s[i]];
  }

  lemma MembersOfAll(s: seq<Branch>)
    ensures Members(s[..|s|]) == Members(s)
  {
    assert s[..|s|] == s;
  }

  lemma PrefixGrows(s: seq<Branch>, i: nat)
    requires Distinct(s) && i < |s|
    ensures s[i] in Members(s) && s[i] !in Members(s[..i])
    ensures Members(s[..i + 1]) == Members(s[..i]) + {s[i]}
  {
    assert s[..i + 1] == s[..i] + [s[i]];
  }

  lemma {:induction false} DistinctSize(s: seq<Branch>)
    requires Distinct(s)
    ensures |Members(s)| == |s|
  {
    if s != [] {
      var rest := s[..|s| - 1];
      DistinctSize(rest);
      assert Members(s) == Members(rest) + {s[|s| - 1]};
    }
  }
}

/** The pigeonhole principle for sequences of n numbers below n, in both directions. */
module Pigeonhole {

  ghost function Below(n: nat): set<nat> {
    if n == 0 then {} else Below(n - 1) + {n - 1}
  }

  lemma {:induction false} BelowFacts(n: nat)
    ensures |Below(n)| == n && forall i: nat :: i in Below(n) <==> i < n
  {
    if n > 0 {
      BelowFacts(n - 1);
    }
  }

  ghost function Elements(s: seq<nat>): set<nat> {
    set x | x in s
  }

  ghost predicate AllDifferent(s: seq<nat>) {
    forall i, j :: 0 <= i < j < |s| ==> s[i] != s[j]
  }

  lemma {:induction false} ElementsSize(s: seq<nat>)
    ensures |Elements(s)| <= |s|
    ensures AllDifferent(s) ==> |Elements(s)| == |s|
  {
    if s != [] {
      var r := s[..|s| - 1];
      ElementsSize(r);
      assert s == r + [s[|s| - 1]];
      assert Elements(s) == Elements(r) + {s[|s| - 1]};
    }
  }

  lemma SubsetOfSameSize<T>(x: set<T>, y: set<T>)
    requires x <= y && |x| == |y|
    ensures x == y
  {
    assert y == x + (y - x);
    assert |y - x| == 0;
  }

  lemma DifferentMeansAll(s: seq<nat>, j: nat)
    requires AllDifferent(s) && (forall x :: x in s ==> x < |s|) && j < |s|
    ensures j in s
  {
    ElementsSize(s);
    BelowFacts(|s|);
    assert Elements(s) <= Below(|s|);
    SubsetOfSameSize(Elements(s), Below(|s|));
    assert j in Elements(s);
  }

  lemma RepeatMeansMissing(s: seq<nat>, t: nat, u: nat) returns (j: nat)
    requires t < u < |s| && s[t] == s[u]
    ensures j < |s| && j !in s
  {
    var r := s[..u] + s[u + 1..];
    assert Elements(s) == Elements(r) by {
      assert s == s[..u] + [s[u]] + s[u + 1..];
      assert s[t] in s[..u];
    }
    ElementsSize(r);
    BelowFacts(|s|);
    assert Below(|s|) - Elements(s) != {} by {
      NotSubset(Below(|s|), Elements(s));
    }
    j :| j in Below(|s|) - Elements(s);
  }

  lemma NotSubset<T>(x: set<T>, y: set<T>)
    requires |y| < |x|
    ensures x - y != {}
  {
    assert x == (x - y) + (x * y);
    assert y == (y - x) + (x * y);
  }
}

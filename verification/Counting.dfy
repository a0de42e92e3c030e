/** How many different numbers fit below a bound. */
module Counting {

  ghost predicate AllDifferent(s: seq<int>) {
    forall i, j :: 0 <= i < j < |s| ==> s[i] != s[j]
  }

  ghost function Numbers(n: nat): (r: set<int>)
    ensures |r| == n && forall x :: x in r <==> 0 <= x < n
  {
    if n == 0 then {} else Numbers(n - 1) + {n - 1}
  }

  ghost function Members(s: seq<int>): (r: set<int>)
    ensures forall x :: x in r <==> x in s
  {
    if s == [] then {} else Members(s[1..]) + {s[0]}
  }

  lemma {:induction false} MembersSize(s: seq<int>)
    requires AllDifferent(s)
    ensures |Members(s)| == |s|
  {
    if s != [] {
      MembersSize(s[1..]);
      assert s[0] !in Members(s[1..]);
    }
  }

  lemma {:induction false} SubsetSize<T>(a: set<T>, b: set<T>)
    requires a <= b
    ensures |a| <= |b|
  {
    if a != {} {
      var x :| x in a;
      assert x in b;
      SubsetSize(a - {x}, b - {x});
    }
  }

  /** Different numbers below n that miss one of them are fewer than n. */
  lemma Pigeonhole(s: seq<int>, n: nat, missing: int)
    requires AllDifferent(s) && 0 <= missing < n && missing !in s
    requires forall i :: 0 <= i < |s| ==> 0 <= s[i] < n
    ensures |s| < n
  {
    MembersSize(s);
    SubsetSize(Members(s), Numbers(n) - {missing});
  }
}

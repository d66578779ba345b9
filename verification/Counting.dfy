/** Sizes of sets of numbers, and sequences without repetition. */
module Counting {

  ghost function Interval(a: int, b: int): (s: set<int>)
    ensures forall q :: q in s <==> a <= q <= b
    decreases b - a + 1
  {
    if a > b then {} else Interval(a, b - 1) + {b}
  }

  lemma {:induction false} IntervalSize(a: int, b: int)
    requires a <= b + 1
    ensures |Interval(a, b)| == b - a + 1
    decreases b - a + 1
  {
    if a <= b {
      IntervalSize(a, b - 1);
    }
  }

  lemma SubsetSize(a: set<int>, b: set<int>)
    requires a <= b
    ensures |a| <= |b|
  {
    assert b == a + (b - a);
  }

  ghost predicate NoRepeat(s: seq<int>) {
    forall i, j :: 0 <= i < j < |s| ==> s[i] != s[j]
  }

  ghost function Count(s: seq<int>, x: int): nat {
    multiset(s)[x]
  }

  lemma {:induction false} NoRepeatCount(s: seq<int>)
    ensures NoRepeat(s) <==> forall x :: Count(s, x) <= 1
  {
    if s != [] {
      var n := |s| - 1;
      NoRepeatCount(s[..n]);
      assert s == s[..n] + [s[n]];
      assert forall x :: Count(s, x) == Count(s[..n], x) + (if x == s[n] then 1 else 0);
      assert Count(s[..n], s[n]) > 0 <==> s[n] in s[..n];
      if NoRepeat(s) {
        assert NoRepeat(s[..n]);
        assert s[n] !in s[..n];
      }
      if forall x :: Count(s, x) <= 1 {
        assert Count(s, s[n]) <= 1;
        assert s[n] !in s[..n];
        assert forall x :: Count(s[..n], x) <= Count(s, x);
        assert forall i :: 0 <= i < n ==> s[i] == s[..n][i];
      }
    }
  }

  lemma {:induction false} NoRepeatSize(s: seq<int>)
    requires NoRepeat(s)
    ensures |set x | x in s| == |s|
  {
    if s == [] {
      assert (set x | x in s) == {};
    } else {
      var n := |s| - 1;
      NoRepeatSize(s[..n]);
      assert s == s[..n] + [s[n]];
      assert (set x | x in s) == (set x | x in s[..n]) + {s[n]};
    }
  }

  /** Pigeonhole: distinct numbers between a and b are at most that many. */
  lemma Pigeonhole(s: seq<int>, a: int, b: int)
    requires NoRepeat(s) && a <= b + 1
    requires forall i :: 0 <= i < |s| ==> a <= s[i] <= b
    ensures |s| <= b - a + 1
  {
    NoRepeatSize(s);
    IntervalSize(a, b);
    SubsetSize((set x | x in s), Interval(a, b));
  }
}

/** The public operations of a number set: adding, membership, counting and
    enumeration. */
module NumSetOps {
  import opened Prelude
  import opened Counting
  import opened NumSet

  const MAX_UINT64: int := 0xFFFF_FFFF_FFFF_FFFF
  type uint64 = x: int | 0 <= x <= 0xFFFF_FFFF_FFFF_FFFF

  // ---------------------------------------------------------------------
  // Adding
  // ---------------------------------------------------------------------

  /** The ranges of `vs` inserted one after the other. */
  ghost function InsertedAll(s: seq<Range>, vs: seq<Range>): (r: seq<Range>)
    requires Canonical(s) && AllProper(vs)
    ensures Canonical(r)
    decreases |vs|
  {
    if vs == [] then
      s
    else
      var t := InsertedAll(s, vs[..|vs| - 1]);
      InsertedCanonical(t, vs[|vs| - 1]);
      Inserted(t, vs[|vs| - 1])
  }

  lemma MemberSnoc(vs: seq<Range>, q: nat)
    requires vs != []
    ensures Member(vs, q) <==> Member(vs[..|vs| - 1], q) || Has(vs[|vs| - 1], q)
  {
    var n := |vs| - 1;
    if Member(vs[..n], q) {
      var i :| 0 <= i < n && Has(vs[..n][i], q);
      assert Has(vs[i], q);
    }
    forall i | 0 <= i < n && Has(vs[i], q) ensures Member(vs[..n], q) {
      assert vs[..n][i] == vs[i];
    }
  }

  lemma {:induction false} InsertedAllMembers(s: seq<Range>, vs: seq<Range>, q: nat)
    requires Canonical(s) && AllProper(vs)
    ensures Member(InsertedAll(s, vs), q) <==> Member(s, q) || Member(vs, q)
    decreases |vs|
  {
    if vs != [] {
      var t := InsertedAll(s, vs[..|vs| - 1]);
      InsertedAllMembers(s, vs[..|vs| - 1], q);
      InsertedMembers(t, vs[|vs| - 1], q);
      MemberSnoc(vs, q);
    }
  }

  /** However the same numbers are grouped into ranges and in whatever order
      they are added, the list of ranges comes out identical. */
  lemma AddOrderIrrelevant(s: seq<Range>, vs: seq<Range>, t: seq<Range>, ws: seq<Range>)
    requires Canonical(s) && Canonical(t) && AllProper(vs) && AllProper(ws)
    requires forall q: nat :: Member(s, q) || Member(vs, q) <==> Member(t, q) || Member(ws, q)
    ensures InsertedAll(s, vs) == InsertedAll(t, ws)
  {
    forall q: nat ensures Member(InsertedAll(s, vs), q) <==> Member(InsertedAll(t, ws), q) {
      InsertedAllMembers(s, vs, q);
      InsertedAllMembers(t, ws, q);
    }
    CanonicalUnique(InsertedAll(s, vs), InsertedAll(t, ws));
  }

  /** The range AddRange stores for two bounds given in either order. */
  function Ordered(start: uint32, stop: uint32): (r: Range)
    ensures Proper(r)
    ensures Lo(r) == Min(Point(start), Point(stop)) && Hi(r) == Max(Point(start), Point(stop))
  {
    if (stop < start && stop != 0) || start == 0 then Range(stop, start) else Range(start, stop)
  }

  ghost function Singles(nums: seq<uint32>): (rs: seq<Range>)
    ensures AllProper(rs)
  {
    seq(|nums|, i requires 0 <= i < |nums| => Range(nums[i], nums[i]))
  }

  lemma SinglesMembers(nums: seq<uint32>, q: uint32)
    ensures Member(Singles(nums), q) <==> q in nums
  {
    forall i | 0 <= i < |nums| ensures Has(Singles(nums)[i], q) <==> q == nums[i] {
    }
  }

  lemma SinglesAdded(s: seq<Range>, nums: seq<uint32>)
    requires Canonical(s)
    ensures forall q: uint32 :: Member(InsertedAll(s, Singles(nums)), q) <==> Member(s, q) || q in nums
  {
    forall q: uint32 ensures Member(InsertedAll(s, Singles(nums)), q) <==> Member(s, q) || q in nums {
      InsertedAllMembers(s, Singles(nums), q);
      SinglesMembers(nums, q);
    }
  }

  /** A set variable: `*Set` in the source. */
  class Set {
    var ranges: seq<Range>

    constructor ()
      ensures ranges == []
    {
      ranges := [];
    }

    method AddNum(nums: seq<uint32>)
      requires Canonical(ranges)
      modifies this
      ensures Canonical(ranges)
      ensures ranges == InsertedAll(old(ranges), Singles(nums))
      ensures forall q: uint32 :: Member(ranges, q) <==> Member(old(ranges), q) || q in nums
    {
      for i := 0 to |nums|
        invariant ranges == InsertedAll(old(ranges), Singles(nums[..i]))
      {
        ranges := InsertRange(ranges, Range(nums[i], nums[i]));
        assert Singles(nums[..i + 1])[..i] == Singles(nums[..i]);
      }
      assert nums[..|nums|] == nums;
      SinglesAdded(old(ranges), nums);
    }

    method AddRange(start: uint32, stop: uint32)
      requires Canonical(ranges)
      modifies this
      ensures Canonical(ranges)
      ensures ranges == Inserted(old(ranges), Ordered(start, stop))
      ensures forall q: nat :: Member(ranges, q) <==> Member(old(ranges), q) || Has(Ordered(start, stop), q)
    {
      forall q: nat
        ensures Member(Inserted(ranges, Ordered(start, stop)), q) <==> Member(ranges, q) || Has(Ordered(start, stop), q)
      {
        InsertedMembers(ranges, Ordered(start, stop), q);
      }
      InsertedCanonical(ranges, Ordered(start, stop));
      if (stop < start && stop != 0) || start == 0 {
        ranges := InsertRange(ranges, Range(stop, start));
      } else {
        ranges := InsertRange(ranges, Range(start, stop));
      }
    }

    method AddSet(t: seq<Range>)
      requires Canonical(ranges) && AllProper(t)
      modifies this
      ensures Canonical(ranges)
      ensures ranges == InsertedAll(old(ranges), t)
      ensures forall q: nat :: Member(ranges, q) <==> Member(old(ranges), q) || Member(t, q)
    {
      forall q: nat ensures Member(InsertedAll(ranges, t), q) <==> Member(ranges, q) || Member(t, q) {
        InsertedAllMembers(ranges, t, q);
      }
      for i := 0 to |t|
        invariant ranges == InsertedAll(old(ranges), t[..i])
      {
        ranges := InsertRange(ranges, t[i]);
        assert t[..i + 1][..i] == t[..i];
      }
      assert t[..|t|] == t;
    }
  }

  // ---------------------------------------------------------------------
  // Queries
  // ---------------------------------------------------------------------

  predicate Dynamic(s: seq<Range>) {
    |s| > 0 && s[|s| - 1].stop == 0
  }

  lemma StaticStops(s: seq<Range>)
    requires Canonical(s)
    ensures Dynamic(s) <==> Member(s, 0)
    ensures forall i :: 0 <= i < |s| && (i < |s| - 1 || !Dynamic(s)) ==> 0 < s[i].start <= s[i].stop
  {
    var n := |s|;
    forall i | 0 <= i < n - 1 ensures 0 < s[i].start <= s[i].stop {
      assert Hi(s[i]) + 1 < Lo(s[n - 1]);
    }
    assert Dynamic(s) ==> Has(s[n - 1], 0);
  }

  /** Membership by bisection: "*" itself is never reported. */
  method SetContains(s: seq<Range>, q: uint32) returns (r: bool)
    requires Canonical(s)
    ensures r <==> q != 0 && Member(s, q)
  {
    var _, ok := Search(s, q);
    r := ok && q != 0;
  }

  /** The numbers a set holds. */
  ghost function Members(s: seq<Range>): set<int> {
    set q | 1 <= q <= MAX_UINT32 && Member(s, q)
  }

  ghost function Total(s: seq<Range>): int {
    if s == [] then 0 else Total(s[..|s| - 1]) + (s[|s| - 1].stop - s[|s| - 1].start + 1)
  }

  lemma MembersGrow(s: seq<Range>)
    requires Canonical(s) && s != [] && !Dynamic(s)
    ensures var n := |s| - 1;
            && Members(s) == Members(s[..n]) + Interval(s[n].start, s[n].stop)
            && Members(s[..n]) !! Interval(s[n].start, s[n].stop)
  {
    var n := |s| - 1;
    var t, r := s[..n], s[n];
    forall q: int ensures q in Members(s) <==> q in Members(t) || q in Interval(r.start, r.stop) {
      if q >= 0 {
        MemberSnoc(s, q);
      }
    }
    forall q | q in Members(t) ensures q !in Interval(r.start, r.stop) {
      var i :| 0 <= i < n && Has(t[i], q);
      assert Hi(s[i]) + 1 < Lo(s[n]);
    }
  }

  /** The ranges of a static canonical list are disjoint, so their lengths add
      up to the number of members. */
  lemma {:induction false} TotalIsSize(s: seq<Range>)
    requires Canonical(s) && !Dynamic(s)
    ensures Total(s) == |Members(s)| <= MAX_UINT32
    decreases |s|
  {
    StaticStops(s);
    if s == [] {
      assert Members(s) == {};
    } else {
      var n := |s| - 1;
      var t, r := s[..n], s[n];
      assert !Dynamic(t);
      TotalIsSize(t);
      IntervalSize(r.start, r.stop);
      MembersGrow(s);
    }
    IntervalSize(1, MAX_UINT32);
    SubsetSize(Members(s), Interval(1, MAX_UINT32));
  }

  lemma TotalPrefix(s: seq<Range>, i: nat)
    requires i < |s|
    ensures Total(s[..i + 1]) == Total(s[..i]) + (s[i].stop - s[i].start + 1)
  {
    assert s[..i + 1][..i] == s[..i];
  }

  lemma StaticPrefix(s: seq<Range>, i: nat)
    requires Canonical(s) && i <= |s| && (i < |s| || !Dynamic(s))
    ensures Canonical(s[..i]) && !Dynamic(s[..i])
  {
    StaticStops(s);
  }

  lemma NoWrap(n: uint32)
    requires n < MAX_UINT32
    ensures WrapAdd(n, 1) == n + 1
  {
  }

  lemma TotalStep(s: seq<Range>, i: nat)
    requires Canonical(s) && i < |s| && s[i].start != 0 && s[i].stop != 0
    ensures Proper(s[i]) && (i + 1 < |s| || !Dynamic(s))
    ensures Total(s[..i + 1]) == Total(s[..i]) + WrapAdd(s[i].stop - s[i].start, 1) <= MAX_UINT32
  {
    StaticStops(s);
    StaticPrefix(s, i + 1);
    TotalIsSize(s[..i + 1]);
    TotalPrefix(s, i);
    NoWrap(s[i].stop - s[i].start);
  }

  /** The number of members, or the largest uint64 for a dynamic set. */
  method Cardinality(s: seq<Range>) returns (n: uint64)
    requires Canonical(s)
    ensures Dynamic(s) ==> n == MAX_UINT64
    ensures !Dynamic(s) ==> n == |Members(s)|
  {
    StaticStops(s);
    n := 0;
    for i := 0 to |s|
      invariant i < |s| || !Dynamic(s)
      invariant n == Total(s[..i]) <= MAX_UINT32
    {
      if s[i].start == 0 || s[i].stop == 0 {
        return MAX_UINT64;
      }
      TotalStep(s, i);
      n := n + WrapAdd(s[i].stop - s[i].start, 1);
    }
    assert s[..|s|] == s;
    if !Dynamic(s) {
      TotalIsSize(s);
    }
  }

  ghost predicate Ascending(nums: seq<uint32>) {
    forall i, j :: 0 <= i < j < |nums| ==> nums[i] < nums[j]
  }

  /** One range appended to the numbers collected so far. A range that ends at
      the largest uint32 never leaves the source's loop. */
  method AppendRange(r: Range, nums0: seq<uint32>) returns (nums: seq<uint32>, ok: bool)
    requires Proper(r) && r.stop < MAX_UINT32
    ensures ok <==> r.start != 0 && r.stop != 0
    ensures ok ==> |nums| == |nums0| + (r.stop - r.start + 1) && nums0 <= nums
    ensures ok ==> forall k :: |nums0| <= k < |nums| ==> nums[k] == r.start + (k - |nums0|)
  {
    if r.start == 0 || r.stop == 0 {
      return [], false;
    }
    nums := nums0;
    var n := r.start;
    while n <= r.stop
      invariant r.start <= n <= r.stop + 1
      invariant |nums| == |nums0| + (n - r.start) && nums0 <= nums
      invariant forall k :: |nums0| <= k < |nums| ==> nums[k] == r.start + (k - |nums0|)
    {
      nums := nums + [n];
      n := n + 1;
    }
    ok := true;
  }

  /** A uint32 after k increments. */
  ghost function Incremented(n: uint32, k: nat): uint32 {
    if k == 0 then n else WrapAdd(Incremented(n, k - 1), 1)
  }

  lemma {:induction false} IncrementedIs(n: uint32, k: nat)
    requires n + k <= MAX_UINT32
    ensures Incremented(n, k) == n + k
  {
    if k > 0 {
      IncrementedIs(n, k - 1);
      NoWrap(n + k - 1);
    }
  }

  /** The loop over a range is left exactly when the range does not end at the
      largest uint32, whose increment is zero. */
  lemma RangeLoopEnds(r: Range)
    requires 0 < r.start <= r.stop
    ensures (exists k: nat :: Incremented(r.start, k) > r.stop) <==> r.stop < MAX_UINT32
  {
    if r.stop < MAX_UINT32 {
      IncrementedIs(r.start, r.stop - r.start + 1);
    }
  }

  /** The strictly ascending enumeration, as long as Cardinality says. */
  method Nums(s: seq<Range>) returns (nums: seq<uint32>, ok: bool)
    requires Canonical(s)
    requires forall i :: 0 <= i < |s| ==> s[i].stop < MAX_UINT32
    ensures ok <==> !Dynamic(s)
    ensures ok ==> Ascending(nums) && |nums| == |Members(s)|
    ensures ok ==> forall q: uint32 :: q in nums <==> Member(s, q)
  {
    StaticStops(s);
    nums, ok := [], true;
    for i := 0 to |s|
      invariant i < |s| || !Dynamic(s)
      invariant ok
      invariant Ascending(nums) && |nums| == Total(s[..i])
      invariant forall k :: 0 <= k < |nums| && i < |s| ==> nums[k] < Lo(s[i])
      invariant forall q: uint32 :: q in nums <==> Member(s[..i], q)
    {
      ghost var before := nums;
      nums, ok := AppendRange(s[i], nums);
      if !ok {
        return [], false;
      }
      EnumerationGrows(s, i, before, nums);
      TotalPrefix(s, i);
    }
    assert s[..|s|] == s;
    TotalIsSize(s);
  }

  lemma EnumerationGrows(s: seq<Range>, i: nat, a: seq<uint32>, b: seq<uint32>)
    requires Canonical(s) && i < |s| && 0 < s[i].start <= s[i].stop
    requires a <= b && |b| == |a| + (s[i].stop - s[i].start + 1)
    requires forall k :: |a| <= k < |b| ==> b[k] == s[i].start + (k - |a|)
    requires Ascending(a) && (forall k :: 0 <= k < |a| ==> a[k] < Lo(s[i]))
    requires forall q: uint32 :: q in a <==> Member(s[..i], q)
    ensures Ascending(b)
    ensures forall k :: 0 <= k < |b| && i + 1 < |s| ==> b[k] < Lo(s[i + 1])
    ensures forall q: uint32 :: q in b <==> Member(s[..i + 1], q)
  {
    assert i + 1 < |s| ==> Hi(s[i]) + 1 < Lo(s[i + 1]);
    forall k | 0 <= k < |a| ensures b[k] == a[k] {
    }
    forall q: uint32 ensures q in b <==> Member(s[..i + 1], q) {
      assert s[..i + 1][..i] == s[..i];
      MemberSnoc(s[..i + 1], q);
      if s[i].start <= q <= s[i].stop {
        assert b[|a| + (q - s[i].start)] == q;
      }
    }
  }
}

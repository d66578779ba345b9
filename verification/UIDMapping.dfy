/** COPYUID mappings (uidmapping.go): pairs of equally long UID ranges in
    copying order, never expanded into single UIDs. */
module UIDMapping {
  import opened Prelude
  import opened Counting

  datatype UIDRange = UIDRange(start: uint32, stop: uint32)

  datatype UIDPairRange = UIDPairRange(source: UIDRange, dest: UIDRange)

  function PairCardinality(p: UIDPairRange): nat {
    if p.source.start == 0 || p.dest.start == 0 || p.source.stop < p.source.start || p.dest.stop < p.dest.start
       || p.source.stop - p.source.start != p.dest.stop - p.dest.start
    then 0
    else p.source.stop - p.source.start + 1
  }

  // ---------------------------------------------------------------------
  // What ranges and mappings stand for
  // ---------------------------------------------------------------------

  ghost predicate Proper(r: UIDRange) {
    0 < r.start <= r.stop
  }

  ghost predicate AllProper(rs: seq<UIDRange>) {
    forall i :: 0 <= i < |rs| ==> Proper(rs[i])
  }

  ghost function Numbers(r: UIDRange): (s: seq<int>)
    requires Proper(r)
    ensures |s| == r.stop - r.start + 1
    ensures forall i :: 0 <= i < |s| ==> s[i] == r.start + i
  {
    seq(r.stop - r.start + 1, i => r.start + i)
  }

  /** The UIDs of a list of ranges, in the order listed. */
  ghost function Expand(rs: seq<UIDRange>): seq<int>
    requires AllProper(rs)
  {
    if rs == [] then [] else Expand(rs[..|rs| - 1]) + Numbers(rs[|rs| - 1])
  }

  ghost predicate WellFormed(m: seq<UIDPairRange>) {
    forall i :: 0 <= i < |m| ==> PairCardinality(m[i]) > 0
  }

  ghost function Sources(m: seq<UIDPairRange>): (rs: seq<UIDRange>)
    ensures WellFormed(m) ==> AllProper(rs)
  {
    seq(|m|, i requires 0 <= i < |m| => m[i].source)
  }

  ghost function Dests(m: seq<UIDPairRange>): (rs: seq<UIDRange>)
    ensures WellFormed(m) ==> AllProper(rs)
  {
    seq(|m|, i requires 0 <= i < |m| => m[i].dest)
  }

  ghost function RangePairs(p: UIDPairRange): (s: seq<(int, int)>)
    ensures |s| == PairCardinality(p)
  {
    seq(PairCardinality(p), i => (p.source.start + i, p.dest.start + i))
  }

  /** The pairs a mapping lists, in copying order. */
  ghost function Pairs(m: seq<UIDPairRange>): seq<(int, int)>
    requires WellFormed(m)
  {
    if m == [] then [] else Pairs(m[..|m| - 1]) + RangePairs(m[|m| - 1])
  }

  ghost function Zip(a: seq<int>, b: seq<int>): (s: seq<(int, int)>)
    requires |a| == |b|
  {
    seq(|a|, i requires 0 <= i < |a| => (a[i], b[i]))
  }

  lemma {:induction false} PairsZip(m: seq<UIDPairRange>)
    requires WellFormed(m)
    ensures |Expand(Sources(m))| == |Expand(Dests(m))| == |Pairs(m)|
    ensures Pairs(m) == Zip(Expand(Sources(m)), Expand(Dests(m)))
    decreases |m|
  {
    if m != [] {
      var n := |m| - 1;
      PairsZip(m[..n]);
      assert Sources(m)[..n] == Sources(m[..n]) && Dests(m)[..n] == Dests(m[..n]);
      var a, b := Numbers(m[n].source), Numbers(m[n].dest);
      assert RangePairs(m[n]) == Zip(a, b);
      ZipConcat(Expand(Sources(m[..n])), a, Expand(Dests(m[..n])), b);
    }
  }

  lemma ZipConcat(a: seq<int>, b: seq<int>, c: seq<int>, d: seq<int>)
    requires |a| == |c| && |b| == |d|
    ensures Zip(a + b, c + d) == Zip(a, c) + Zip(b, d)
  {
  }

  /** No UID is repeated on either side. */
  ghost predicate Injective(m: seq<UIDPairRange>)
    requires WellFormed(m)
  {
    NoRepeat(Expand(Sources(m))) && NoRepeat(Expand(Dests(m)))
  }

  /** What Validate promises. */
  ghost predicate Valid(m: seq<UIDPairRange>) {
    m != [] && WellFormed(m) && Injective(m)
  }

  // ---------------------------------------------------------------------
  // Building and counting
  // ---------------------------------------------------------------------

  /** A mapping variable: `*UIDMapping` in the source. */
  class Mapping {
    var ranges: seq<UIDPairRange>

    constructor ()
      ensures ranges == []
    {
      ranges := [];
    }

    /** Appends a pair, extending the last range where both UIDs follow on. */
    method Add(source: uint32, dest: uint32)
      modifies this
      ensures old(WellFormed(ranges)) && source != 0 && dest != 0 ==>
                WellFormed(ranges) && Pairs(ranges) == Pairs(old(ranges)) + [(source, dest)]
      ensures source == 0 || dest == 0 ==> !WellFormed(ranges)
      ensures |old(ranges)| <= |ranges| <= |old(ranges)| + 1
    {
      ghost var m := ranges;
      if |ranges| > 0 {
        var n := |ranges| - 1;
        var last := ranges[n];
        if source != 0 && dest != 0 && last.source.stop != MAX_UINT32 && last.dest.stop != MAX_UINT32 &&
           source == last.source.stop + 1 && dest == last.dest.stop + 1 {
          ranges := ranges[n := UIDPairRange(UIDRange(last.source.start, source), UIDRange(last.dest.start, dest))];
          if WellFormed(m) {
            assert ranges[..n] == m[..n];
            assert RangePairs(ranges[n]) == RangePairs(m[n]) + [(source, dest)];
          }
          return;
        }
      }
      var one := UIDPairRange(UIDRange(source, source), UIDRange(dest, dest));
      ranges := ranges + [one];
      assert ranges[|m|] == one && ranges[..|m|] == m;
    }
  }

  /** The number of pairs, or zero for a malformed mapping or one that lists
      more pairs than there are UIDs. */
  method Cardinality(m: seq<UIDPairRange>) returns (count: nat)
    ensures count == if WellFormed(m) && |Pairs(m)| <= MAX_UINT32 then |Pairs(m)| else 0
  {
    count := 0;
    for i := 0 to |m|
      invariant WellFormed(m[..i])
      invariant count == |Pairs(m[..i])| <= MAX_UINT32
    {
      assert m[..i + 1][..i] == m[..i] && m[..i + 1][i] == m[i];
      var n := PairCardinality(m[i]);
      if n == 0 || count > MAX_UINT32 - n {
        if WellFormed(m) {
          PairsPrefix(m, i + 1);
        }
        return 0;
      }
      count := count + n;
    }
    assert m[..|m|] == m;
  }

  lemma {:induction false} PairsPrefix(m: seq<UIDPairRange>, i: nat)
    requires WellFormed(m) && i <= |m|
    ensures |Pairs(m[..i])| <= |Pairs(m)|
    decreases |m|
  {
    if i < |m| {
      PairsPrefix(m[..|m| - 1], i);
      assert m[..|m| - 1][..i] == m[..i];
    } else {
      assert m[..i] == m;
    }
  }

  /** The pairs handed to the caller's loop, which leaves after the pair that
      makes `wanted` of them. */
  method All(m: seq<UIDPairRange>, wanted: nat) returns (yielded: seq<(int, int)>)
    requires wanted > 0
    ensures WellFormed(m) && |Pairs(m)| <= MAX_UINT32 ==> yielded == Pairs(m)[..Min(wanted, |Pairs(m)|)]
    ensures !(WellFormed(m) && |Pairs(m)| <= MAX_UINT32) ==> yielded == []
  {
    yielded := [];
    var count := Cardinality(m);
    if count == 0 {
      return;
    }
    for i := 0 to |m|
      invariant yielded == Pairs(m[..i]) && |yielded| < wanted
    {
      ghost var before := yielded;
      assert m[..i + 1][..i] == m[..i] && m[..i + 1][i] == m[i];
      yielded := YieldRange(m[i], yielded, wanted);
      if |yielded| >= wanted {
        assert yielded == Pairs(m[..i + 1])[..wanted];
        PairsTake(m, i + 1, wanted);
        return;
      }
    }
    assert m[..|m|] == m;
  }

  /** The inner loop of All: the pairs of one range. */
  method YieldRange(p: UIDPairRange, before: seq<(int, int)>, wanted: nat) returns (yielded: seq<(int, int)>)
    requires PairCardinality(p) > 0 && |before| < wanted
    ensures yielded == (before + RangePairs(p))[..Min(wanted, |before| + PairCardinality(p))]
  {
    yielded := before;
    var n := p.source.start;
    while n <= p.source.stop
      invariant p.source.start <= n <= p.source.stop + 1
      invariant yielded == before + RangePairs(p)[..n - p.source.start] && |yielded| < wanted
    {
      yielded := yielded + [(n, p.dest.start + n - p.source.start)];
      n := n + 1;
      if |yielded| >= wanted {
        return;
      }
    }
  }

  lemma {:induction false} PairsTake(m: seq<UIDPairRange>, i: nat, k: nat)
    requires WellFormed(m) && i <= |m| && k <= |Pairs(m[..i])|
    ensures k <= |Pairs(m)| && Pairs(m)[..k] == Pairs(m[..i])[..k]
    decreases |m|
  {
    if i < |m| {
      assert m[..|m| - 1][..i] == m[..i];
      PairsTake(m[..|m| - 1], i, k);
    } else {
      assert m[..i] == m;
    }
  }

  lemma {:induction false} ExpandBounds(rs: seq<UIDRange>)
    requires AllProper(rs)
    ensures forall i :: 0 <= i < |Expand(rs)| ==> 1 <= Expand(rs)[i] <= MAX_UINT32
    ensures rs != [] ==> Expand(rs) != []
    decreases |rs|
  {
    if rs != [] {
      ExpandBounds(rs[..|rs| - 1]);
    }
  }

  /** Disjoint ranges cannot exceed the UID space: a valid mapping has a
      non-zero cardinality, the number of pairs All yields. */
  lemma ValidCardinality(m: seq<UIDPairRange>)
    requires Valid(m)
    ensures 0 < |Pairs(m)| <= MAX_UINT32
  {
    PairsZip(m);
    ExpandBounds(Sources(m));
    Pigeonhole(Expand(Sources(m)), 1, MAX_UINT32);
  }

  // ---------------------------------------------------------------------
  // Validation by sorting
  // ---------------------------------------------------------------------

  /** How many of the ranges hold x. */
  ghost function Cover(rs: seq<UIDRange>, x: int): nat {
    if rs == [] then 0 else Cover(rs[..|rs| - 1], x) + (if rs[|rs| - 1].start <= x <= rs[|rs| - 1].stop then 1 else 0)
  }

  lemma NumbersCount(r: UIDRange, x: int)
    requires Proper(r)
    ensures Count(Numbers(r), x) == if r.start <= x <= r.stop then 1 else 0
  {
    var s := Numbers(r);
    assert NoRepeat(s);
    NoRepeatCount(s);
    assert r.start <= x <= r.stop ==> s[x - r.start] == x;
    assert x in s <==> r.start <= x <= r.stop;
  }

  lemma {:induction false} CoverCount(rs: seq<UIDRange>, x: int)
    requires AllProper(rs)
    ensures Count(Expand(rs), x) == Cover(rs, x)
    decreases |rs|
  {
    if rs != [] {
      CoverCount(rs[..|rs| - 1], x);
      NumbersCount(rs[|rs| - 1], x);
    }
  }

  /** No number is held by two of the ranges. */
  ghost predicate CoveredOnce(rs: seq<UIDRange>) {
    forall x :: Cover(rs, x) <= 1
  }

  lemma NoRepeatCover(rs: seq<UIDRange>)
    requires AllProper(rs)
    ensures NoRepeat(Expand(rs)) <==> CoveredOnce(rs)
  {
    var s := Expand(rs);
    NoRepeatCount(s);
    forall x ensures Count(s, x) == Cover(rs, x) {
      CoverCount(rs, x);
    }
    assert CoveredOnce(rs) ==> NoRepeat(s);
    if NoRepeat(s) {
      forall x ensures Cover(rs, x) <= 1 {
        assert Count(s, x) <= 1;
      }
      assert CoveredOnce(rs);
    }
  }

  lemma {:induction false} CoverRemove(rs: seq<UIDRange>, i: nat, x: int)
    requires i < |rs|
    ensures Cover(rs, x) == Cover(rs[..i] + rs[i + 1..], x) + (if rs[i].start <= x <= rs[i].stop then 1 else 0)
    decreases |rs|
  {
    var n := |rs| - 1;
    if i == n {
      assert rs[..i] + rs[i + 1..] == rs[..n];
    } else {
      CoverRemove(rs[..n], i, x);
      var less := rs[..i] + rs[i + 1..];
      assert less[..n - 1] == rs[..n][..i] + rs[..n][i + 1..] && less[n - 1] == rs[n];
    }
  }

  lemma WithoutOne(b: seq<UIDRange>, i: nat)
    requires i < |b|
    ensures multiset(b[..i] + b[i + 1..]) == multiset(b) - multiset{b[i]}
  {
    assert b == b[..i] + [b[i]] + b[i + 1..];
  }

  /** Cover does not depend on the order of the ranges. */
  lemma {:induction false} CoverPermutes(a: seq<UIDRange>, b: seq<UIDRange>, x: int)
    requires multiset(a) == multiset(b)
    ensures Cover(a, x) == Cover(b, x)
    decreases |a|
  {
    if a == [] {
      assert |b| == |multiset(b)| == 0;
    } else {
      var n := |a| - 1;
      assert a[n] in multiset(b);
      var i :| 0 <= i < |b| && b[i] == a[n];
      var less := b[..i] + b[i + 1..];
      WithoutOne(b, i);
      WithoutOne(a, n);
      assert a[..n] + a[n + 1..] == a[..n];
      CoverPermutes(a[..n], less, x);
      CoverRemove(b, i, x);
    }
  }

  ghost predicate SortedByStart(rs: seq<UIDRange>) {
    forall i, j :: 0 <= i < j < |rs| ==> rs[i].start <= rs[j].start
  }

  lemma SortedInsert(s: seq<UIDRange>, k: nat, r: UIDRange)
    requires SortedByStart(s) && k <= |s|
    requires k > 0 ==> s[k - 1].start <= r.start
    requires forall j :: k <= j < |s| ==> r.start < s[j].start
    ensures SortedByStart(s[..k] + [r] + s[k..])
  {
    var t := s[..k] + [r] + s[k..];
    forall i | 0 <= i < k ensures t[i] == s[i] && t[i].start <= r.start {
      assert i < k - 1 ==> s[i].start <= s[k - 1].start;
    }
    forall i | k < i < |t| ensures t[i] == s[i - 1] {
    }
  }

  lemma InsertMultiset(s: seq<UIDRange>, k: nat, r: UIDRange)
    requires k <= |s|
    ensures multiset(s[..k] + [r] + s[k..]) == multiset(s) + multiset{r}
  {
    assert s == s[..k] + s[k..];
  }

  /** `slices.SortFunc` by start: ties may come out in any order. */
  method SortByStart(rs: seq<UIDRange>) returns (sorted: seq<UIDRange>)
    ensures SortedByStart(sorted) && multiset(sorted) == multiset(rs) && |sorted| == |rs|
  {
    sorted := [];
    for i := 0 to |rs|
      invariant SortedByStart(sorted) && multiset(sorted) == multiset(rs[..i]) && |sorted| == i
    {
      assert rs[..i + 1] == rs[..i] + [rs[i]];
      sorted := InsertByStart(sorted, rs[i]);
    }
    assert rs[..|rs|] == rs;
  }

  method InsertByStart(sorted0: seq<UIDRange>, r: UIDRange) returns (sorted: seq<UIDRange>)
    requires SortedByStart(sorted0)
    ensures SortedByStart(sorted) && multiset(sorted) == multiset(sorted0) + multiset{r}
    ensures |sorted| == |sorted0| + 1
  {
    var k := |sorted0|;
    while k > 0 && r.start < sorted0[k - 1].start
      invariant 0 <= k <= |sorted0|
      invariant forall j :: k <= j < |sorted0| ==> r.start < sorted0[j].start
    {
      k := k - 1;
    }
    SortedInsert(sorted0, k, r);
    InsertMultiset(sorted0, k, r);
    sorted := sorted0[..k] + [r] + sorted0[k..];
  }

  /** In sorted order, neighbours that do not overlap are all that is needed. */
  lemma {:induction false} ApartCover(rs: seq<UIDRange>, x: int)
    requires AllProper(rs)
    requires forall i :: 1 <= i < |rs| ==> rs[i - 1].stop < rs[i].start
    ensures Cover(rs, x) <= 1
    ensures rs != [] && rs[|rs| - 1].stop < x ==> Cover(rs, x) == 0
    decreases |rs|
  {
    if rs != [] {
      ApartCover(rs[..|rs| - 1], x);
    }
  }

  lemma {:induction false} OverlapCover(rs: seq<UIDRange>, i: nat, x: int)
    requires 1 <= i < |rs| && rs[i - 1].start <= x <= rs[i - 1].stop && rs[i].start <= x <= rs[i].stop
    ensures Cover(rs, x) >= 2
    decreases |rs|
  {
    var n := |rs| - 1;
    if i < n {
      OverlapCover(rs[..n], i, x);
    } else {
      assert rs[..n][n - 1] == rs[n - 1];
    }
  }

  method CheckSide(rs: seq<UIDRange>) returns (ok: bool)
    requires AllProper(rs)
    ensures ok <==> NoRepeat(Expand(rs))
  {
    var sorted := SortByStart(rs);
    NoRepeatCover(rs);
    assert AllProper(sorted) by {
      forall i | 0 <= i < |sorted| ensures Proper(sorted[i]) {
        assert sorted[i] in multiset(rs);
      }
    }
    var i := 1;
    while i < |sorted|
      invariant 1 <= i
      invariant forall k :: 1 <= k < i && k < |sorted| ==> sorted[k - 1].stop < sorted[k].start
    {
      if sorted[i].start <= sorted[i - 1].stop {
        OverlapCover(sorted, i, sorted[i].start);
        CoverPermutes(rs, sorted, sorted[i].start);
        return false;
      }
      i := i + 1;
    }
    forall x ensures Cover(rs, x) <= 1 {
      ApartCover(sorted, x);
      CoverPermutes(rs, sorted, x);
    }
    ok := true;
  }

  /** Accepts exactly the non-empty, well-formed and injective mappings. */
  method Validate(m: seq<UIDPairRange>) returns (ok: bool)
    ensures ok <==> Valid(m)
  {
    if |m| == 0 {
      return false;
    }
    for i := 0 to |m|
      invariant WellFormed(m[..i])
    {
      if PairCardinality(m[i]) == 0 {
        return false;
      }
      assert forall k :: 0 <= k < i ==> m[..i + 1][k] == m[..i][k];
    }
    assert m[..|m|] == m;
    var sources, dests := [], [];
    for i := 0 to |m|
      invariant sources == Sources(m)[..i] && dests == Dests(m)[..i]
    {
      sources, dests := sources + [m[i].source], dests + [m[i].dest];
    }
    assert sources == Sources(m) && dests == Dests(m);
    ok := CheckSide(sources);
    if ok {
      ok := CheckSide(dests);
    }
  }
}

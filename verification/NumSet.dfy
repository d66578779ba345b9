/** Sets of message numbers (internal/imapnum/numset.go): a sorted list of
    ranges that is searched by bisection and merged on insertion. */
module NumSet {
  import opened Prelude

  /** "n" is Range(n, n), "n:m" is Range(n, m) with n <= m, "*" is Range(0, 0)
      and "n:*" is Range(n, 0). */
  datatype Range = Range(start: uint32, stop: uint32)

  predicate Contains(s: Range, q: uint32) {
    if q == 0 then
      s.stop == 0
    else
      s.start != 0 && s.start <= q && (q <= s.stop || s.stop == 0)
  }

  predicate Less(s: Range, q: uint32) {
    (s.stop < q || q == 0) && s.stop != 0
  }

  function WrapAdd(a: uint32, b: uint32): uint32 {
    (a + b) % 0x1_0000_0000
  }

  /** The union of two ranges that intersect or touch; otherwise `s` and false. */
  function Merge(s: Range, t: Range): (m: (Range, bool))
    ensures Proper(s) && Proper(t) ==> (m.1 <==> Lo(s) <= Hi(t) + 1 && Lo(t) <= Hi(s) + 1)
    ensures Proper(s) && Proper(t) && m.1 ==>
              Proper(m.0) && Lo(m.0) == Min(Lo(s), Lo(t)) && Hi(m.0) == Max(Hi(s), Hi(t))
    ensures !m.1 ==> m.0 == s
  {
    if s == t then
      (s, true)
    else if s.start != 0 && t.start != 0 then
      var (a, b) := if s.start > t.start then (t, s) else (s, t);
      if (a.stop >= b.stop && b.stop != 0) || a.stop == 0 then
        (a, true)
      else if WrapAdd(a.stop, 1) >= b.start || a.stop == MAX_UINT32 then
        (Range(a.start, b.stop), true)
      else
        (s, false)
    else if s.start == 0 && t.stop == 0 then
      (t, true)
    else if s.start != 0 && s.stop == 0 then
      (s, true)
    else
      (s, false)
  }

  /** The shapes the type documents: start <= stop, or stop is "*". */
  predicate Proper(r: Range) {
    r.stop == 0 || 0 < r.start <= r.stop
  }

  // ---------------------------------------------------------------------
  // What a list of ranges denotes
  // ---------------------------------------------------------------------

  /** `q` is in the range, 0 standing for "*". "n:*" holds "*" and every natural
      number from n, also those no uint32 can hold. */
  ghost predicate Has(r: Range, q: nat) {
    if q == 0 then r.stop == 0 else r.start != 0 && r.start <= q && (q <= r.stop || r.stop == 0)
  }

  /** Linear membership. */
  ghost predicate Member(s: seq<Range>, q: nat) {
    exists i :: 0 <= i < |s| && Has(s[i], q)
  }

  /** Two lists denote the same set. */
  ghost predicate SameMembers(a: seq<Range>, b: seq<Range>) {
    forall q: nat :: Member(a, q) <==> Member(b, q)
  }

  // Ranges are intervals of points. TOP is the point of "*"; the point below
  // it stands for every number past the largest uint32, so that "n:4294967295"
  // does not touch "*".
  const TOP: int := 0x1_0000_0001

  ghost function Lo(r: Range): int {
    if r.start == 0 then TOP else r.start
  }

  ghost function Hi(r: Range): int {
    if r.stop == 0 then TOP else r.stop
  }

  ghost function Point(q: nat): (p: int)
    ensures 1 <= p <= TOP
  {
    if q == 0 then TOP else Min(q, TOP - 1)
  }

  /** Sorted, non-touching, and dynamic only at the end. */
  ghost predicate Canonical(s: seq<Range>) {
    && (forall i :: 0 <= i < |s| ==> Proper(s[i]))
    && (forall i, j :: 0 <= i < j < |s| ==> Hi(s[i]) + 1 < Lo(s[j]))
  }

  ghost predicate At(s: seq<Range>, p: int) {
    exists i :: 0 <= i < |s| && Lo(s[i]) <= p <= Hi(s[i])
  }

  lemma HasIsInterval(r: Range, q: nat)
    requires Proper(r)
    ensures Has(r, q) <==> Lo(r) <= Point(q) <= Hi(r)
  {
  }

  lemma MemberIsAt(s: seq<Range>, q: nat)
    requires forall i :: 0 <= i < |s| ==> Proper(s[i])
    ensures Member(s, q) <==> At(s, Point(q))
  {
    forall i | 0 <= i < |s| ensures Has(s[i], q) <==> Lo(s[i]) <= Point(q) <= Hi(s[i]) {
      HasIsInterval(s[i], q);
    }
  }

  lemma SameMembersSamePoints(a: seq<Range>, b: seq<Range>, p: int)
    requires Canonical(a) && Canonical(b) && SameMembers(a, b)
    ensures At(a, p) <==> At(b, p)
  {
    if 1 <= p <= TOP {
      var q: nat := if p == TOP then 0 else p;
      MemberIsAt(a, q);
      MemberIsAt(b, q);
    }
  }

  lemma {:induction false} SamePointsSameList(a: seq<Range>, b: seq<Range>)
    requires Canonical(a) && Canonical(b)
    requires forall p :: At(a, p) <==> At(b, p)
    ensures a == b
  {
    assert a != [] ==> At(a, Lo(a[0]));
    assert b != [] ==> At(b, Lo(b[0]));
    if a != [] {
      assert At(b, Lo(a[0])) by { assert At(a, Lo(a[0])); }
      assert At(a, Lo(b[0])) by { assert At(b, Lo(b[0])); }
      assert Lo(a[0]) == Lo(b[0]);
      FirstGap(a, b);
      FirstGap(b, a);
      assert a[0] == b[0];
      forall p ensures At(a[1..], p) <==> At(b[1..], p) {
        AtTail(a, p);
        AtTail(b, p);
      }
      SamePointsSameList(a[1..], b[1..]);
      assert a == [a[0]] + a[1..] && b == [b[0]] + b[1..];
    }
  }

  lemma FirstGap(a: seq<Range>, b: seq<Range>)
    requires Canonical(a) && Canonical(b) && a != [] && b != []
    requires forall p :: At(a, p) <==> At(b, p)
    requires Lo(a[0]) == Lo(b[0])
    ensures Hi(b[0]) <= Hi(a[0])
  {
    var p := Hi(a[0]) + 1;
    assert !At(a, p);
    assert Lo(b[0]) <= p <= Hi(b[0]) ==> At(b, p);
  }

  lemma AtTail(s: seq<Range>, p: int)
    requires Canonical(s) && s != []
    ensures At(s[1..], p) <==> At(s, p) && Hi(s[0]) < p
  {
    if At(s, p) && Hi(s[0]) < p {
      var i :| 0 <= i < |s| && Lo(s[i]) <= p <= Hi(s[i]);
      assert s[1..][i - 1] == s[i];
    }
    if At(s[1..], p) {
      var i :| 0 <= i < |s[1..]| && Lo(s[1..][i]) <= p <= Hi(s[1..][i]);
      assert s[i + 1] == s[1..][i];
      assert Hi(s[0]) + 1 < Lo(s[i + 1]);
    }
  }

  /** A canonical list is determined by the set it denotes. */
  lemma CanonicalUnique(a: seq<Range>, b: seq<Range>)
    requires Canonical(a) && Canonical(b) && SameMembers(a, b)
    ensures a == b
  {
    forall p ensures At(a, p) <==> At(b, p) {
      SameMembersSamePoints(a, b, p);
    }
    SamePointsSameList(a, b);
  }

  // ---------------------------------------------------------------------
  // Insertion
  // ---------------------------------------------------------------------

  ghost predicate AllProper(s: seq<Range>) {
    forall i :: 0 <= i < |s| ==> Proper(s[i])
  }

  ghost predicate InRange(r: Range, p: int) {
    Lo(r) <= p <= Hi(r)
  }

  /** Insertion in its plain form: walk from the front, keep what lies wholly
      before `v`, swallow what touches it. */
  ghost function Inserted(s: seq<Range>, v: Range): seq<Range>
    requires AllProper(s) && Proper(v)
  {
    if s == [] then
      [v]
    else if Hi(s[0]) + 1 < Lo(v) then
      [s[0]] + Inserted(s[1..], v)
    else if Hi(v) + 1 < Lo(s[0]) then
      [v] + s
    else
      Inserted(s[1..], Merge(s[0], v).0)
  }

  lemma AtSplit(a: seq<Range>, b: seq<Range>, p: int)
    ensures At(a + b, p) <==> At(a, p) || At(b, p)
  {
    forall i | 0 <= i < |b| ensures (a + b)[|a| + i] == b[i] {
    }
    if At(a, p) {
      var i :| 0 <= i < |a| && Lo(a[i]) <= p <= Hi(a[i]);
      assert (a + b)[i] == a[i];
    }
  }

  lemma AtOne(r: Range, p: int)
    ensures At([r], p) <==> InRange(r, p)
  {
    assert [r][0] == r;
  }

  lemma {:induction false} InsertedPoints(s: seq<Range>, v: Range, p: int)
    requires Canonical(s) && Proper(v)
    ensures At(Inserted(s, v), p) <==> At(s, p) || InRange(v, p)
    decreases |s|
  {
    if s == [] {
      AtOne(v, p);
    } else {
      assert s == [s[0]] + s[1..];
      AtSplit([s[0]], s[1..], p);
      AtOne(s[0], p);
      if Hi(s[0]) + 1 < Lo(v) {
        InsertedPoints(s[1..], v, p);
        AtSplit([s[0]], Inserted(s[1..], v), p);
      } else if Hi(v) + 1 < Lo(s[0]) {
        AtSplit([v], s, p);
        AtOne(v, p);
      } else {
        InsertedPoints(s[1..], Merge(s[0], v).0, p);
      }
    }
  }

  lemma {:induction false} InsertedCanonical(s: seq<Range>, v: Range)
    requires Canonical(s) && Proper(v)
    ensures Canonical(Inserted(s, v))
    ensures Inserted(s, v) != []
    ensures Lo(Inserted(s, v)[0]) == if s == [] then Lo(v) else Min(Lo(s[0]), Lo(v))
    decreases |s|
  {
    if s != [] {
      if Hi(s[0]) + 1 < Lo(v) {
        InsertedCanonical(s[1..], v);
      } else if Hi(v) + 1 >= Lo(s[0]) {
        InsertedCanonical(s[1..], Merge(s[0], v).0);
      }
    }
  }

  /** Insertion keeps the form and denotes the union, "*", "n:*" and the
      largest number included. */
  lemma InsertedMembers(s: seq<Range>, v: Range, q: nat)
    requires Canonical(s) && Proper(v)
    ensures Canonical(Inserted(s, v))
    ensures Member(Inserted(s, v), q) <==> Member(s, q) || Has(v, q)
  {
    InsertedCanonical(s, v);
    InsertedPoints(s, v, Point(q));
    MemberIsAt(s, q);
    MemberIsAt(Inserted(s, v), q);
    HasIsInterval(v, q);
  }

  lemma AtThree(a: seq<Range>, b: seq<Range>, c: seq<Range>, p: int)
    ensures At(a + b + c, p) <==> At(a, p) || At(b, p) || At(c, p)
  {
    AtSplit(a + b, c, p);
    AtSplit(a, b, p);
  }

  lemma SplicedCanonical(s: seq<Range>, k: nat, j: nat, m: Range)
    requires Canonical(s) && Proper(m) && k <= j <= |s|
    requires k > 0 ==> Hi(s[k - 1]) + 1 < Lo(m)
    requires j < |s| ==> Hi(m) + 1 < Lo(s[j])
    ensures Canonical(s[..k] + [m] + s[j..])
  {
    var r := s[..k] + [m] + s[j..];
    forall x | 0 <= x < k ensures r[x] == s[x] && Hi(r[x]) + 1 < Lo(m) {
      assert x < k - 1 ==> Hi(s[x]) + 1 < Lo(s[k - 1]);
    }
    forall y | k < y < |r| ensures r[y] == s[y - k - 1 + j] && Hi(m) + 1 < Lo(r[y]) {
      assert y > k + 1 ==> Hi(s[j]) + 1 < Lo(s[y - k - 1 + j]);
    }
  }

  /** `m` spans `v` and the block s[k..j], and `v` touches both ends of the
      block. */
  ghost predicate Joined(s: seq<Range>, k: nat, j: nat, m: Range, v: Range)
    requires k <= j <= |s|
  {
    if k == j then
      m == v
    else
      && Lo(v) <= Hi(s[k]) + 1 && Lo(s[j - 1]) <= Hi(v) + 1
      && Lo(m) == Min(Lo(s[k]), Lo(v)) && Hi(m) == Max(Hi(s[j - 1]), Hi(v))
  }

  lemma JoinedPoint(s: seq<Range>, k: nat, j: nat, m: Range, v: Range, p: int)
    requires Canonical(s) && Proper(v) && Proper(m) && k <= j <= |s|
    requires Joined(s, k, j, m, v)
    ensures InRange(m, p) <==> At(s[k..j], p) || InRange(v, p)
  {
    if k < j {
      var b := s[k..j];
      assert b[0] == s[k] && b[j - 1 - k] == s[j - 1];
      forall x | 0 <= x < |b| ensures Lo(s[k]) <= Lo(b[x]) && Hi(b[x]) <= Hi(s[j - 1]) {
        assert b[x] == s[k + x];
        assert x > 0 ==> Hi(s[k]) + 1 < Lo(s[k + x]);
        assert k + x < j - 1 ==> Hi(s[k + x]) + 1 < Lo(s[j - 1]);
      }
      assert InRange(b[0], p) || InRange(b[j - 1 - k], p) ==> At(b, p);
    }
  }

  /** Replacing the block s[k..j] by its union with `v` is insertion. */
  lemma Spliced(s: seq<Range>, k: nat, j: nat, m: Range, v: Range)
    requires Canonical(s) && Proper(v) && Proper(m) && k <= j <= |s|
    requires k > 0 ==> Hi(s[k - 1]) + 1 < Lo(m)
    requires j < |s| ==> Hi(m) + 1 < Lo(s[j])
    requires Joined(s, k, j, m, v)
    ensures s[..k] + [m] + s[j..] == Inserted(s, v)
  {
    var r := s[..k] + [m] + s[j..];
    SplicedCanonical(s, k, j, m);
    InsertedCanonical(s, v);
    forall p ensures At(r, p) <==> At(Inserted(s, v), p) {
      JoinedPoint(s, k, j, m, v, p);
      SplicedPoint(s, k, j, m, v, p);
    }
    SamePointsSameList(r, Inserted(s, v));
  }

  lemma SplicedPoint(s: seq<Range>, k: nat, j: nat, m: Range, v: Range, p: int)
    requires Canonical(s) && Proper(v) && k <= j <= |s|
    requires InRange(m, p) <==> At(s[k..j], p) || InRange(v, p)
    ensures At(s[..k] + [m] + s[j..], p) <==> At(Inserted(s, v), p)
  {
    InsertedPoints(s, v, p);
    assert s == s[..k] + s[k..j] + s[j..];
    AtThree(s[..k], s[k..j], s[j..], p);
    AtThree(s[..k], [m], s[j..], p);
    AtOne(m, p);
  }

  /** Bisection: the first range that does not lie before `q`, and whether it
      contains `q`. */
  method Search(s: seq<Range>, q: uint32) returns (i: nat, ok: bool)
    requires Canonical(s)
    ensures i <= |s|
    ensures forall k :: 0 <= k < i ==> Less(s[k], q)
    ensures i < |s| ==> !Less(s[i], q)
    ensures ok <==> Member(s, q)
    ensures ok ==> i < |s| && Contains(s[i], q)
  {
    var min, max := 0, |s| - 1;
    while min < max
      invariant 0 <= min <= max + 1 <= |s|
      invariant s != [] ==> min <= max
      invariant forall k :: 0 <= k < min ==> Less(s[k], q)
      invariant max < |s| - 1 ==> max >= 0 && !Less(s[max], q)
    {
      var mid := (min + max) / 2;
      if Less(s[mid], q) {
        SearchBefore(s, mid, q);
        min := mid + 1;
      } else {
        max := mid;
      }
    }
    if max < 0 || Less(s[min], q) {
      if max >= 0 {
        SearchBefore(s, min, q);
      }
      SearchMember(s, |s|, q);
      return |s|, false;
    }
    SearchMember(s, min, q);
    return min, Contains(s[min], q);
  }

  lemma SearchBefore(s: seq<Range>, mid: nat, q: uint32)
    requires Canonical(s) && mid < |s| && Less(s[mid], q)
    ensures forall k :: 0 <= k <= mid ==> Less(s[k], q)
  {
    forall k | 0 <= k < mid ensures Less(s[k], q) {
      assert Hi(s[k]) + 1 < Lo(s[mid]);
    }
  }

  /** Only the first range not before `q` can contain it. */
  lemma SearchMember(s: seq<Range>, i: nat, q: uint32)
    requires Canonical(s) && i <= |s|
    requires forall k :: 0 <= k < i ==> Less(s[k], q)
    requires i < |s| ==> !Less(s[i], q)
    ensures Member(s, q) <==> i < |s| && Contains(s[i], q)
  {
    forall k | i < k < |s| && Has(s[k], q) ensures i < |s| && Contains(s[i], q) {
      assert Hi(s[i]) + 1 < Lo(s[k]);
    }
    assert i < |s| && Contains(s[i], q) ==> Has(s[i], q);
  }

  /** What bisecting for the start of `v` says about merging with the entry
      before the position found. */
  lemma MergeBefore(s: seq<Range>, i: nat, v: Range)
    requires Canonical(s) && Proper(v) && 0 < i <= |s|
    requires Less(s[i - 1], v.start)
    ensures var (m, merged) := Merge(s[i - 1], v);
            if merged
            then Proper(m) && Joined(s, i - 1, i, m, v) && (i > 1 ==> Hi(s[i - 2]) + 1 < Lo(m))
            else m == s[i - 1] && Hi(s[i - 1]) + 1 < Lo(v)
  {
    assert i > 1 ==> Hi(s[i - 2]) + 1 < Lo(s[i - 1]);
  }

  /** The same for the entry at the position found. */
  lemma MergeAt(s: seq<Range>, i: nat, v: Range)
    requires Canonical(s) && Proper(v) && i < |s|
    requires !Less(s[i], v.start)
    requires i > 0 ==> Hi(s[i - 1]) + 1 < Lo(v)
    ensures var (m, merged) := Merge(s[i], v);
            if merged
            then Proper(m) && Joined(s, i, i + 1, m, v) && (i > 0 ==> Hi(s[i - 1]) + 1 < Lo(m))
            else m == s[i] && Hi(v) + 1 < Lo(s[i])
  {
    assert i > 0 ==> Hi(s[i - 1]) + 1 < Lo(s[i]);
  }

  lemma CutOut(s: seq<Range>, t: seq<Range>, i: nat, j: nat)
    requires i < j <= |s| == |t| && t == s[i := t[i]]
    ensures t[..i + 1] + t[j..] == s[..i] + [t[i]] + s[j..]
    ensures j == |s| ==> t[..i + 1] == s[..i] + [t[i]] + s[j..]
    ensures j == i + 1 ==> t == s[..i] + [t[i]] + s[j..]
  {
    assert t[..i + 1] == s[..i] + [t[i]];
    assert t[j..] == s[j..];
    assert j == i + 1 ==> t == t[..i + 1] + t[j..];
  }

  /** A new entry at index i; everything at and after i moves up. */
  method InsertAt(s: seq<Range>, i: nat, v: Range) returns (r: seq<Range>)
    requires i <= |s|
    ensures r == s[..i] + [v] + s[i..]
  {
    if i == |s| {
      r := s + [v];
    } else {
      r := s[..i] + s[i..i + 1] + s[i..];
      r := r[i := v];
    }
  }

  /** Merge-on-insert around a bisected position agrees with the linear form. */
  method InsertRange(s0: seq<Range>, v: Range) returns (s: seq<Range>)
    requires Canonical(s0) && Proper(v)
    ensures s == Inserted(s0, v)
  {
    s := s0;
    var i, _ := Search(s, v.start);
    var merged := false;
    if i > 0 {
      MergeBefore(s0, i, v);
      var u := Merge(s[i - 1], v);
      s, merged := s[i - 1 := u.0], u.1;
      assert !merged ==> s == s0;
    }
    if i == |s| {
      if !merged {
        Spliced(s0, i, i, v, v);
        s := InsertAt(s, i, v);
      } else {
        Spliced(s0, i - 1, i, s[i - 1], v);
        CutOut(s0, s, i - 1, i);
      }
    } else if merged {
      s := MergeForward(s, i - 1, s0, v);
    } else {
      MergeAt(s0, i, v);
      var u := Merge(s[i], v);
      s, merged := s[i := u.0], u.1;
      if !merged {
        assert s == s0;
        Spliced(s0, i, i, v, v);
        s := InsertAt(s, i, v);
      } else {
        s := MergeForward(s, i, s0, v);
      }
    }
  }

  /** The last phase of an insertion: `v` has been merged into entry i of the
      list `s0`, go on merging until an entry does not touch. */
  method MergeForward(t: seq<Range>, i: nat, ghost s0: seq<Range>, ghost v: Range) returns (s: seq<Range>)
    requires Canonical(s0) && Proper(v)
    requires i < |t| == |s0| && t == s0[i := t[i]]
    requires Proper(t[i]) && Joined(s0, i, i + 1, t[i], v)
    requires i > 0 ==> Hi(s0[i - 1]) + 1 < Lo(t[i])
    ensures s == Inserted(s0, v)
  {
    s := t;
    var j := i + 1;
    while j < |s|
      invariant i < j <= |s| == |s0|
      invariant s == s0[i := s[i]]
      invariant Proper(s[i]) && Joined(s0, i, j, s[i], v)
      invariant i > 0 ==> Hi(s0[i - 1]) + 1 < Lo(s[i])
    {
      assert Hi(s0[j - 1]) + 1 < Lo(s0[j]) && Hi(s0[i]) + 1 < Lo(s0[j]);
      var u := Merge(s[i], s[j]);
      if !u.1 {
        Spliced(s0, i, j, s[i], v);
        CutOut(s0, s, i, j);
        s := s[..i + 1] + s[j..];
        return;
      }
      s := s[i := u.0];
      j := j + 1;
    }
    Spliced(s0, i, j, s[i], v);
    CutOut(s0, s, i, j);
    s := s[..i + 1];
  }
}

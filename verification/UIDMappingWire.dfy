/** COPYUID mappings on the wire (internal/imapwire/uidmapping.go). */
module UIDMappingWire {
  import opened Prelude
  import opened Text
  import opened Counting
  import opened UIDMapping

  // ---------------------------------------------------------------------
  // Reading one side
  // ---------------------------------------------------------------------

  /** "n" or "n:m" with the bounds in either order; zero is no UID. */
  function ParseItem(item: bytes): (r: Option<UIDRange>)
    ensures r.Some? ==> 0 < r.value.start <= r.value.stop
  {
    var i := IndexByte(item, COLON);
    var start := ParseUint(item[..i], MAX_UINT32);
    if start.None? || start.value == 0 then
      None
    else if i == |item| then
      Some(UIDRange(start.value, start.value))
    else
      var stop := ParseUint(item[i + 1..], MAX_UINT32);
      if stop.None? || stop.value == 0 then None
      else Some(UIDRange(Min(start.value, stop.value), Max(start.value, stop.value)))
  }

  ghost predicate AllParse(items: seq<bytes>) {
    forall i :: 0 <= i < |items| ==> ParseItem(items[i]).Some?
  }

  ghost function Parsed(items: seq<bytes>): (rs: seq<UIDRange>)
    requires AllParse(items)
    ensures AllProper(rs)
  {
    seq(|items|, i requires 0 <= i < |items| => ParseItem(items[i]).value)
  }

  /** The ranges of a text in comma order, or None. */
  ghost function OrderedOfText(text: bytes): (rs: Option<seq<UIDRange>>)
    ensures rs.Some? ==> rs.value != [] && AllProper(rs.value)
  {
    var items := Split(text, COMMA);
    if AllParse(items) then Some(Parsed(items)) else None
  }

  // ---------------------------------------------------------------------
  // What the text of one side is, byte by byte
  // ---------------------------------------------------------------------

  ghost predicate IsUID(v: bytes) {
    v != [] && (forall i :: 0 <= i < |v| ==> 0x30 <= v[i] <= 0x39) && 1 <= DigitsValue(v) <= 4294967295
  }

  /** A colon at i with a UID on either side. */
  ghost predicate PairAt(v: bytes, i: int) {
    0 <= i < |v| && v[i] == 0x3A && IsUID(v[..i]) && IsUID(v[i + 1..])
  }

  ghost predicate IsUIDItem(v: bytes) {
    IsUID(v) || exists i :: PairAt(v, i)
  }

  ghost function UpTo(a: int, b: int): (s: seq<int>)
    requires a <= b
    ensures |s| == b - a + 1 && forall k :: 0 <= k < |s| ==> s[k] == a + k
  {
    seq(b - a + 1, k => a + k)
  }

  /** The UIDs of an item: one, or from the lower to the higher bound whichever
      is written first. */
  ghost function UIDsOfItem(v: bytes): seq<int>
    requires IsUIDItem(v)
  {
    if IsUID(v) then [DigitsValue(v)]
    else
      var i :| PairAt(v, i);
      var x, y := DigitsValue(v[..i]), DigitsValue(v[i + 1..]);
      UpTo(Min(x, y), Max(x, y))
  }

  ghost predicate AreItems(items: seq<bytes>) {
    forall i :: 0 <= i < |items| ==> IsUIDItem(items[i])
  }

  ghost function UIDsOfItems(items: seq<bytes>): seq<int>
    requires AreItems(items)
  {
    if items == [] then [] else UIDsOfItems(items[..|items| - 1]) + UIDsOfItem(items[|items| - 1])
  }

  ghost predicate IsUIDText(text: bytes) {
    AreItems(Split(text, 0x2C))
  }

  /** The UIDs a text lists, in comma order. */
  ghost function UIDsOfText(text: bytes): seq<int>
    requires IsUIDText(text)
  {
    UIDsOfItems(Split(text, 0x2C))
  }

  lemma ParseOneUID(v: bytes)
    ensures IsUID(v) <==> ParseUint(v, MAX_UINT32).Some? && ParseUint(v, MAX_UINT32).value != 0
    ensures IsUID(v) ==> ParseUint(v, MAX_UINT32) == Some(DigitsValue(v)) && 0x3A !in v
  {
    if v != [] && forall i :: 0 <= i < |v| ==> 0x30 <= v[i] <= 0x39 {
      assert AllDigits(v);
    }
  }

  lemma PairIndex(v: bytes, i: int)
    requires PairAt(v, i)
    ensures IndexByte(v, COLON) == i
  {
    ParseOneUID(v[..i]);
    assert v == v[..i] + [COLON] + v[i + 1..];
    IndexByteAt(v[..i], COLON, v[i + 1..]);
  }

  lemma UIDIndex(v: bytes)
    requires IsUID(v)
    ensures IndexByte(v, COLON) == |v| && v[..|v|] == v
  {
    ParseOneUID(v);
    IndexByteNone(v, COLON);
  }

  lemma ItemAccepted(v: bytes)
    ensures ParseItem(v).Some? <==> IsUIDItem(v)
  {
    var i := IndexByte(v, COLON);
    ParseOneUID(v[..i]);
    if i < |v| {
      ParseOneUID(v[i + 1..]);
      assert ParseItem(v).Some? ==> PairAt(v, i);
    } else {
      assert v[..i] == v;
    }
    if IsUID(v) {
      UIDIndex(v);
    } else if IsUIDItem(v) {
      var j :| PairAt(v, j);
      PairIndex(v, j);
    }
  }

  lemma ItemExpands(v: bytes)
    requires IsUIDItem(v) && ParseItem(v).Some?
    ensures Numbers(ParseItem(v).value) == UIDsOfItem(v)
  {
    if IsUID(v) {
      UIDIndex(v);
      ParseOneUID(v);
    } else {
      var i :| PairAt(v, i);
      forall j | PairAt(v, j) ensures j == IndexByte(v, COLON) {
        PairIndex(v, j);
      }
      ParseOneUID(v[..i]);
      ParseOneUID(v[i + 1..]);
    }
  }

  lemma {:induction false} ItemsExpand(items: seq<bytes>)
    requires AreItems(items) && AllParse(items)
    ensures Expand(Parsed(items)) == UIDsOfItems(items)
  {
    if items != [] {
      var n := |items| - 1;
      ItemsExpand(items[..n]);
      ItemExpands(items[n]);
      assert Parsed(items)[..n] == Parsed(items[..n]);
    }
  }

  /** A text is refused exactly when an item is malformed, and otherwise lists the
      UIDs of its items in order, those of each range ascending. */
  lemma TextLists(text: bytes)
    ensures OrderedOfText(text).Some? <==> IsUIDText(text)
    ensures IsUIDText(text) ==> Expand(OrderedOfText(text).value) == UIDsOfText(text)
  {
    var items := Split(text, COMMA);
    forall i | 0 <= i < |items| ensures ParseItem(items[i]).Some? <==> IsUIDItem(items[i]) {
      ItemAccepted(items[i]);
    }
    assert AllParse(items) <==> AreItems(items);
    if AreItems(items) {
      ItemsExpand(items);
    }
  }

  // ---------------------------------------------------------------------
  // The parser of one side
  // ---------------------------------------------------------------------

  method ParseOrderedUIDSet(text: bytes) returns (rs: Option<seq<UIDRange>>)
    ensures rs == OrderedOfText(text)
    ensures rs.Some? <==> IsUIDText(text)
    ensures rs.Some? ==> AllProper(rs.value) && Expand(rs.value) == UIDsOfText(text)
  {
    TextLists(text);
    var items := Split(text, COMMA);
    var acc := [];
    for i := 0 to |items|
      invariant |acc| == i
      invariant forall k :: 0 <= k < i ==> ParseItem(items[k]) == Some(acc[k])
    {
      var r := ParseItem(items[i]);
      if r.None? {
        return None;
      }
      acc := acc + [r.value];
    }
    assert acc == Parsed(items);
    rs := Some(acc);
  }

  // ---------------------------------------------------------------------
  // Zipping two sides
  // ---------------------------------------------------------------------

  /** Range i of the list occupies the next stretch of its expansion. */
  lemma {:induction false} ExpandAt(rs: seq<UIDRange>, i: nat, o: nat)
    requires AllProper(rs) && i < |rs| && o <= rs[i].stop - rs[i].start
    ensures |Expand(rs[..i + 1])| == |Expand(rs[..i])| + (rs[i].stop - rs[i].start + 1) <= |Expand(rs)|
    ensures Expand(rs)[|Expand(rs[..i])| + o] == rs[i].start + o
    decreases |rs|
  {
    var n := |rs| - 1;
    assert rs[..i + 1][..i] == rs[..i];
    if i < n {
      assert rs[..n][..i] == rs[..i] && rs[..n][..i + 1] == rs[..i + 1];
      ExpandAt(rs[..n], i, o);
    } else {
      assert rs[..i + 1] == rs;
    }
  }

  lemma ZipStep(s: seq<int>, d: seq<int>, c: nat, p: UIDPairRange)
    requires c + PairCardinality(p) <= |s| && c + PairCardinality(p) <= |d|
    requires forall k :: c <= k < c + PairCardinality(p) ==> s[k] == p.source.start + (k - c)
    requires forall k :: c <= k < c + PairCardinality(p) ==> d[k] == p.dest.start + (k - c)
    ensures Zip(s[..c], d[..c]) + RangePairs(p) == Zip(s[..c + PairCardinality(p)], d[..c + PairCardinality(p)])
  {
  }

  /** A cursor into a list of ranges: the next range and how much of it is used. */
  ghost predicate Cursor(rs: seq<UIDRange>, i: nat, offset: nat, c: nat)
    requires AllProper(rs)
  {
    && i <= |rs|
    && (if i < |rs| then offset <= rs[i].stop - rs[i].start else offset == 0)
    && c == |Expand(rs[..i])| + offset
    && c <= |Expand(rs)|
  }

  lemma CursorStretch(rs: seq<UIDRange>, i: nat, offset: nat, c: nat, count: nat)
    requires AllProper(rs) && i < |rs| && Cursor(rs, i, offset, c)
    requires 0 < count <= rs[i].stop - rs[i].start + 1 - offset
    ensures c + count <= |Expand(rs)|
    ensures forall k :: c <= k < c + count ==> Expand(rs)[k] == rs[i].start + offset + (k - c)
    ensures if offset + count > rs[i].stop - rs[i].start
            then Cursor(rs, i + 1, 0, c + count) else Cursor(rs, i, offset + count, c + count)
  {
    ExpandAt(rs, i, 0);
    forall k | c <= k < c + count ensures Expand(rs)[k] == rs[i].start + offset + (k - c) {
      ExpandAt(rs, i, offset + (k - c));
    }
  }

  /** The mapping lists the first c pairs of the two expansions. */
  ghost predicate Paired(src: seq<UIDRange>, dst: seq<UIDRange>, c: nat, m: seq<UIDPairRange>)
    requires AllProper(src) && AllProper(dst) && c <= |Expand(src)| && c <= |Expand(dst)|
  {
    WellFormed(m) && Pairs(m) == Zip(Expand(src)[..c], Expand(dst)[..c])
  }

  lemma AllPaired(src: seq<UIDRange>, dst: seq<UIDRange>, c: nat, m: seq<UIDPairRange>)
    requires AllProper(src) && AllProper(dst)
    requires Cursor(src, |src|, 0, c) && Cursor(dst, |dst|, 0, c) && Paired(src, dst, c, m)
    ensures |Expand(src)| == |Expand(dst)| && Pairs(m) == Zip(Expand(src), Expand(dst))
  {
    assert src[..|src|] == src && dst[..|dst|] == dst;
    assert Expand(src)[..c] == Expand(src) && Expand(dst)[..c] == Expand(dst);
  }

  /** One round of the loop: the stretch both cursors can still give. */
  lemma PairOff(src: seq<UIDRange>, i: nat, so: nat, dst: seq<UIDRange>, j: nat, do: nat, c: nat,
                m: seq<UIDPairRange>, p: UIDPairRange)
    requires AllProper(src) && AllProper(dst) && i < |src| && j < |dst|
    requires Cursor(src, i, so, c) && Cursor(dst, j, do, c) && Paired(src, dst, c, m)
    requires p.source.start == src[i].start + so && p.source.stop <= src[i].stop
    requires p.dest.start == dst[j].start + do && p.dest.stop <= dst[j].stop
    requires PairCardinality(p) > 0
    ensures var n := PairCardinality(p);
            && c + n <= |Expand(src)| && c + n <= |Expand(dst)|
            && Paired(src, dst, c + n, m + [p])
  {
    CursorStretch(src, i, so, c, PairCardinality(p));
    CursorStretch(dst, j, do, c, PairCardinality(p));
    ZipStep(Expand(src), Expand(dst), c, p);
    assert (m + [p])[..|m|] == m;
  }

  /** Moves a cursor past `count` numbers of its range. */
  method Advance(rs: seq<UIDRange>, i0: nat, offset0: nat, count: nat, ghost c: nat) returns (i: nat, offset: nat)
    requires AllProper(rs) && i0 < |rs| && Cursor(rs, i0, offset0, c)
    requires 0 < count <= rs[i0].stop - rs[i0].start + 1 - offset0
    ensures Cursor(rs, i, offset, c + count)
    ensures if offset0 + count > rs[i0].stop - rs[i0].start then i == i0 + 1 && offset == 0 else i == i0 && offset > 0
  {
    CursorStretch(rs, i0, offset0, c, count);
    i, offset := i0, offset0 + count;
    if rs[i].start + offset0 + count > rs[i].stop {
      i, offset := i + 1, 0;
    }
  }

  /** How many ranges there are by now: one for each cursor moved, and one less
      when both stand at the start of a range. */
  ghost predicate Tally(n: nat, i: nat, srcOffset: nat, j: nat, dstOffset: nat) {
    && n <= i + j
    && (n > 0 && srcOffset == 0 && dstOffset == 0 ==> n <= i + j - 1)
    && (i + j > 0 ==> n > 0)
  }

  /** One round of the loop: the next stretch, and the cursors after it. */
  method PairNext(src: seq<UIDRange>, i0: nat, so0: nat, dst: seq<UIDRange>, j0: nat, do0: nat,
                  ghost c: nat, ghost m: seq<UIDPairRange>)
    returns (p: UIDPairRange, i: nat, so: nat, j: nat, do: nat)
    requires AllProper(src) && AllProper(dst) && i0 < |src| && j0 < |dst|
    requires Cursor(src, i0, so0, c) && Cursor(dst, j0, do0, c) && Paired(src, dst, c, m)
    requires Tally(|m|, i0, so0, j0, do0)
    ensures var d := c + PairCardinality(p);
            Cursor(src, i, so, d) && Cursor(dst, j, do, d) && Paired(src, dst, d, m + [p])
    ensures i0 <= i && j0 <= j && i + j > i0 + j0 && Tally(|m| + 1, i, so, j, do)
  {
    var srcStart, dstStart := src[i0].start + so0, dst[j0].start + do0;
    var count := Min(src[i0].stop - srcStart + 1, dst[j0].stop - dstStart + 1);
    p := UIDPairRange(UIDRange(srcStart, srcStart + count - 1), UIDRange(dstStart, dstStart + count - 1));
    assert PairCardinality(p) == count;
    PairOff(src, i0, so0, dst, j0, do0, c, m, p);
    i, so := Advance(src, i0, so0, count, c);
    j, do := Advance(dst, j0, do0, count, c);
  }

  /** The two-cursor loop: pairs off the two lists stretch by stretch. */
  method ZipRanges(src: seq<UIDRange>, dst: seq<UIDRange>) returns (mapping: Option<seq<UIDPairRange>>)
    requires AllProper(src) && AllProper(dst) && src != [] && dst != []
    ensures mapping.Some? <==> |Expand(src)| == |Expand(dst)|
    ensures mapping.Some? ==>
              && mapping.value != [] && WellFormed(mapping.value)
              && Pairs(mapping.value) == Zip(Expand(src), Expand(dst))
              && |mapping.value| <= |src| + |dst| - 1
  {
    var m := [];
    var i: nat, j: nat := 0, 0;
    var srcOffset: nat, dstOffset: nat := 0, 0;
    ghost var c: nat := 0;
    while i < |src| && j < |dst|
      invariant Cursor(src, i, srcOffset, c) && Cursor(dst, j, dstOffset, c)
      invariant Paired(src, dst, c, m)
      invariant Tally(|m|, i, srcOffset, j, dstOffset)
      decreases |src| - i + |dst| - j
    {
      var p;
      p, i, srcOffset, j, dstOffset := PairNext(src, i, srcOffset, dst, j, dstOffset, c, m);
      m, c := m + [p], c + PairCardinality(p);
    }
    if i != |src| || j != |dst| {
      Leftover(src, i, srcOffset, c);
      Leftover(dst, j, dstOffset, c);
      return None;
    }
    AllPaired(src, dst, c, m);
    mapping := Some(m);
  }

  /** A cursor short of the end leaves numbers over; one at the end does not. */
  lemma Leftover(rs: seq<UIDRange>, i: nat, offset: nat, c: nat)
    requires AllProper(rs) && Cursor(rs, i, offset, c)
    ensures c < |Expand(rs)| <==> i < |rs|
  {
    if i < |rs| {
      ExpandAt(rs, i, 0);
    } else {
      assert rs[..i] == rs;
    }
  }

  /** The two texts describe a mapping: both parse, they list equally many UIDs
      and neither lists one twice. */
  ghost predicate Describes(source: bytes, dest: bytes) {
    && IsUIDText(source) && IsUIDText(dest)
    && |UIDsOfText(source)| == |UIDsOfText(dest)|
    && NoRepeat(UIDsOfText(source)) && NoRepeat(UIDsOfText(dest))
  }

  method ParseUIDMapping(source: bytes, dest: bytes) returns (mapping: Option<seq<UIDPairRange>>)
    ensures mapping.Some? <==> Describes(source, dest)
    ensures mapping.Some? ==>
              && Valid(mapping.value)
              && Pairs(mapping.value) == Zip(UIDsOfText(source), UIDsOfText(dest))
              && |mapping.value| <= |Split(source, 0x2C)| + |Split(dest, 0x2C)| - 1
  {
    var src := ParseOrderedUIDSet(source);
    if src.None? {
      return None;
    }
    var dst := ParseOrderedUIDSet(dest);
    if dst.None? {
      return None;
    }
    mapping := ZipRanges(src.value, dst.value);
    if mapping.None? {
      return;
    }
    PairsZip(mapping.value);
    ZipInjective(Expand(Sources(mapping.value)), Expand(Dests(mapping.value)), Expand(src.value), Expand(dst.value));
    var ok := Validate(mapping.value);
    if !ok {
      return None;
    }
  }

  lemma ZipInjective(a: seq<int>, b: seq<int>, c: seq<int>, d: seq<int>)
    requires |a| == |b| && |c| == |d| && Zip(a, b) == Zip(c, d)
    ensures a == c && b == d
  {
    assert |Zip(a, b)| == |Zip(c, d)|;
    forall i | 0 <= i < |a| ensures a[i] == c[i] && b[i] == d[i] {
      assert Zip(a, b)[i] == Zip(c, d)[i];
    }
  }

  // ---------------------------------------------------------------------
  // Printing
  // ---------------------------------------------------------------------

  function RangeText(r: UIDRange): bytes {
    if r.stop == r.start then FormatUint(r.start) else FormatUint(r.start) + [COLON] + FormatUint(r.stop)
  }

  ghost function Texts(rs: seq<UIDRange>): seq<bytes> {
    seq(|rs|, i requires 0 <= i < |rs| => RangeText(rs[i]))
  }

  ghost function ListText(rs: seq<UIDRange>): bytes {
    if rs == [] then [] else Join(Texts(rs), COMMA)
  }

  /** Adjacent ranges run together, in the order listed. */
  ghost function Compressed(rs: seq<UIDRange>): (c: seq<UIDRange>)
    ensures rs != [] ==> c != [] && c[|c| - 1].stop == rs[|rs| - 1].stop
    decreases |rs|
  {
    if rs == [] then
      []
    else
      var n := |rs| - 1;
      var c, r := Compressed(rs[..n]), rs[n];
      if c != [] && c[|c| - 1].stop + 1 == r.start
      then c[..|c| - 1] + [UIDRange(c[|c| - 1].start, r.stop)]
      else c + [r]
  }

  lemma {:induction false} CompressedExpands(rs: seq<UIDRange>)
    requires AllProper(rs)
    ensures AllProper(Compressed(rs)) && Expand(Compressed(rs)) == Expand(rs)
    decreases |rs|
  {
    if rs != [] {
      var n := |rs| - 1;
      CompressedExpands(rs[..n]);
      var c, r := Compressed(rs[..n]), rs[n];
      if c != [] && c[|c| - 1].stop + 1 == r.start {
        ExtendLast(c, r);
      } else {
        assert (c + [r])[..|c|] == c;
      }
    }
  }

  /** No two neighbours could be joined any further. */
  lemma {:induction false} CompressedApart(rs: seq<UIDRange>)
    ensures forall k :: 0 < k < |Compressed(rs)| ==> Compressed(rs)[k - 1].stop + 1 != Compressed(rs)[k].start
    decreases |rs|
  {
    if rs != [] {
      CompressedApart(rs[..|rs| - 1]);
    }
  }

  lemma ExtendLast(c: seq<UIDRange>, r: UIDRange)
    requires AllProper(c) && Proper(r) && c != [] && c[|c| - 1].stop + 1 == r.start
    ensures var d := c[..|c| - 1] + [UIDRange(c[|c| - 1].start, r.stop)];
            AllProper(d) && Expand(d) == Expand(c) + Numbers(r)
  {
    var k := |c| - 1;
    var d := c[..k] + [UIDRange(c[k].start, r.stop)];
    assert d[..k] == c[..k];
    assert Numbers(d[k]) == Numbers(c[k]) + Numbers(r);
    assert Expand(c[..k]) + (Numbers(c[k]) + Numbers(r)) == Expand(c[..k]) + Numbers(c[k]) + Numbers(r);
  }

  /** One more range written: a comma unless it is the first. */
  lemma ListTextGrows(c: seq<UIDRange>, r: UIDRange)
    ensures ListText(c + [r]) == if c == [] then RangeText(r) else ListText(c) + [COMMA] + RangeText(r)
  {
    assert Texts(c + [r]) == Texts(c) + [RangeText(r)];
    if c != [] {
      JoinSnoc(Texts(c), RangeText(r), COMMA);
    }
  }

  method Flush(out0: bytes, first: bool, pending: UIDRange, ghost written: seq<UIDRange>) returns (out: bytes)
    requires pending.start != 0 && out0 == ListText(written) && (first <==> written == [])
    ensures out == ListText(written + [pending])
  {
    ListTextGrows(written, pending);
    out := out0;
    if !first {
      out := out + [COMMA];
    }
    out := out + FormatUint(pending.start);
    if pending.stop != pending.start {
      out := out + [COLON] + FormatUint(pending.stop);
    }
  }

  /** One side of a mapping, with a range held back until the next one is known
      not to continue it. */
  method PrintSide(side: seq<UIDRange>) returns (out: bytes)
    requires AllProper(side) && side != []
    ensures out == ListText(Compressed(side))
  {
    out := [];
    var pending, first := UIDRange(0, 0), true;
    ghost var written: seq<UIDRange> := [];
    for i := 0 to |side|
      invariant out == ListText(written) && (first <==> written == [])
      invariant if i == 0 then pending.start == 0 && written == []
                else pending.start != 0 && Compressed(side[..i]) == written + [pending]
    {
      var r := side[i];
      assert side[..i + 1][..i] == side[..i] && side[..i + 1][i] == r;
      if pending.start != 0 && pending.stop + 1 == r.start {
        pending := UIDRange(pending.start, r.stop);
      } else {
        if pending.start != 0 {
          out := Flush(out, first, pending, written);
          first := false;
          written := written + [pending];
        }
        pending := r;
      }
    }
    assert side[..|side|] == side;
    out := Flush(out, first, pending, written);
  }

  /** Both sides in copying order, separated by a space. */
  ghost function MappingText(m: seq<UIDPairRange>): bytes {
    ListText(Compressed(Sources(m))) + [SPACE] + ListText(Compressed(Dests(m)))
  }

  method PrintUIDMapping(m: seq<UIDPairRange>) returns (out: bytes)
    requires Valid(m)
    ensures out == MappingText(m)
  {
    var sources, dests := [], [];
    for i := 0 to |m|
      invariant sources == Sources(m)[..i] && dests == Dests(m)[..i]
    {
      sources, dests := sources + [m[i].source], dests + [m[i].dest];
    }
    assert sources == Sources(m) && dests == Dests(m);
    var a := PrintSide(sources);
    var b := PrintSide(dests);
    out := a + [SPACE] + b;
  }

  // ---------------------------------------------------------------------
  // Round trip
  // ---------------------------------------------------------------------

  lemma RangeTextParses(r: UIDRange)
    requires Proper(r)
    ensures ParseItem(RangeText(r)) == Some(r)
    ensures forall c :: c in RangeText(r) ==> IsDigit(c) || c == COLON
  {
    var a := FormatUint(r.start);
    FormatParse(r.start, MAX_UINT32);
    assert COLON !in a;
    if r.stop == r.start {
      IndexByteNone(a, COLON);
      assert a[..|a|] == a;
    } else {
      var b := FormatUint(r.stop);
      FormatParse(r.stop, MAX_UINT32);
      IndexByteAt(a, COLON, b);
      var text := a + [COLON] + b;
      assert text[..|a|] == a && text[|a| + 1..] == b;
    }
  }

  lemma ListTextParses(rs: seq<UIDRange>)
    requires AllProper(rs) && rs != []
    ensures OrderedOfText(ListText(rs)) == Some(rs)
  {
    var items := Texts(rs);
    forall i | 0 <= i < |rs| ensures ParseItem(items[i]) == Some(rs[i]) && COMMA !in items[i] {
      RangeTextParses(rs[i]);
    }
    SplitJoin(items, COMMA);
    assert Parsed(items) == rs;
  }

  lemma {:induction false} JoinBytes(items: seq<bytes>, c: byte)
    requires items != [] && c != COMMA && forall i :: 0 <= i < |items| ==> c !in items[i]
    ensures c !in Join(items, COMMA)
    decreases |items|
  {
    if |items| > 1 {
      JoinBytes(items[1..], c);
    }
  }

  lemma ListTextNoSpace(rs: seq<UIDRange>)
    requires AllProper(rs) && rs != []
    ensures SPACE !in ListText(rs)
  {
    forall i | 0 <= i < |rs| ensures SPACE !in Texts(rs)[i] {
      RangeTextParses(rs[i]);
    }
    JoinBytes(Texts(rs), SPACE);
  }

  /** A printed side lists the UIDs of its ranges in order. */
  lemma SidePrinted(rs: seq<UIDRange>)
    requires AllProper(rs) && rs != []
    ensures var a := ListText(Compressed(rs));
            IsUIDText(a) && UIDsOfText(a) == Expand(rs) && SPACE !in a
  {
    var c := Compressed(rs);
    CompressedExpands(rs);
    ListTextParses(c);
    ListTextNoSpace(c);
    TextLists(ListText(c));
  }

  lemma TwoFields(a: bytes, b: bytes)
    requires SPACE !in a && SPACE !in b
    ensures Split(a + [SPACE] + b, SPACE) == [a, b]
  {
    assert Join([a, b], SPACE) == a + [SPACE] + b by {
      assert [a, b][1..] == [b];
    }
    SplitJoin([a, b], SPACE);
  }

  /** A range is printed as its one UID, or as the lower one, a colon and the
      higher one. */
  lemma RangePrinted(r: UIDRange)
    requires Proper(r)
    ensures var v := RangeText(r);
            if r.start == r.stop then IsUID(v) && DigitsValue(v) == r.start
            else exists i :: PairAt(v, i) && DigitsValue(v[..i]) == r.start && DigitsValue(v[i + 1..]) == r.stop
  {
    FormatValue(r.start);
    FormatValue(r.stop);
    if r.start != r.stop {
      var v, a, b := RangeText(r), FormatUint(r.start), FormatUint(r.stop);
      assert v[..|a|] == a && v[|a| + 1..] == b;
      assert PairAt(v, |a|);
    }
  }

  ghost function SourceText(m: seq<UIDPairRange>): bytes { ListText(Compressed(Sources(m))) }

  ghost function DestText(m: seq<UIDPairRange>): bytes { ListText(Compressed(Dests(m))) }

  /** Though each side is recompressed on its own, the printed text falls into
      two fields that describe the very pairs of the mapping. */
  lemma PrintedDescribes(m: seq<UIDPairRange>)
    requires Valid(m)
    ensures Split(MappingText(m), SPACE) == [SourceText(m), DestText(m)]
    ensures Describes(SourceText(m), DestText(m))
    ensures Zip(UIDsOfText(SourceText(m)), UIDsOfText(DestText(m))) == Pairs(m)
  {
    PairsZip(m);
    SidePrinted(Sources(m));
    SidePrinted(Dests(m));
    TwoFields(SourceText(m), DestText(m));
  }

  /** Printing a valid mapping and parsing the two fields gives a mapping with
      the same ordered pairs. */
  method PrintParse(m: seq<UIDPairRange>) returns (back: Option<seq<UIDPairRange>>)
    requires Valid(m)
    ensures back.Some? && Valid(back.value) && Pairs(back.value) == Pairs(m)
  {
    var text := PrintUIDMapping(m);
    PrintedDescribes(m);
    var fields := Split(text, SPACE);
    back := ParseUIDMapping(fields[0], fields[1]);
  }
}

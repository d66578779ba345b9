/** Number sets as text: "1:3,7,12:*". */
module NumSetText {
  import opened Prelude
  import opened Text
  import opened NumSet
  import opened NumSetOps

  // ---------------------------------------------------------------------
  // Printing
  // ---------------------------------------------------------------------

  function RangeText(r: Range): bytes {
    if r.start == r.stop then
      if r.start == 0 then [STAR] else FormatUint(r.start)
    else if r.stop == 0 then
      FormatUint(r.start) + [COLON, STAR]
    else
      FormatUint(r.start) + [COLON] + FormatUint(r.stop)
  }

  ghost function RangeTexts(s: seq<Range>): seq<bytes> {
    seq(|s|, i requires 0 <= i < |s| => RangeText(s[i]))
  }

  /** The ranges separated by commas. */
  ghost function SetText(s: seq<Range>): bytes {
    if s == [] then [] else Join(RangeTexts(s), COMMA)
  }

  /** The text with a comma before every range. */
  ghost function CommaText(s: seq<Range>): bytes {
    if s == [] then [] else [COMMA] + SetText(s)
  }

  method SetString(s: seq<Range>) returns (text: bytes)
    requires AllProper(s)
    ensures text == SetText(s)
  {
    if |s| == 0 {
      return [];
    }
    var b := [];
    for i := 0 to |s|
      invariant b == CommaText(s[..i])
    {
      b := AppendRangeText(b + [COMMA], s[i]);
      TextGrows(s, i);
    }
    assert s[..|s|] == s;
    text := b[1..];
  }

  method AppendRangeText(b0: bytes, v: Range) returns (b: bytes)
    requires Proper(v)
    ensures b == b0 + RangeText(v)
  {
    if v.start == 0 {
      return b0 + [STAR];
    }
    b := b0 + FormatUint(v.start);
    if v.start != v.stop {
      if v.stop == 0 {
        b := b + [COLON, STAR];
      } else {
        b := b + [COLON] + FormatUint(v.stop);
      }
    }
  }

  lemma TextGrows(s: seq<Range>, i: nat)
    requires i < |s|
    ensures CommaText(s[..i + 1]) == CommaText(s[..i]) + [COMMA] + RangeText(s[i])
  {
    assert RangeTexts(s[..i + 1]) == RangeTexts(s[..i]) + [RangeText(s[i])];
    if i > 0 {
      JoinSnoc(RangeTexts(s[..i]), RangeText(s[i]), COMMA);
      var a, r := SetText(s[..i]), RangeText(s[i]);
      assert [COMMA] + (a + [COMMA] + r) == [COMMA] + a + [COMMA] + r;
    }
  }

  // ---------------------------------------------------------------------
  // Parsing
  // ---------------------------------------------------------------------

  /** A non-zero number without leading zeros, or "*" as 0. */
  function ParseNum(v: bytes): Option<uint32> {
    var n := ParseUint(v, MAX_UINT32);
    if n.Some? && v[0] != ZERO then Some(n.value)
    else if v == [STAR] then Some(0)
    else None
  }

  function ParseNumRange(v: bytes): (r: Option<Range>)
    ensures r.Some? ==> Proper(r.value)
  {
    var sep := IndexByte(v, COLON);
    if sep == |v| then
      var n := ParseNum(v);
      if n.None? then None else Some(Range(n.value, n.value))
    else
      var a, b := ParseNum(v[..sep]), ParseNum(v[sep + 1..]);
      if a.None? || b.None? then None
      else if (b.value < a.value && b.value != 0) || a.value == 0 then Some(Range(b.value, a.value))
      else Some(Range(a.value, b.value))
  }

  /** Every item of the list parses. */
  ghost predicate AllParse(items: seq<bytes>) {
    forall i :: 0 <= i < |items| ==> ParseNumRange(items[i]).Some?
  }

  ghost function Parsed(items: seq<bytes>): (rs: seq<Range>)
    requires AllParse(items)
    ensures AllProper(rs)
  {
    seq(|items|, i requires 0 <= i < |items| => ParseNumRange(items[i]).value)
  }

  /** What a set text means: None when an item is malformed, else the canonical
      set of all its items. */
  ghost function SetOfText(text: bytes): (s: Option<seq<Range>>)
    ensures s.Some? ==> Canonical(s.value)
  {
    var items := Split(text, COMMA);
    if AllParse(items) then Some(InsertedAll([], Parsed(items))) else None
  }

  // ---------------------------------------------------------------------
  // What the text of a set is, byte by byte
  // ---------------------------------------------------------------------

  /** nz-number of RFC 9051, as far as it fits a uint32. */
  ghost predicate IsNumber(v: bytes) {
    v != [] && (forall i :: 0 <= i < |v| ==> 0x30 <= v[i] <= 0x39) && v[0] != 0x30 && DigitsValue(v) <= 4294967295
  }

  ghost predicate IsBound(v: bytes) {
    IsNumber(v) || v == [0x2A]
  }

  /** Zero stands for "*". */
  ghost function BoundOf(v: bytes): nat
    requires IsBound(v)
  {
    if v == [0x2A] then 0 else DigitsValue(v)
  }

  /** A colon at i with a bound on either side. */
  ghost predicate PairAt(v: bytes, i: int) {
    0 <= i < |v| && v[i] == 0x3A && IsBound(v[..i]) && IsBound(v[i + 1..])
  }

  ghost predicate IsItem(v: bytes) {
    IsBound(v) || exists i :: PairAt(v, i)
  }

  /** q lies between the bounds, in either order, "*" being above all numbers. */
  ghost predicate Between(x: nat, y: nat, q: nat) {
    if x == 0 && y == 0 then q == 0
    else if x == 0 || y == 0 then q == 0 || q >= x + y
    else Min(x, y) <= q <= Max(x, y)
  }

  ghost predicate ItemHas(v: bytes, q: nat) {
    || (IsBound(v) && Between(BoundOf(v), BoundOf(v), q))
    || exists i :: PairAt(v, i) && Between(BoundOf(v[..i]), BoundOf(v[i + 1..]), q)
  }

  lemma ParseBound(v: bytes)
    ensures ParseNum(v).Some? <==> IsBound(v)
    ensures IsBound(v) ==> ParseNum(v) == Some(BoundOf(v)) && 0x3A !in v
  {
    if IsNumber(v) {
      assert AllDigits(v);
    }
  }

  /** The colon is where the parser looks for it. */
  lemma PairIndex(v: bytes, i: int)
    requires PairAt(v, i)
    ensures IndexByte(v, COLON) == i
  {
    ParseBound(v[..i]);
    assert v == v[..i] + [COLON] + v[i + 1..];
    IndexByteAt(v[..i], COLON, v[i + 1..]);
  }

  lemma BoundIndex(v: bytes)
    ensures IsBound(v) ==> IndexByte(v, COLON) == |v| && forall i :: !PairAt(v, i)
  {
    ParseBound(v);
    if COLON !in v {
      IndexByteNone(v, COLON);
    }
  }

  /** An item is accepted exactly when it is a bound or a pair of them, */
  lemma ItemAccepted(v: bytes)
    ensures ParseNumRange(v).Some? <==> IsItem(v)
  {
    var sep := IndexByte(v, COLON);
    BoundIndex(v);
    forall i | PairAt(v, i) ensures i == sep {
      PairIndex(v, i);
    }
    if sep == |v| {
      ParseBound(v);
    } else {
      ParseBound(v[..sep]);
      ParseBound(v[sep + 1..]);
      assert ParseNumRange(v).Some? ==> PairAt(v, sep);
    }
  }

  /** and stands for what lies between its bounds. */
  lemma ItemMembers(v: bytes, q: nat)
    requires IsItem(v) && ParseNumRange(v).Some?
    ensures Has(ParseNumRange(v).value, q) <==> ItemHas(v, q)
  {
    if IsBound(v) {
      BoundIndex(v);
      ParseBound(v);
    } else {
      var i :| PairAt(v, i);
      PairIndex(v, i);
      ParseBound(v[..i]);
      ParseBound(v[i + 1..]);
      forall j | PairAt(v, j) ensures j == i {
        PairIndex(v, j);
      }
    }
  }

  /** The text is items separated by commas. */
  ghost predicate IsSetText(text: bytes) {
    forall i :: 0 <= i < |Split(text, 0x2C)| ==> IsItem(Split(text, 0x2C)[i])
  }

  ghost predicate TextHas(text: bytes, q: nat) {
    exists i :: 0 <= i < |Split(text, 0x2C)| && ItemHas(Split(text, 0x2C)[i], q)
  }

  /** A set text is refused exactly when an item is malformed, and otherwise
      denotes the numbers of its items. */
  lemma SetTextMeans(text: bytes)
    ensures SetOfText(text).Some? <==> IsSetText(text)
    ensures IsSetText(text) ==> forall q: nat :: Member(SetOfText(text).value, q) <==> TextHas(text, q)
  {
    var items := Split(text, COMMA);
    forall i | 0 <= i < |items| ensures ParseNumRange(items[i]).Some? <==> IsItem(items[i]) {
      ItemAccepted(items[i]);
    }
    assert AllParse(items) <==> IsSetText(text);
    if IsSetText(text) {
      forall q: nat ensures Member(SetOfText(text).value, q) <==> TextHas(text, q) {
        ParsedMembers(text, q);
        ItemsMembers(text, q);
      }
    }
  }

  lemma ItemsMembers(text: bytes, q: nat)
    requires IsSetText(text) && AllParse(Split(text, COMMA))
    ensures Member(Parsed(Split(text, COMMA)), q) <==> TextHas(text, q)
  {
    var items := Split(text, COMMA);
    var rs := Parsed(items);
    forall i | 0 <= i < |items| ensures Has(rs[i], q) <==> ItemHas(items[i], q) {
      ItemMembers(items[i], q);
    }
    if Member(rs, q) {
      var i :| 0 <= i < |rs| && Has(rs[i], q);
      assert ItemHas(items[i], q);
    }
    if TextHas(text, q) {
      var i :| 0 <= i < |items| && ItemHas(items[i], q);
      assert Has(rs[i], q);
    }
  }

  // ---------------------------------------------------------------------
  // The parser
  // ---------------------------------------------------------------------

  method ParseSet(text: bytes) returns (s: Option<seq<Range>>)
    ensures s == SetOfText(text)
    ensures s.Some? <==> IsSetText(text)
    ensures s.Some? ==> Canonical(s.value) && forall q: nat :: Member(s.value, q) <==> TextHas(text, q)
  {
    SetTextMeans(text);
    var items := Split(text, COMMA);
    var acc: seq<Range> := [];
    for i := 0 to |items|
      invariant AllParse(items[..i])
      invariant Canonical(acc) && acc == InsertedAll([], Parsed(items[..i]))
    {
      var r := ParseNumRange(items[i]);
      if r.None? {
        return None;
      }
      acc := InsertRange(acc, Ordered(r.value.start, r.value.stop));
      ParsedGrows(items, i);
    }
    assert items[..|items|] == items;
    s := Some(acc);
  }

  lemma ParsedGrows(items: seq<bytes>, i: nat)
    requires i < |items| && AllParse(items[..i]) && ParseNumRange(items[i]).Some?
    ensures AllParse(items[..i + 1])
    ensures Parsed(items[..i + 1]) == Parsed(items[..i]) + [ParseNumRange(items[i]).value]
    ensures InsertedAll([], Parsed(items[..i + 1])) ==
            Inserted(InsertedAll([], Parsed(items[..i])), ParseNumRange(items[i]).value)
  {
    var more := items[..i + 1];
    assert forall k :: 0 <= k < i ==> more[k] == items[..i][k];
    assert more[i] == items[i];
    assert Parsed(more)[..i] == Parsed(items[..i]);
  }

  // ---------------------------------------------------------------------
  // Round trip
  // ---------------------------------------------------------------------

  lemma FormatParseNum(n: uint32)
    requires n > 0
    ensures ParseNum(FormatUint(n)) == Some(n)
  {
    FormatParse(n, MAX_UINT32);
  }

  lemma NoByteInDigits(s: bytes, c: byte)
    requires AllDigits(s) && !IsDigit(c)
    ensures c !in s
  {
  }

  lemma CutAtColon(a: bytes, b: bytes)
    requires COLON !in a
    ensures var text := a + [COLON] + b;
            IndexByte(text, COLON) == |a| && text[..|a|] == a && text[|a| + 1..] == b
  {
    IndexByteAt(a, COLON, b);
  }

  lemma PairRoundTrip(r: Range)
    requires Proper(r) && r.start != 0 && r.start != r.stop
    ensures ParseNumRange(RangeText(r)) == Some(r)
    ensures COMMA !in RangeText(r)
  {
    var a, b := FormatUint(r.start), if r.stop == 0 then [STAR] else FormatUint(r.stop);
    FormatParseNum(r.start);
    if r.stop != 0 {
      FormatParseNum(r.stop);
    }
    NoByteInDigits(a, COLON);
    ParsePair(a, r.start, b, r.stop);
    assert RangeText(r) == a + [COLON] + b;
  }

  lemma ParsePair(a: bytes, x: uint32, b: bytes, y: uint32)
    requires COLON !in a && ParseNum(a) == Some(x) && ParseNum(b) == Some(y)
    ensures ParseNumRange(a + [COLON] + b) ==
            Some(if (y < x && y != 0) || x == 0 then Range(y, x) else Range(x, y))
  {
    CutAtColon(a, b);
  }

  lemma RangeRoundTrip(r: Range)
    requires Proper(r)
    ensures ParseNumRange(RangeText(r)) == Some(r)
    ensures COMMA !in RangeText(r)
  {
    if r.start == 0 {
      IndexByteNone([STAR], COLON);
    } else if r.start == r.stop {
      var a := FormatUint(r.start);
      FormatParseNum(r.start);
      NoByteInDigits(a, COLON);
      IndexByteNone(a, COLON);
    } else {
      PairRoundTrip(r);
    }
  }

  /** Printing a non-empty set and parsing it gives back the same list. */
  lemma ParsePrint(s: seq<Range>)
    requires Canonical(s) && s != []
    ensures SetOfText(SetText(s)) == Some(s)
  {
    PrintedItems(s);
    InsertedSame(s);
  }

  lemma PrintedItems(s: seq<Range>)
    requires Canonical(s) && s != []
    ensures var items := Split(SetText(s), COMMA); AllParse(items) && Parsed(items) == s
  {
    var items := RangeTexts(s);
    forall i | 0 <= i < |s| ensures ParseNumRange(items[i]) == Some(s[i]) && COMMA !in items[i] {
      RangeRoundTrip(s[i]);
    }
    SplitJoin(items, COMMA);
    assert Parsed(items) == s;
  }

  /** Inserting the ranges of a canonical list one by one gives the list. */
  lemma InsertedSame(s: seq<Range>)
    requires Canonical(s)
    ensures InsertedAll([], s) == s
  {
    forall q: nat ensures Member(InsertedAll([], s), q) <==> Member(s, q) {
      InsertedAllMembers([], s, q);
    }
    CanonicalUnique(InsertedAll([], s), s);
  }

  /** The members of a parsed text are those of its items, read on their own. */
  lemma ParsedMembers(text: bytes, q: nat)
    requires AllParse(Split(text, COMMA))
    ensures SetOfText(text).Some?
    ensures Member(SetOfText(text).value, q) <==> Member(Parsed(Split(text, COMMA)), q)
  {
    InsertedAllMembers([], Parsed(Split(text, COMMA)), q);
  }

  /** A range is printed as its one bound, or as the lower one, a colon and the
      upper one. */
  lemma RangePrinted(r: Range)
    requires Proper(r)
    ensures var v := RangeText(r);
            if r.start == r.stop then IsBound(v) && BoundOf(v) == r.start
            else exists i :: PairAt(v, i) && BoundOf(v[..i]) == r.start && BoundOf(v[i + 1..]) == r.stop
  {
    BoundPrinted(r.start);
    BoundPrinted(r.stop);
    if r.start != r.stop {
      var v, a, b := RangeText(r), BoundText(r.start), BoundText(r.stop);
      assert v == a + [COLON] + b;
      assert v[..|a|] == a && v[|a| + 1..] == b;
      assert PairAt(v, |a|);
    }
  }

  ghost function BoundText(x: uint32): bytes {
    if x == 0 then [STAR] else FormatUint(x)
  }

  lemma BoundPrinted(x: uint32)
    ensures IsBound(BoundText(x)) && BoundOf(BoundText(x)) == x
  {
    FormatValue(x);
  }
}

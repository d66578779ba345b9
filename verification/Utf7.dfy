/** Modified UTF-7 (internal/utf7), section 5.1.3 of RFC 3501. */
module Utf7 {
  import opened Prelude
  import opened Utf8
  import Base64

  predicate Printable(r: int) { 0x20 <= r <= 0x7E }

  lemma Append(a: bytes, b: bytes, c: bytes)
    ensures a + (b + c) == a + b + c
  {
  }

  // ---------------------------------------------------------------------
  // UTF-16, big endian
  // ---------------------------------------------------------------------

  function Units(r: scalar): (b: bytes)
    ensures |b| == if r < 0x10000 then 2 else 4
  {
    if r < 0x10000 then [r / 256, r % 256]
    else
      var high, low := 0xD800 + (r - 0x10000) / 1024, 0xDC00 + (r - 0x10000) % 1024;
      [high / 256, high % 256, low / 256, low % 256]
  }

  function Utf16(rs: seq<scalar>): bytes {
    if rs == [] then [] else Units(rs[0]) + Utf16(rs[1..])
  }

  function Unit(b: bytes): int
    requires |b| >= 2
  {
    var hi: int, lo: int := b[0], b[1];
    hi * 256 + lo
  }

  predicate Surrogate(u: int) { 0xD800 <= u < 0xE000 }

  /** The rune the bytes start with and its width. None: a surrogate without its
      partner, or a character that needs no shifting. */
  function ReadUnit(b: bytes): (d: Option<(scalar, nat)>)
    requires |b| >= 2
    ensures d.Some? ==> d.value.1 <= |b| && (d.value.1 == 2 || d.value.1 == 4)
    ensures d.Some? ==> !Printable(d.value.0)
  {
    var u := Unit(b);
    if Surrogate(u) then
      if |b| < 4 then None
      else
        var v := Unit(b[2..]);
        if u < 0xDC00 && 0xDC00 <= v < 0xE000 then Some((0x10000 + (u - 0xD800) * 1024 + (v - 0xDC00), 4)) else None
    else if Printable(u) then None
    else Some((u, 2))
  }

  function FromUtf16(b: bytes): Option<seq<scalar>> {
    if b == [] then Some([])
    else if |b| == 1 then None
    else
      var d := ReadUnit(b);
      if d.None? then None
      else
        var rest := FromUtf16(b[d.value.1..]);
        if rest.None? then None else Some([d.value.0] + rest.value)
  }

  lemma ReadUnits(r: scalar, rest: bytes)
    requires !Printable(r)
    ensures ReadUnit(Units(r) + rest) == Some((r, |Units(r)|))
  {
    var b := Units(r) + rest;
    assert b[0] == Units(r)[0] && b[1] == Units(r)[1];
    if r >= 0x10000 {
      assert b[2..][0] == Units(r)[2] && b[2..][1] == Units(r)[3];
    }
  }

  lemma FromUtf16First(u: bytes, rest: bytes)
    requires |u| >= 2
    requires ReadUnit(u + rest).Some? && ReadUnit(u + rest).value.1 == |u|
    ensures var rs := FromUtf16(rest);
            FromUtf16(u + rest) == if rs.None? then None else Some([ReadUnit(u + rest).value.0] + rs.value)
  {
    assert (u + rest)[|u|..] == rest;
  }

  lemma {:induction false} Utf16Inverse(rs: seq<scalar>)
    requires forall r <- rs :: !Printable(r)
    ensures FromUtf16(Utf16(rs)) == Some(rs)
  {
    if rs != [] {
      var rest := Utf16(rs[1..]);
      assert rs[0] in rs && forall r <- rs[1..] :: r in rs;
      ReadUnits(rs[0], rest);
      Utf16Inverse(rs[1..]);
      FromUtf16First(Units(rs[0]), rest);
      assert [rs[0]] + rs[1..] == rs;
    }
  }

  lemma {:induction false} Utf16Even(rs: seq<scalar>)
    ensures |Utf16(rs)| % 2 == 0
  {
    if rs != [] {
      Utf16Even(rs[1..]);
    }
  }

  // ---------------------------------------------------------------------
  // Encoding
  // ---------------------------------------------------------------------

  /** How many bytes in front are not printable ASCII. */
  function RunEnd(s: bytes): (n: nat)
    ensures n <= |s| && forall b <- s[..n] :: !Printable(b)
    ensures n < |s| ==> Printable(s[n])
  {
    if s == [] || Printable(s[0]) then 0
    else
      var n := 1 + RunEnd(s[1..]);
      assert s[..n] == [s[0]] + s[1..][..n - 1];
      n
  }

  function Shifted(run: bytes): bytes {
    [AMPERSAND] + Base64.Encoded(Utf16(Runes(run))) + [DASH]
  }

  /** What a printable character comes out as. */
  function Plain(ch: byte): bytes {
    if ch == AMPERSAND then [AMPERSAND, DASH] else [ch]
  }

  /** Printable characters as they are, "&" as "&-", every other run shifted. */
  function EncodedText(s: bytes): bytes
    decreases |s|
  {
    if s == [] then []
    else if Printable(s[0]) then Plain(s[0]) + EncodedText(s[1..])
    else Shifted(s[..RunEnd(s)]) + EncodedText(s[RunEnd(s)..])
  }

  lemma EncodedPlain(out: bytes, src: bytes, i: nat)
    requires i < |src| && Printable(src[i])
    ensures out + EncodedText(src[i..]) == out + Plain(src[i]) + EncodedText(src[i + 1..])
  {
    assert src[i..][1..] == src[i + 1..];
  }

  lemma EncodedRun(out: bytes, src: bytes, i: nat, n: nat)
    requires i < n <= |src| && n == i + RunEnd(src[i..])
    ensures out + EncodedText(src[i..]) == out + Shifted(src[i..n]) + EncodedText(src[n..])
  {
    FirstRun(src[i..], n - i);
    SuffixSlices(src, i, n);
    Append(out, Shifted(src[i..n]), EncodedText(src[n..]));
  }

  lemma FirstRun(s: bytes, n: nat)
    requires n > 0 && n == RunEnd(s)
    ensures EncodedText(s) == Shifted(s[..n]) + EncodedText(s[n..])
  {
  }

  lemma SuffixSlices(src: bytes, i: nat, n: nat)
    requires i <= n <= |src|
    ensures src[i..][..n - i] == src[i..n] && src[i..][n - i..] == src[n..]
  {
  }

  method Encode(src: bytes) returns (out: bytes)
    ensures out == EncodedText(src)
  {
    out := [];
    var i := 0;
    assert src[0..] == src;
    while i < |src|
      invariant 0 <= i <= |src|
      invariant out + EncodedText(src[i..]) == EncodedText(src)
    {
      var ch := src[i];
      if Printable(ch) {
        EncodedPlain(out, src, i);
        out := WritePlain(out, ch);
        i := i + 1;
      } else {
        var n := Run(src, i);
        var shifted := EncodeRun(src[i..n]);
        EncodedRun(out, src, i, n);
        out := out + shifted;
        i := n;
      }
    }
  }

  method WritePlain(out0: bytes, ch: byte) returns (out: bytes)
    ensures out == out0 + Plain(ch)
  {
    out := out0 + [ch];
    if ch == AMPERSAND {
      out := out + [DASH];
    }
  }

  /** The loop that looks for the next printable character. */
  method Run(src: bytes, start: nat) returns (i: nat)
    requires start < |src| && !Printable(src[start])
    ensures start < i <= |src| && i == start + RunEnd(src[start..])
  {
    i := start + 1;
    assert src[start..][1..] == src[i..];
    while i < |src| && (src[i] < 0x20 || src[i] > 0x7E)
      invariant start < i <= |src|
      invariant i + RunEnd(src[i..]) == start + RunEnd(src[start..])
    {
      assert src[i..][1..] == src[i + 1..];
      i := i + 1;
    }
  }

  lemma NextUnits(s: bytes)
    requires s != []
    ensures Utf16(Runes(s)) == Units(DecodeRune(s).0) + Utf16(Runes(s[DecodeRune(s).1..]))
  {
    var d := DecodeRune(s);
    Utf16First(d.0, Runes(s[d.1..]));
  }

  lemma Utf16First(r: scalar, rs: seq<scalar>)
    ensures Utf16([r] + rs) == Units(r) + Utf16(rs)
  {
    assert ([r] + rs)[1..] == rs;
  }

  method EncodeRun(run: bytes) returns (out: bytes)
    ensures out == Shifted(run)
  {
    var b := ToUtf16(run);
    out := ShiftBase64(b);
  }

  method ToUtf16(run: bytes) returns (b: bytes)
    ensures b == Utf16(Runes(run))
  {
    b := [];
    var s := run;
    ghost var all := Utf16(Runes(run));
    while |s| > 0
      invariant b + Utf16(Runes(s)) == all
      decreases |s|
    {
      var (r, size) := DecodeRune(s);
      NextUnits(s);
      s := s[size..];
      Append(b, Units(r), Utf16(Runes(s)));
      b := AppendUnits(b, r);
    }
  }

  /** One code unit, or the two of a surrogate pair. */
  method AppendUnits(b: bytes, r: scalar) returns (out: bytes)
    ensures out == b + Units(r)
  {
    var last: int := r;
    out := b;
    if r >= 0x10000 {
      var high := 0xD800 + (r - 0x10000) / 1024;
      out := out + [high / 256, high % 256];
      last := 0xDC00 + (r - 0x10000) % 1024;
    }
    out := out + [last / 256, last % 256];
  }

  lemma PaddingLength(n: nat)
    ensures |Base64.Pads(n)| == 2 - (n + 2) % 3
  {
  }

  /** Encodes in the middle of a buffer, strips the padding and puts the shifts
      at both ends. */
  method ShiftBase64(b: bytes) returns (out: bytes)
    ensures out == [AMPERSAND] + Base64.Encoded(b) + [DASH]
  {
    out := [0] + Base64.StdEncode(b) + [0];
    var n := |out| - (2 - (|b| + 2) % 3);
    PaddingLength(|b|);
    out := out[..n];
    out := out[0 := AMPERSAND][n - 1 := DASH];
  }

  // ---------------------------------------------------------------------
  // Decoding
  // ---------------------------------------------------------------------

  /** What a shifted segment stands for. */
  function Segment(t: bytes): Option<bytes> {
    var b := Base64.Decoded(t);
    if b.None? || |b.value| % 2 == 1 then None else UnitsText(b.value)
  }

  function UnitsText(b: bytes): Option<bytes> {
    var rs := FromUtf16(b);
    if rs.None? then None else Some(Text(rs.value))
  }

  predicate NoBreaks(t: bytes) {
    forall k :: 0 <= k < |t| ==> t[k] != CR && t[k] != LF
  }

  /** Where the segment ends: at the first '-', with no line break before it. */
  function SegmentEnd(s: bytes): (n: Option<nat>)
    ensures n.Some? ==> n.value < |s| && s[n.value] == DASH && NoBreaks(s[..n.value])
  {
    if s == [] || s[0] == CR || s[0] == LF then None
    else if s[0] == DASH then Some(0)
    else
      var n := SegmentEnd(s[1..]);
      if n.None? then None else Some(1 + n.value)
  }

  /** Illegal outside a segment; the bytes of raw UTF-8 are not. */
  predicate Illegal(b: byte) { b < 0x20 || 0x7E < b < 0x80 }

  function Prepend(b: bytes, r: Option<bytes>): Option<bytes> {
    if r.None? then None else Some(b + r.value)
  }

  /** What stands between '&' and '-': nothing for "&" itself, or a segment, which
      may not follow another one. */
  function Shift(t: bytes, ascii: bool): Option<bytes> {
    if t == [] then Some([AMPERSAND]) else if ascii then Segment(t) else None
  }

  /** One round of the decoder: what it writes, how many bytes it takes and
      whether it leaves the decoder in ASCII mode. */
  datatype Round = Round(piece: bytes, size: nat, ascii: bool)

  function Step(s: bytes, ascii: bool): (r: Option<Round>)
    requires s != []
    ensures r.Some? ==> 1 <= r.value.size <= |s|
  {
    if Illegal(s[0]) then None
    else if s[0] != AMPERSAND then Some(Round([s[0]], 1, true))
    else
      var end := SegmentEnd(s[1..]);
      if end.None? then None
      else
        var b := Shift(s[1..end.value + 1], ascii);
        if b.None? then None else Some(Round(b.value, end.value + 2, end.value == 0))
  }

  function DecodedText(s: bytes, ascii: bool): Option<bytes>
    decreases |s|
  {
    if s == [] then Some([])
    else
      var step := Step(s, ascii);
      if step.None? then None else Prepend(step.value.piece, DecodedText(s[step.value.size..], step.value.ascii))
  }

  function Decoded(s: bytes): Option<bytes> {
    if ValidString(s) then DecodedText(s, true) else None
  }

  lemma PrependAll(a: bytes, b: bytes, r: Option<bytes>)
    ensures Prepend(a, Prepend(b, r)) == Prepend(a + b, r)
  {
    if r.Some? {
      assert a + (b + r.value) == a + b + r.value;
    }
  }

  lemma PrependNothing(r: Option<bytes>)
    ensures Prepend([], r) == r
  {
    if r.Some? {
      assert [] + r.value == r.value;
    }
  }

  lemma PrependEnd(out: bytes)
    ensures Prepend(out, Some([])) == Some(out)
  {
    assert out + [] == out;
  }

  method Decode(src: bytes) returns (r: Option<bytes>)
    ensures r == Decoded(src)
  {
    if !ValidString(src) {
      return None;
    }
    r := DecodeValid(src);
  }

  /** The rounds one after the other, with `out` written before them. The loop is
      proved for a round of any kind. */
  ghost function Rounds(round: (bytes, bool) -> Option<Round>, out: bytes, s: bytes, ascii: bool): Option<bytes>
    decreases |s|
  {
    if s == [] then Some(out)
    else
      var r := round(s, ascii);
      if r.None? || !(1 <= r.value.size <= |s|) then None
      else Rounds(round, out + r.value.piece, s[r.value.size..], r.value.ascii)
  }

  ghost predicate IsStep(round: (bytes, bool) -> Option<Round>) {
    forall s: bytes, ascii: bool {:trigger Step(s, ascii)} :: s != [] ==> round(s, ascii) == Step(s, ascii)
  }

  lemma {:induction false} RoundsText(round: (bytes, bool) -> Option<Round>, out: bytes, s: bytes, ascii: bool)
    requires IsStep(round)
    ensures Rounds(round, out, s, ascii) == Prepend(out, DecodedText(s, ascii))
    decreases |s|
  {
    if s == [] {
      PrependEnd(out);
    } else {
      var step := Step(s, ascii);
      if step.Some? {
        RoundsText(round, out + step.value.piece, s[step.value.size..], step.value.ascii);
        PrependAll(out, step.value.piece, DecodedText(s[step.value.size..], step.value.ascii));
      }
    }
  }

  method DecodeValid(src: bytes) returns (r: Option<bytes>)
    ensures r == DecodedText(src, true)
  {
    ghost var round := (s: bytes, ascii: bool) => if s == [] then None else Step(s, ascii);
    RoundsText(round, [], src, true);
    PrependNothing(DecodedText(src, true));
    r := DecodeLoop(src, round);
  }

  method DecodeLoop(src: bytes, ghost round: (bytes, bool) -> Option<Round>) returns (r: Option<bytes>)
    requires IsStep(round)
    ensures r == Rounds(round, [], src, true)
  {
    var out: bytes, ascii, i := [], true, 0;
    ghost var all := Rounds(round, [], src, true);
    assert src[0..] == src;
    while i < |src|
      invariant 0 <= i <= |src|
      invariant Rounds(round, out, src[i..], ascii) == all
    {
      var step := DecodeNext(src, i, ascii, round);
      if step.None? {
        return None;
      }
      SuffixSlices(src, i, i + step.value.size);
      out, i, ascii := out + step.value.piece, i + step.value.size, step.value.ascii;
    }
    return Some(out);
  }

  method DecodeNext(src: bytes, i: nat, ascii: bool, ghost round: (bytes, bool) -> Option<Round>)
    returns (step: Option<Round>)
    requires i < |src| && IsStep(round)
    ensures step == round(src[i..], ascii)
    ensures step.Some? ==> 1 <= step.value.size <= |src| - i
  {
    step := DecodeAt(src, i, ascii);
  }

  method DecodeAt(src: bytes, i: nat, ascii: bool) returns (step: Option<Round>)
    requires i < |src|
    ensures step == Step(src[i..], ascii)
  {
    var ch := src[i];
    if ch < 0x20 || (ch > 0x7E && ch < 0x80) {
      return None;
    }
    if ch != AMPERSAND {
      return Some(Round([ch], 1, true));
    }
    assert src[i..][1..] == src[i + 1..];
    var end := FindEnd(src, i + 1);
    if end.None? {
      return None;
    }
    assert src[i..][1..end.value - i] == src[i + 1..end.value];
    assert src[i + 1..][..end.value - i - 1] == src[i + 1..end.value];
    var b := DecodeShift(src[i + 1..end.value], ascii);
    if b.None? {
      return None;
    }
    return Some(Round(b.value, end.value + 1 - i, end.value == i + 1));
  }

  method DecodeShift(t: bytes, ascii: bool) returns (b: Option<bytes>)
    requires NoBreaks(t)
    ensures b == Shift(t, ascii)
  {
    if t == [] {
      return Some([AMPERSAND]);
    }
    if !ascii {
      return None;
    }
    b := DecodeSegment(t);
  }

  /** The loop that looks for the end of a segment. */
  method FindEnd(src: bytes, start: nat) returns (end: Option<nat>)
    requires start <= |src|
    ensures var n := SegmentEnd(src[start..]);
            end == if n.None? then None else Some(start + n.value)
  {
    var i := start;
    ghost var all := EndFrom(src, start);
    while i < |src| && src[i] != DASH
      invariant start <= i <= |src|
      invariant EndFrom(src, i) == all
    {
      EndFromNext(src, i);
      if src[i] == CR || src[i] == LF {
        return None;
      }
      i := i + 1;
    }
    if i == |src| {
      return None;
    }
    return Some(i);
  }

  ghost function EndFrom(src: bytes, i: nat): Option<nat>
    requires i <= |src|
  {
    var n := SegmentEnd(src[i..]);
    if n.None? then None else Some(i + n.value)
  }

  lemma EndFromNext(src: bytes, i: nat)
    requires i < |src| && src[i] != DASH
    ensures EndFrom(src, i) == if src[i] == CR || src[i] == LF then None else EndFrom(src, i + 1)
  {
    assert src[i..][1..] == src[i + 1..];
  }

  method DecodeSegment(b64: bytes) returns (r: Option<bytes>)
    requires b64 != [] && NoBreaks(b64)
    ensures r == Segment(b64)
  {
    if b64[|b64| - 1] == Base64.EQUALS {
      LastLetter(b64);
      return None;
    }
    Base64.StdDecodePadded(b64);
    var d := Base64.StdDecode(b64 + Base64.Padding(|b64|));
    if d.None? || |d.value| % 2 == 1 {
      return None;
    }
    r := DecodeUnits(d.value);
  }

  method DecodeUnits(b: bytes) returns (r: Option<bytes>)
    requires |b| % 2 == 0
    ensures r == UnitsText(b)
  {
    var out: bytes, i := [], 0;
    ghost var all, half, k := UnitsText(b), |b| / 2, 0;
    assert b[0..] == b && |b| == half + half;
    PrependNothing(all);
    while i < |b|
      invariant i == k + k <= half + half == |b|
      invariant Prepend(out, UnitsText(b[i..])) == all
    {
      var u := DecodeUnit(b, i);
      if u.None? {
        UnitsTextFails(b[i..]);
        return None;
      }
      AfterUnit(b, i);
      k := k + (if u.value.1 == 2 then 1 else 2);
      i := i + u.value.1;
      PrependAll(out, EncodeRune(u.value.0), UnitsText(b[i..]));
      out := out + EncodeRune(u.value.0);
    }
    PrependEnd(out);
    return Some(out);
  }

  method DecodeUnit(b: bytes, i: nat) returns (u: Option<(scalar, nat)>)
    requires i + 2 <= |b|
    ensures u == ReadUnit(b[i..])
  {
    var hi: int, lo: int := b[i], b[i + 1];
    var r := hi * 256 + lo;
    if Surrogate(r) {
      if i + 4 > |b| {
        return None;
      }
      hi, lo := b[i + 2], b[i + 3];
      var r2 := hi * 256 + lo;
      if r >= 0xDC00 || r2 < 0xDC00 || r2 >= 0xE000 {
        return None;
      }
      return Some((0x10000 + (r - 0xD800) * 1024 + (r2 - 0xDC00), 4));
    } else if Printable(r) {
      return None;
    }
    return Some((r, 2));
  }

  lemma AfterUnit(b: bytes, i: nat)
    requires i + 2 <= |b| && ReadUnit(b[i..]).Some?
    ensures var u := ReadUnit(b[i..]).value;
            UnitsText(b[i..]) == Prepend(EncodeRune(u.0), UnitsText(b[i + u.1..]))
  {
    SuffixSlices(b, i, i + ReadUnit(b[i..]).value.1);
    UnitsTextFirst(b[i..]);
  }

  lemma UnitsTextFails(b: bytes)
    requires |b| >= 2 && ReadUnit(b).None?
    ensures UnitsText(b).None?
  {
  }

  lemma UnitsTextFirst(b: bytes)
    requires |b| >= 2 && ReadUnit(b).Some?
    ensures var u := ReadUnit(b).value;
            UnitsText(b) == Prepend(EncodeRune(u.0), UnitsText(b[u.1..]))
  {
    var u := ReadUnit(b).value;
    var rs := FromUtf16(b[u.1..]);
    if rs.Some? {
      assert ([u.0] + rs.value)[1..] == rs.value;
    }
  }

  /** Padding the sender left in place is refused. */
  lemma {:induction false} LastLetter(t: bytes)
    requires t != [] && t[|t| - 1] == Base64.EQUALS
    ensures Base64.Decoded(t).None?
    decreases |t|
  {
    if |t| > 4 {
      assert t[4..][|t| - 5] == t[|t| - 1];
      LastLetter(t[4..]);
    } else if |t| > 1 {
      assert t[..|t|] == t && t[|t| - 1] in t;
    }
  }

  // ---------------------------------------------------------------------
  // Round trip
  // ---------------------------------------------------------------------

  /** The runes of bytes that are not printable are not printable either. */
  lemma {:induction false} RunPrintable(run: bytes)
    requires forall b <- run :: !Printable(b)
    ensures forall r <- Runes(run) :: !Printable(r)
    decreases |run|
  {
    if run != [] {
      var n := DecodeRune(run).1;
      assert run[0] in run && forall b <- run[n..] :: b in run;
      RunPrintable(run[n..]);
    }
  }

  lemma SegmentInverse(run: bytes)
    requires forall b <- run :: !Printable(b)
    ensures Segment(Base64.Encoded(Utf16(Runes(run)))) == Some(Text(Runes(run)))
  {
    var rs := Runes(run);
    RunPrintable(run);
    Utf16Inverse(rs);
    Utf16Even(rs);
    Base64.DecodeEncoded(Utf16(rs));
  }

  lemma {:induction false} SegmentEndAt(t: bytes, rest: bytes)
    requires Base64.AllLetters(t)
    ensures SegmentEnd(t + [DASH] + rest) == Some(|t|)
  {
    var s := t + [DASH] + rest;
    if t != [] {
      assert t[0] in t && forall c <- t[1..] :: c in t;
      assert s[1..] == t[1..] + [DASH] + rest;
      SegmentEndAt(t[1..], rest);
    }
  }

  lemma StepShifted(run: bytes, rest: bytes)
    requires run != [] && forall b <- run :: !Printable(b)
    ensures Step(Shifted(run) + rest, true) == Some(Round(Text(Runes(run)), |Shifted(run)|, false))
  {
    var t := ShiftedParts(run);
    StepLetters(t, Text(Runes(run)), rest);
  }

  lemma ShiftedParts(run: bytes) returns (t: bytes)
    requires run != [] && forall b <- run :: !Printable(b)
    ensures Shifted(run) == [AMPERSAND] + t + [DASH]
    ensures t != [] && Base64.AllLetters(t) && Segment(t) == Some(Text(Runes(run)))
  {
    t := Base64.Encoded(Utf16(Runes(run)));
    SegmentInverse(run);
    SegmentFull(run);
  }

  lemma StepLetters(t: bytes, text: bytes, rest: bytes)
    requires t != [] && Base64.AllLetters(t) && Segment(t) == Some(text)
    ensures Step([AMPERSAND] + t + [DASH] + rest, true) == Some(Round(text, |t| + 2, false))
  {
    var s := [AMPERSAND] + t + [DASH] + rest;
    assert s[1..] == t + [DASH] + rest;
    SegmentEndAt(t, rest);
    assert s[1..|t| + 1] == t;
  }

  lemma SegmentFull(run: bytes)
    requires run != []
    ensures Base64.Encoded(Utf16(Runes(run))) != []
  {
    assert Utf16(Runes(run)) != [];
  }

  lemma StepPlain(ch: byte, rest: bytes, ascii: bool)
    requires Printable(ch)
    ensures Step(Plain(ch) + rest, ascii) == Some(Round([ch], |Plain(ch)|, true))
  {
    if ch == AMPERSAND {
      assert (Plain(ch) + rest)[1..] == [DASH] + rest;
    }
  }

  lemma AfterFirst(first: bytes, rest: bytes, ascii: bool)
    requires first != [] && Step(first + rest, ascii).Some? && Step(first + rest, ascii).value.size == |first|
    ensures var step := Step(first + rest, ascii).value;
            DecodedText(first + rest, ascii) == Prepend(step.piece, DecodedText(rest, step.ascii))
  {
    assert (first + rest)[|first|..] == rest;
  }

  /** In every mode the encoder's text can be met in, it decodes to the runes. */
  lemma {:induction false} TextRoundTrip(s: bytes, ascii: bool)
    requires ascii || s == [] || Printable(s[0])
    ensures DecodedText(EncodedText(s), ascii) == Some(Text(Runes(s)))
    decreases |s|
  {
    if s == [] {
    } else if Printable(s[0]) {
      var rest := EncodedText(s[1..]);
      StepPlain(s[0], rest, ascii);
      AfterFirst(Plain(s[0]), rest, ascii);
      TextRoundTrip(s[1..], true);
      PlainRunes(s);
    } else {
      var n := RunEnd(s);
      var rest := EncodedText(s[n..]);
      StepShifted(s[..n], rest);
      AfterFirst(Shifted(s[..n]), rest, true);
      TextRoundTrip(s[n..], false);
      RunRunes(s);
    }
  }

  lemma PlainRunes(s: bytes)
    requires s != [] && Printable(s[0])
    ensures Text(Runes(s)) == [s[0]] + Text(Runes(s[1..]))
  {
    var rest := Runes(s[1..]);
    assert Runes(s) == [s[0]] + rest;
    assert ([s[0]] + rest)[1..] == rest;
  }

  lemma RunRunes(s: bytes)
    ensures Text(Runes(s)) == Text(Runes(s[..RunEnd(s)])) + Text(Runes(s[RunEnd(s)..]))
  {
    var n := RunEnd(s);
    assert s[..n] + s[n..] == s;
    RunesAppend(s[..n], s[n..]);
    TextAppend(Runes(s[..n]), Runes(s[n..]));
  }

  lemma {:induction false} EncodedPrintable(s: bytes)
    ensures forall b <- EncodedText(s) :: Printable(b)
    decreases |s|
  {
    if s != [] {
      if Printable(s[0]) {
        EncodedPrintable(s[1..]);
      } else {
        EncodedPrintable(s[RunEnd(s)..]);
      }
    }
  }

  /** Whatever the bytes, decoding what was encoded gives their runes back, with
      U+FFFD for every byte that is not part of one. */
  lemma RoundTrip(s: bytes)
    ensures Decoded(EncodedText(s)) == Some(Text(Runes(s)))
  {
    EncodedPrintable(s);
    AsciiValid(EncodedText(s));
    TextRoundTrip(s, true);
  }

  /** So the strings that survive are the valid ones. */
  lemma RoundTripIffValid(s: bytes)
    ensures Decoded(EncodedText(s)) == Some(s) <==> ValidString(s)
  {
    RoundTrip(s);
    FixedIffValid(s);
  }

  // ---------------------------------------------------------------------
  // What the decoder lets through
  // ---------------------------------------------------------------------

  lemma SegmentValid(t: bytes)
    requires Segment(t).Some?
    ensures ValidString(Segment(t).value)
  {
    RunesText(FromUtf16(Base64.Decoded(t).value).value);
  }

  /** Raw bytes above ASCII are copied one by one: a whole rune takes as many
      rounds as it has bytes. */
  lemma {:induction false} CopyRaw(a: bytes, rest: bytes, ascii: bool)
    requires a != [] && forall b <- a :: b >= 0x80
    ensures DecodedText(a + rest, ascii) == Prepend(a, DecodedText(rest, true))
    decreases |a|
  {
    assert a[0] in a && forall b <- a[1..] :: b in a;
    assert a + rest == [a[0]] + (a[1..] + rest);
    AfterFirst([a[0]], a[1..] + rest, ascii);
    if |a| == 1 {
      assert a[1..] + rest == rest && [a[0]] == a;
    } else {
      CopyRaw(a[1..], rest, true);
      PrependAll([a[0]], a[1..], DecodedText(rest, true));
      assert [a[0]] + a[1..] == a;
    }
  }

  lemma RawRune(r: scalar)
    requires r >= 0x80
    ensures forall b <- EncodeRune(r) :: b >= 0x80
  {
  }

  lemma {:induction false} AsciiTail(s: bytes, n: nat)
    requires ValidString(s) && n <= |s| && forall b <- s[..n] :: b < 0x80
    ensures ValidString(s[n..])
  {
    AsciiValid(s[..n]);
    assert s[..n] + s[n..] == s;
    ValidAppend(s[..n], s[n..]);
  }

  lemma ValidRune(r: scalar)
    ensures ValidString(EncodeRune(r))
  {
    RunesText([r]);
    assert Text([r]) == EncodeRune(r) + [] == EncodeRune(r);
  }

  lemma {:induction false} DecodedLetters(t: bytes)
    requires Base64.Decoded(t).Some?
    ensures Base64.AllLetters(t)
    decreases |t|
  {
    if |t| > 4 {
      DecodedLetters(t[4..]);
      assert t == t[..4] + t[4..];
    } else if |t| > 1 {
      assert t[..|t|] == t;
    }
  }

  lemma StepAscii(s: bytes, ascii: bool)
    requires s != [] && s[0] < 0x80 && Step(s, ascii).Some?
    ensures var step := Step(s, ascii).value;
            ValidString(step.piece) && forall b <- s[..step.size] :: b < 0x80
  {
    if s[0] == AMPERSAND {
      StepShift(s, ascii);
    } else {
      AsciiValid([s[0]]);
      assert s[..1] == [s[0]];
    }
  }

  ghost predicate Visible(s: bytes) {
    forall i :: 0 <= i < |s| ==> 0x20 <= s[i] < 0x7F
  }

  lemma StepShift(s: bytes, ascii: bool)
    requires s != [] && s[0] == AMPERSAND && Step(s, ascii).Some?
    ensures var step := Step(s, ascii).value;
            ValidString(step.piece) && Visible(s[..step.size])
  {
    var t := StepParts(s, ascii);
    ShiftVisible(t, ascii);
    WrappedVisible(t);
  }

  lemma StepParts(s: bytes, ascii: bool) returns (t: bytes)
    requires s != [] && s[0] == AMPERSAND && Step(s, ascii).Some?
    ensures var step := Step(s, ascii).value;
            s[..step.size] == [AMPERSAND] + t + [DASH] && Shift(t, ascii) == Some(step.piece)
  {
    var k := SegmentEnd(s[1..]).value;
    t := s[1..k + 1];
    ShiftSlice(s, k);
  }

  lemma ShiftSlice(s: bytes, k: nat)
    requires k + 2 <= |s| && s[0] == AMPERSAND && s[k + 1] == DASH
    ensures s[..k + 2] == [AMPERSAND] + s[1..k + 1] + [DASH]
  {
  }

  lemma WrappedVisible(t: bytes)
    requires Visible(t)
    ensures Visible([AMPERSAND] + t + [DASH])
  {
  }

  lemma ShiftVisible(t: bytes, ascii: bool)
    requires Shift(t, ascii).Some?
    ensures ValidString(Shift(t, ascii).value) && Visible(t)
  {
    if t == [] {
      AsciiValid([AMPERSAND]);
    } else {
      SegmentValid(t);
      DecodedLetters(t);
      LettersVisible(t);
    }
  }

  lemma LettersVisible(t: bytes)
    requires Base64.AllLetters(t)
    ensures Visible(t)
  {
    forall i | 0 <= i < |t| ensures 0x20 <= t[i] < 0x7F {
      assert t[i] in t;
    }
  }

  lemma {:induction false} TextValid(s: bytes, ascii: bool)
    requires ValidString(s) && DecodedText(s, ascii).Some?
    ensures ValidString(DecodedText(s, ascii).value)
    decreases |s|
  {
    if s != [] {
      if s[0] < 0x80 {
        var step := Step(s, ascii).value;
        StepAscii(s, ascii);
        AsciiTail(s, step.size);
        TextValid(s[step.size..], step.ascii);
        ValidAppend(step.piece, DecodedText(s[step.size..], step.ascii).value);
      } else {
        var (r, n) := DecodeRune(s);
        EncodeDecoded(s);
        RawRune(r);
        assert s == EncodeRune(r) + s[n..];
        CopyRaw(EncodeRune(r), s[n..], ascii);
        TextValid(s[n..], true);
        ValidRune(r);
        ValidAppend(EncodeRune(r), DecodedText(s[n..], true).value);
      }
    }
  }

  /** The decoder only ever answers with valid UTF-8, whatever it is given. */
  lemma DecodedValid(s: bytes)
    requires Decoded(s).Some?
    ensures ValidString(Decoded(s).value)
  {
    TextValid(s, true);
  }

  // ---------------------------------------------------------------------
  // Which characters are shifted, with the bounds written out
  // ---------------------------------------------------------------------

  /** A character that stands for itself is written as it is, "&" as "&-". */
  lemma EncodedFirst(b: byte, rest: bytes)
    requires 0x20 <= b <= 0x7E
    ensures EncodedText([b] + rest) == (if b == 0x26 then [0x26, 0x2D] else [b]) + EncodedText(rest)
  {
    assert ([b] + rest)[1..] == rest;
  }

  /** A run of other bytes is shifted as a whole. */
  lemma EncodedOutside(run: bytes, rest: bytes)
    requires run != [] && (forall i :: 0 <= i < |run| ==> run[i] < 0x20 || run[i] > 0x7E)
    requires rest != [] ==> 0x20 <= rest[0] <= 0x7E
    ensures EncodedText(run + rest) ==
            [0x26] + Base64.Encoded(Utf16(Runes(run))) + [0x2D] + EncodedText(rest)
  {
    RunEndAt(run, rest);
    var s := run + rest;
    FirstRun(s, |run|);
    assert s[..|run|] == run && s[|run|..] == rest;
  }

  lemma {:induction false} RunEndAt(run: bytes, rest: bytes)
    requires forall i :: 0 <= i < |run| ==> run[i] < 0x20 || run[i] > 0x7E
    requires rest != [] ==> 0x20 <= rest[0] <= 0x7E
    ensures RunEnd(run + rest) == |run|
  {
    if run == [] {
      assert run + rest == rest;
    } else {
      assert (run + rest)[1..] == run[1..] + rest;
      RunEndAt(run[1..], rest);
    }
  }

  /** Text of such characters other than "&" is its own encoding, */
  lemma {:induction false} SelfEncoded(s: bytes)
    requires forall i :: 0 <= i < |s| ==> 0x20 <= s[i] <= 0x7E && s[i] != 0x26
    ensures EncodedText(s) == s
  {
    if s != [] {
      assert s == [s[0]] + s[1..];
      EncodedFirst(s[0], s[1..]);
      SelfEncoded(s[1..]);
    }
  }

  /** and, with raw UTF-8 among it, its own decoding. */
  lemma {:induction false} SelfDecoded(s: bytes, ascii: bool)
    requires forall i :: 0 <= i < |s| ==> s[i] >= 0x20 && s[i] != 0x7F && s[i] != 0x26
    ensures DecodedText(s, ascii) == Some(s)
  {
    if s != [] {
      SelfDecoded(s[1..], true);
      assert s == [s[0]] + s[1..];
    }
  }

  // ---------------------------------------------------------------------
  // UTF-16 and segments, exactly
  // ---------------------------------------------------------------------

  /** Big endian, and a surrogate pair above U+FFFF. */
  lemma UnitsMean(r: scalar)
    ensures r <= 0xFFFF ==> var a: int, b: int := Units(r)[0], Units(r)[1]; r == a * 0x100 + b
    ensures r > 0xFFFF ==>
              var a: int, b: int, c: int, d: int := Units(r)[0], Units(r)[1], Units(r)[2], Units(r)[3];
              var high, low := a * 0x100 + b, c * 0x100 + d;
              && 0xD800 <= high <= 0xDBFF && 0xDC00 <= low <= 0xDFFF
              && r == 0x10000 + (high - 0xD800) * 0x400 + (low - 0xDC00)
  {
  }

  ghost predicate NeedShift(rs: seq<scalar>) {
    forall i :: 0 <= i < |rs| ==> rs[i] < 0x20 || rs[i] > 0x7E
  }

  lemma ReadUnitExact(b: bytes)
    requires |b| >= 2 && ReadUnit(b).Some?
    ensures var d := ReadUnit(b).value;
            Units(d.0) == b[..d.1] && (d.0 < 0x20 || d.0 > 0x7E)
  {
    var u := Unit(b);
    UnitBytes(b);
    if Surrogate(u) {
      UnitBytes(b[2..]);
      assert b[..4] == [b[0], b[1], b[2..][0], b[2..][1]];
    } else {
      assert b[..2] == [b[0], b[1]];
    }
  }

  lemma UnitBytes(b: bytes)
    requires |b| >= 2
    ensures Unit(b) / 256 == b[0] && Unit(b) % 256 == b[1]
  {
  }

  /** Bytes are read as runes exactly when they are the UTF-16 of runes that need
      shifting. */
  lemma {:induction false} FromUtf16Exact(b: bytes, rs: seq<scalar>)
    ensures FromUtf16(b) == Some(rs) <==> b == Utf16(rs) && NeedShift(rs)
    decreases |b|
  {
    if b == Utf16(rs) && NeedShift(rs) {
      Utf16Inverse(rs);
    }
    if FromUtf16(b) == Some(rs) && b != [] {
      var d := ReadUnit(b).value;
      ReadUnitExact(b);
      FromUtf16Exact(b[d.1..], rs[1..]);
      assert rs[0] == d.0 && b == b[..d.1] + b[d.1..];
    }
  }

  /** A segment stands for runes exactly when it is base64 of their UTF-16 and none
      of them stands for itself: "&AH4-" for "~" is refused. */
  lemma SegmentExact(t: bytes, rs: seq<scalar>)
    ensures Base64.Decoded(t) == Some(Utf16(rs)) ==> Segment(t) == if NeedShift(rs) then Some(Text(rs)) else None
    ensures Segment(t).Some? ==>
              exists us: seq<scalar> ::
                Base64.Decoded(t) == Some(Utf16(us)) && NeedShift(us) && Segment(t).value == Text(us)
  {
    if Base64.Decoded(t) == Some(Utf16(rs)) {
      Utf16Even(rs);
      FromUtf16Exact(Utf16(rs), rs);
      if !NeedShift(rs) && FromUtf16(Utf16(rs)).Some? {
        var us := FromUtf16(Utf16(rs)).value;
        FromUtf16Exact(Utf16(rs), us);
        Utf16Same(rs, us);
      }
    }
    if Segment(t).Some? {
      var b := Base64.Decoded(t).value;
      FromUtf16Exact(b, FromUtf16(b).value);
    }
  }

  lemma UnitsSame(r: scalar, s: scalar, x: bytes, y: bytes)
    requires Units(r) + x == Units(s) + y
    ensures r == s && x == y
  {
    var a, b := Units(r) + x, Units(s) + y;
    UnitsMean(r);
    UnitsMean(s);
    assert a[0] == Units(r)[0] && a[1] == Units(r)[1] && b[0] == Units(s)[0] && b[1] == Units(s)[1];
    assert |Units(r)| == |Units(s)|;
    assert a[..|Units(r)|] == Units(r) && b[..|Units(s)|] == Units(s);
    assert a[|Units(r)|..] == x && b[|Units(s)|..] == y;
    assert r > 0xFFFF ==> Units(r)[2] == Units(s)[2] && Units(r)[3] == Units(s)[3];
  }

  lemma {:induction false} Utf16Same(rs: seq<scalar>, us: seq<scalar>)
    requires Utf16(rs) == Utf16(us)
    ensures rs == us
  {
    if rs != [] && us != [] {
      UnitsSame(rs[0], us[0], Utf16(rs[1..]), Utf16(us[1..]));
      Utf16Same(rs[1..], us[1..]);
      assert rs == [rs[0]] + rs[1..] && us == [us[0]] + us[1..];
    }
  }

  // ---------------------------------------------------------------------
  // What the decoder refuses
  // ---------------------------------------------------------------------

  lemma {:induction false} NoEnd(t: bytes)
    requires 0x2D !in t
    ensures SegmentEnd(t).None?
  {
    if t != [] {
      NoEnd(t[1..]);
    }
  }

  /** A shift that is not ended is refused. */
  lemma UnendedRefused(t: bytes, ascii: bool)
    requires 0x2D !in t
    ensures DecodedText([0x26] + t, ascii).None?
  {
    assert ([0x26] + t)[1..] == t;
    NoEnd(t);
  }

  lemma {:induction false} EndAt(t: bytes, rest: bytes)
    requires forall i :: 0 <= i < |t| ==> t[i] != 0x2D && t[i] != 0x0D && t[i] != 0x0A
    ensures SegmentEnd(t + [0x2D] + rest) == Some(|t|)
  {
    var s := t + [0x2D] + rest;
    if t != [] {
      assert s[1..] == t[1..] + [0x2D] + rest;
      EndAt(t[1..], rest);
    }
  }

  /** Text that may stand between "&" and "-". */
  ghost predicate Inner(t: bytes) {
    forall i :: 0 <= i < |t| ==> t[i] != 0x2D && t[i] != 0x0D && t[i] != 0x0A
  }

  lemma StepInner(t: bytes, rest: bytes, ascii: bool)
    requires t != [] && Inner(t)
    ensures Step([0x26] + t + [0x2D] + rest, ascii) ==
            if ascii && Segment(t).Some? then Some(Round(Segment(t).value, |t| + 2, false)) else None
  {
    var s := [0x26] + t + [0x2D] + rest;
    assert s[1..] == t + [0x2D] + rest;
    EndAt(t, rest);
    assert s[1..|t| + 1] == t;
  }

  /** Outside segments the decoder copies, "&-" is "&", and a segment is read once. */
  lemma DecodedFirst(b: byte, t: bytes, rest: bytes, ascii: bool)
    requires b >= 0x20 && b != 0x7F && b != 0x26
    requires t != [] && Inner(t)
    ensures DecodedText([b] + rest, ascii) == Prepend([b], DecodedText(rest, true))
    ensures DecodedText([0x26, 0x2D] + rest, ascii) == Prepend([0x26], DecodedText(rest, true))
    ensures DecodedText([0x26] + t + [0x2D] + rest, ascii) ==
            if ascii && Segment(t).Some? then Prepend(Segment(t).value, DecodedText(rest, false)) else None
  {
    assert ([b] + rest)[1..] == rest;
    StepAmpersand(rest, ascii);
    assert ([0x26, 0x2D] + rest)[2..] == rest;
    StepInner(t, rest, ascii);
    assert ([0x26] + t + [0x2D] + rest)[|t| + 2..] == rest;
  }

  lemma StepAmpersand(rest: bytes, ascii: bool)
    ensures Step([0x26, 0x2D] + rest, ascii) == Some(Round([0x26], 2, true))
  {
    var s := [0x26, 0x2D] + rest;
    assert s[1..][0] == 0x2D && s[1..1] == [];
  }

  /** A segment right after another one is refused. */
  lemma NullShiftRefused(t: bytes, u: bytes, rest: bytes, ascii: bool)
    requires t != [] && Inner(t) && u != [] && Inner(u)
    ensures DecodedText([0x26] + t + [0x2D] + ([0x26] + u + [0x2D] + rest), ascii).None?
  {
    DecodedFirst(0x20, t, [0x26] + u + [0x2D] + rest, ascii);
    DecodedFirst(0x20, u, rest, false);
  }

  ghost predicate Clean(s: bytes) {
    forall i :: 0 <= i < |s| ==> s[i] >= 0x20 && s[i] != 0x7F
  }

  lemma CleanSplit(s: bytes, k: nat)
    requires k <= |s| && Clean(s[..k]) && Clean(s[k..])
    ensures Clean(s)
  {
    forall i | 0 <= i < |s| ensures s[i] >= 0x20 && s[i] != 0x7F {
      assert if i < k then s[i] == s[..k][i] else s[i] == s[k..][i - k];
    }
  }

  /** Control characters are refused anywhere. */
  lemma {:induction false} ControlsRefused(s: bytes, ascii: bool)
    requires DecodedText(s, ascii).Some?
    ensures Clean(s)
    decreases |s|
  {
    if s != [] {
      var step := Step(s, ascii).value;
      StepClean(s, ascii);
      ControlsRefused(s[step.size..], step.ascii);
      CleanSplit(s, step.size);
    }
  }

  lemma StepClean(s: bytes, ascii: bool)
    requires s != [] && Step(s, ascii).Some?
    ensures Clean(s[..Step(s, ascii).value.size])
  {
    if s[0] == AMPERSAND {
      StepShift(s, ascii);
    }
  }
}

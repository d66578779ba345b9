/** UTF-8 as the Go library reads and writes it. */
module Utf8 {
  import opened Prelude

  /** A Unicode scalar value. */
  type scalar = r: int | 0 <= r < 0xD800 || 0xE000 <= r <= 0x10FFFF

  const RUNE_ERROR: scalar := 0xFFFD

  predicate Tail(b: byte) { 0x80 <= b <= 0xBF }

  function EncodeRune(r: scalar): (s: bytes)
    ensures 1 <= |s| <= 4
    ensures s[0] < 0x80 <==> r < 0x80
    ensures r < 0x80 ==> s == [r]
  {
    if r < 0x80 then [r]
    else if r < 0x800 then [0xC0 + r / 64, 0x80 + r % 64]
    else if r < 0x10000 then [0xE0 + r / 64 / 64, 0x80 + r / 64 % 64, 0x80 + r % 64]
    else [0xF0 + r / 64 / 64 / 64, 0x80 + r / 64 / 64 % 64, 0x80 + r / 64 % 64, 0x80 + r % 64]
  }

  /** How many bytes a rune takes that starts with this one; 0 if none does. */
  function Length(b: byte): nat {
    if b < 0x80 then 1
    else if 0xC2 <= b <= 0xDF then 2
    else if 0xE0 <= b <= 0xEF then 3
    else if 0xF0 <= b <= 0xF4 then 4
    else 0
  }

  /** No over-long form, no surrogate, nothing above U+10FFFF. */
  predicate Second(b0: byte, b1: byte) {
    && (if b0 == 0xE0 then 0xA0 else if b0 == 0xF0 then 0x90 else 0x80) <= b1
    && b1 <= (if b0 == 0xED then 0x9F else if b0 == 0xF4 then 0x8F else 0xBF)
  }

  /** Six bits of every byte but the first. */
  function Two(b0: int, b1: int): int { (b0 - 0xC0) * 64 + (b1 - 0x80) }

  function Three(b0: int, b1: int, b2: int): int { (b0 - 0xE0) * 4096 + Two(b1 + 0x40, b2) }

  function Four(b0: int, b1: int, b2: int, b3: int): int { (b0 - 0xF0) * 262144 + Three(b1 + 0x60, b2, b3) }

  /** utf8.DecodeRune on a non-empty input: a rune and its width, or the
      replacement character with width 1. */
  function DecodeRune(s: bytes): (d: (scalar, nat))
    requires s != []
    ensures 1 <= d.1 <= |s| && d.1 <= 4
    ensures d.0 < 0x80 <==> s[0] < 0x80
    ensures s[0] < 0x80 ==> d == (s[0], 1)
  {
    var n := Length(s[0]);
    if n == 0 || |s| < n then (RUNE_ERROR, 1)
    else if (n > 1 && !Second(s[0], s[1])) || (n > 2 && !Tail(s[2])) || (n > 3 && !Tail(s[3])) then (RUNE_ERROR, 1)
    else if n == 1 then (s[0], 1)
    else if n == 2 then (Two(s[0], s[1]), 2)
    else if n == 3 then (Three(s[0], s[1], s[2]), 3)
    else (Four(s[0], s[1], s[2], s[3]), 4)
  }

  /** The first rune is not well formed. */
  predicate Broken(s: bytes)
    requires s != []
  {
    DecodeRune(s) == (RUNE_ERROR, 1)
  }

  /** utf8.ValidString. */
  predicate ValidString(s: bytes)
    decreases |s|
  {
    s != [] ==> !Broken(s) && ValidString(s[DecodeRune(s).1..])
  }

  /** What a `range` loop over the string sees. */
  function Runes(s: bytes): seq<scalar>
    decreases |s|
  {
    if s == [] then [] else [DecodeRune(s).0] + Runes(s[DecodeRune(s).1..])
  }

  function Text(rs: seq<scalar>): bytes {
    if rs == [] then [] else EncodeRune(rs[0]) + Text(rs[1..])
  }

  // ---------------------------------------------------------------------
  // Writing and reading are inverse
  // ---------------------------------------------------------------------

  lemma EncodeRuneBytes(r: scalar)
    ensures var s := EncodeRune(r); var n := |s|;
            && Length(s[0]) == n
            && (n > 1 ==> Second(s[0], s[1]))
            && (n > 2 ==> Tail(s[2]))
            && (n > 3 ==> Tail(s[3]))
            && r == if n == 1 then s[0] else if n == 2 then Two(s[0], s[1])
                    else if n == 3 then Three(s[0], s[1], s[2]) else Four(s[0], s[1], s[2], s[3])
  {
  }

  lemma DecodeEncoded(r: scalar, rest: bytes)
    ensures DecodeRune(EncodeRune(r) + rest) == (r, |EncodeRune(r)|)
    ensures !Broken(EncodeRune(r) + rest)
  {
    EncodeRuneBytes(r);
    var s := EncodeRune(r);
    var t := s + rest;
    assert forall i | 0 <= i < |s| :: t[i] == s[i];
    assert |s| == 1 ==> r < 0x80;
  }

  lemma LastSix(q: nat, x: int)
    requires 0 <= x < 64
    ensures (q * 64 + x) / 64 == q && (q * 64 + x) % 64 == x
  {
  }

  lemma EncodeThree(b0: byte, b1: byte, b2: byte)
    requires Length(b0) == 3 && Second(b0, b1) && Tail(b2)
    ensures var r := Three(b0, b1, b2);
            0x800 <= r < 0x10000 && (r < 0xD800 || r >= 0xE000) && EncodeRune(r) == [b0, b1, b2]
  {
    LastSix(b0 - 0xE0, b1 - 0x80);
    LastSix((b0 - 0xE0) * 64 + (b1 - 0x80), b2 - 0x80);
    assert Three(b0, b1, b2) == ((b0 - 0xE0) * 64 + (b1 - 0x80)) * 64 + (b2 - 0x80);
  }

  lemma EncodeFour(b0: byte, b1: byte, b2: byte, b3: byte)
    requires Length(b0) == 4 && Second(b0, b1) && Tail(b2) && Tail(b3)
    ensures var r := Four(b0, b1, b2, b3); 0x10000 <= r <= 0x10FFFF && EncodeRune(r) == [b0, b1, b2, b3]
  {
    var q3: nat := b0 - 0xF0;
    var q2: nat := q3 * 64 + (b1 - 0x80);
    var q1: nat := q2 * 64 + (b2 - 0x80);
    LastSix(q3, b1 - 0x80);
    LastSix(q2, b2 - 0x80);
    LastSix(q1, b3 - 0x80);
    assert Four(b0, b1, b2, b3) == q1 * 64 + (b3 - 0x80);
  }

  lemma EncodeDecoded(s: bytes)
    requires s != [] && !Broken(s)
    ensures EncodeRune(DecodeRune(s).0) == s[..DecodeRune(s).1]
  {
    var n := Length(s[0]);
    if n == 3 {
      EncodeThree(s[0], s[1], s[2]);
    } else if n == 4 {
      EncodeFour(s[0], s[1], s[2], s[3]);
    }
  }

  /** A rune is read the same whatever follows, if that cannot continue it. */
  lemma DecodeAppend(a: bytes, b: bytes)
    requires a != [] && (b == [] || b[0] < 0x80)
    ensures DecodeRune(a + b) == DecodeRune(a)
  {
  }

  lemma {:induction false} RunesAppend(a: bytes, b: bytes)
    requires b == [] || b[0] < 0x80
    ensures Runes(a + b) == Runes(a) + Runes(b)
    decreases |a|
  {
    if a == [] {
      assert a + b == b;
    } else {
      DecodeAppend(a, b);
      var n := DecodeRune(a).1;
      assert (a + b)[n..] == a[n..] + b;
      RunesAppend(a[n..], b);
    }
  }

  lemma {:induction false} TextAppend(a: seq<scalar>, b: seq<scalar>)
    ensures Text(a + b) == Text(a) + Text(b)
  {
    if a == [] {
      assert a + b == b;
    } else {
      assert (a + b)[1..] == a[1..] + b;
      TextAppend(a[1..], b);
    }
  }

  /** Every sequence of scalar values survives, */
  lemma {:induction false} RunesText(rs: seq<scalar>)
    ensures Runes(Text(rs)) == rs && ValidString(Text(rs))
  {
    if rs != [] {
      var rest := Text(rs[1..]);
      DecodeEncoded(rs[0], rest);
      assert Text(rs)[|EncodeRune(rs[0])|..] == rest;
      RunesText(rs[1..]);
    }
  }

  lemma {:induction false} ValidFixed(s: bytes)
    requires ValidString(s)
    ensures Text(Runes(s)) == s
    decreases |s|
  {
    if s != [] {
      EncodeDecoded(s);
      ValidFixed(s[DecodeRune(s).1..]);
    }
  }

  /** and exactly the valid strings do. */
  lemma FixedIffValid(s: bytes)
    ensures Text(Runes(s)) == s <==> ValidString(s)
  {
    RunesText(Runes(s));
    if ValidString(s) {
      ValidFixed(s);
    }
  }

  lemma {:induction false} AsciiValid(s: bytes)
    requires forall b <- s :: b < 0x80
    ensures ValidString(s)
  {
    if s != [] {
      assert s[0] in s && forall b <- s[1..] :: b in s;
      AsciiValid(s[1..]);
    }
  }

  /** Valid strings may be cut before any ASCII byte and joined. */
  lemma {:induction false} ValidAppend(a: bytes, b: bytes)
    requires ValidString(a)
    ensures ValidString(a + b) <==> ValidString(b)
    decreases |a|
  {
    if a == [] {
      assert a + b == b;
    } else {
      var n := DecodeRune(a).1;
      EncodeDecoded(a);
      assert a + b == EncodeRune(DecodeRune(a).0) + (a[n..] + b);
      DecodeEncoded(DecodeRune(a).0, a[n..] + b);
      assert (a + b)[n..] == a[n..] + b;
      ValidAppend(a[n..], b);
    }
  }

  /** The encoding of section 3 of RFC 3629: a leading byte that tells the length,
      and six bits in each byte after it, the highest first. */
  lemma EncodingIs(r: scalar)
    ensures var s := EncodeRune(r);
            && |s| == (if r <= 0x7F then 1 else if r <= 0x7FF then 2 else if r <= 0xFFFF then 3 else 4)
            && (forall i :: 1 <= i < |s| ==> 0x80 <= s[i] <= 0xBF)
            && r == Number(s)
  {
    EncodeRuneBytes(r);
  }

  /** What the bytes of one character come to. */
  ghost function Number(s: bytes): int
    requires 1 <= |s| <= 4
  {
    var at := (i: int) => if 0 <= i < |s| then s[i] as int else 0;
    match |s|
    case 1 => at(0)
    case 2 => (at(0) - 0xC0) * 0x40 + (at(1) - 0x80)
    case 3 => (at(0) - 0xE0) * 0x1000 + (at(1) - 0x80) * 0x40 + (at(2) - 0x80)
    case _ => (at(0) - 0xF0) * 0x40000 + (at(1) - 0x80) * 0x1000 + (at(2) - 0x80) * 0x40 + (at(3) - 0x80)
  }
}

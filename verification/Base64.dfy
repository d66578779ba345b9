/** Base64 with the alphabet of modified UTF-7 (internal/utf7/utf7.go): ','
    takes the place of '/'. */
module Base64 {
  import opened Prelude

  type sextet = x: int | 0 <= x < 64

  const EQUALS: byte := 0x3D

  function Letter(x: sextet): (c: byte)
    ensures c != EQUALS && c != DASH && c != AMPERSAND
    ensures 0x20 < c < 0x7F
  {
    if x < 26 then 0x41 + x
    else if x < 52 then 0x61 + x - 26
    else if x < 62 then ZERO + x - 52
    else if x == 62 then PLUS
    else COMMA
  }

  predicate InAlphabet(c: byte) {
    0x41 <= c <= 0x5A || 0x61 <= c <= 0x7A || ZERO <= c <= NINE || c == PLUS || c == COMMA
  }

  predicate AllLetters(t: bytes) {
    forall c <- t :: InAlphabet(c)
  }

  function Value(c: byte): (x: sextet)
    requires InAlphabet(c)
    ensures Letter(x) == c
  {
    if 0x41 <= c <= 0x5A then c - 0x41
    else if 0x61 <= c <= 0x7A then c - 0x61 + 26
    else if ZERO <= c <= NINE then c - ZERO + 52
    else if c == PLUS then 62
    else 63
  }

  lemma ValueLetter(x: sextet)
    ensures InAlphabet(Letter(x)) && Value(Letter(x)) == x
  {
  }

  // ---------------------------------------------------------------------
  // Without padding
  // ---------------------------------------------------------------------

  /** The letters of up to three bytes: the bits that are left over are zero. */
  function Quantum(b: bytes): (t: bytes)
    requires 1 <= |b| <= 3
    ensures |t| == |b| + 1 && AllLetters(t)
  {
    var b1: byte := if |b| > 1 then b[1] else 0;
    var b2: byte := if |b| > 2 then b[2] else 0;
    [Letter(b[0] / 4), Letter(b[0] % 4 * 16 + b1 / 16), Letter(b1 % 16 * 4 + b2 / 64), Letter(b2 % 64)][..|b| + 1]
  }

  function Encoded(b: bytes): (t: bytes)
    ensures AllLetters(t)
  {
    if b == [] then []
    else if |b| <= 3 then Quantum(b)
    else Quantum(b[..3]) + Encoded(b[3..])
  }

  /** The bytes of two to four letters; the bits that are left over are dropped. */
  function Dequantum(t: bytes): (b: bytes)
    requires 2 <= |t| <= 4 && AllLetters(t)
    ensures |b| == |t| - 1
  {
    var v0, v1 := Value(t[0]), Value(t[1]);
    var v2: sextet := if |t| > 2 then Value(t[2]) else 0;
    var v3: sextet := if |t| > 3 then Value(t[3]) else 0;
    [v0 * 4 + v1 / 16, v1 % 16 * 16 + v2 / 4, v2 % 4 * 64 + v3][..|t| - 1]
  }

  function Decoded(t: bytes): (b: Option<bytes>)
    ensures b.Some? && t != [] ==> b.value != []
  {
    if t == [] then Some([])
    else if |t| == 1 then None
    else
      var q := t[..Min(|t|, 4)];
      if !AllLetters(q) then None
      else if |t| <= 4 then Some(Dequantum(q))
      else
        var rest := Decoded(t[4..]);
        if rest.None? then None else Some(Dequantum(q) + rest.value)
  }

  /** The twenty-four bits of three bytes, cut into four and joined again. */
  lemma BitsInverse(b0: byte, b1: byte, b2: byte)
    ensures var v1, v2 := b0 % 4 * 16 + b1 / 16, b1 % 16 * 4 + b2 / 64;
            && b0 / 4 * 4 + v1 / 16 == b0
            && v1 % 16 * 16 + v2 / 4 == b1
            && v2 % 4 * 64 + b2 % 64 == b2
            && v1 < 64 && v2 < 64
  {
  }

  lemma QuantumValues(b: bytes)
    requires 1 <= |b| <= 3
    ensures var t := Quantum(b);
            var b1, b2 := if |b| > 1 then b[1] else 0, if |b| > 2 then b[2] else 0;
            && Value(t[0]) == b[0] / 4
            && Value(t[1]) == b[0] % 4 * 16 + b1 / 16
            && (|b| > 1 ==> Value(t[2]) == b1 % 16 * 4 + b2 / 64)
            && (|b| > 2 ==> Value(t[3]) == b2 % 64)
  {
    var b1: byte := if |b| > 1 then b[1] else 0;
    var b2: byte := if |b| > 2 then b[2] else 0;
    ValueLetter(b[0] / 4);
    ValueLetter(b[0] % 4 * 16 + b1 / 16);
    ValueLetter(b1 % 16 * 4 + b2 / 64);
    ValueLetter(b2 % 64);
  }

  lemma QuantumInverse(b: bytes)
    requires 1 <= |b| <= 3
    ensures Dequantum(Quantum(b)) == b
  {
    QuantumValues(b);
    BitsInverse(b[0], if |b| > 1 then b[1] else 0, if |b| > 2 then b[2] else 0);
  }

  lemma DecodeFirst(q: bytes, rest: bytes)
    requires |q| == 4 && AllLetters(q)
    ensures Decoded(q + rest) == if Decoded(rest).None? then None else Some(Dequantum(q) + Decoded(rest).value)
  {
    var t := q + rest;
    assert t[..4] == q && t[4..] == rest;
    if rest == [] {
      assert t == q && Dequantum(q) + [] == Dequantum(q);
    }
  }

  lemma {:induction false} DecodeEncoded(b: bytes)
    ensures Decoded(Encoded(b)) == Some(b)
    decreases |b|
  {
    if 1 <= |b| <= 3 {
      QuantumInverse(b);
      assert Encoded(b)[..|b| + 1] == Encoded(b);
    } else if |b| > 3 {
      QuantumInverse(b[..3]);
      DecodeFirst(Quantum(b[..3]), Encoded(b[3..]));
      DecodeEncoded(b[3..]);
      assert b[..3] + b[3..] == b;
    }
  }

  // ---------------------------------------------------------------------
  // With padding: what encoding/base64 offers
  // ---------------------------------------------------------------------

  function Pads(n: nat): bytes {
    if n % 3 == 1 then [EQUALS, EQUALS] else if n % 3 == 2 then [EQUALS] else []
  }

  function StdEncode(b: bytes): bytes {
    Encoded(b) + Pads(|b|)
  }

  /** Encoding.Decode for input without line breaks: whole quanta, padding only
      at the very end. */
  function StdDecode(t: bytes): Option<bytes> {
    if t == [] then Some([])
    else if |t| < 4 || !InAlphabet(t[0]) || !InAlphabet(t[1]) then None
    else if t[2] == EQUALS then
      if t[3] == EQUALS && |t| == 4 then Some(Dequantum(t[..2])) else None
    else if !InAlphabet(t[2]) then None
    else if t[3] == EQUALS then
      if |t| == 4 then Some(Dequantum(t[..3])) else None
    else if !InAlphabet(t[3]) then None
    else
      var rest := StdDecode(t[4..]);
      if rest.None? then None else Some(Dequantum(t[..4]) + rest.value)
  }

  /** What the decoder appends: "==" cut or filled with NUL to the length. */
  function Padding(n: nat): bytes {
    if n % 4 == 0 then []
    else if n % 4 == 1 then [EQUALS, EQUALS, 0]
    else if n % 4 == 2 then [EQUALS, EQUALS]
    else [EQUALS]
  }

  lemma StdDecodeFirst(q: bytes, rest: bytes)
    requires |q| == 4 && AllLetters(q)
    ensures StdDecode(q + rest) == if StdDecode(rest).None? then None else Some(Dequantum(q) + StdDecode(rest).value)
  {
    var t := q + rest;
    assert t[..4] == q && t[4..] == rest;
  }

  lemma StdDecodeBad(q: bytes, rest: bytes)
    requires |q| == 4 && !AllLetters(q) && (rest != [] || q[3] != EQUALS)
    ensures StdDecode(q + rest).None?
  {
    assert q == [q[0], q[1], q[2], q[3]];
  }

  lemma StdDecodeOne(x: byte)
    ensures StdDecode([x, EQUALS, EQUALS, 0]) == Decoded([x])
  {
  }

  lemma StdDecodeTwo(x: byte, y: byte)
    ensures StdDecode([x, y, EQUALS, EQUALS]) == Decoded([x, y])
  {
    assert [x, y, EQUALS, EQUALS][..2] == [x, y];
    assert [x, y][..2] == [x, y];
    assert AllLetters([x, y]) <==> InAlphabet(x) && InAlphabet(y);
  }

  lemma StdDecodeThree(x: byte, y: byte, z: byte)
    requires z != EQUALS
    ensures StdDecode([x, y, z, EQUALS]) == Decoded([x, y, z])
  {
    assert [x, y, z, EQUALS][..3] == [x, y, z];
    assert [x, y, z][..3] == [x, y, z];
    assert AllLetters([x, y, z]) <==> InAlphabet(x) && InAlphabet(y) && InAlphabet(z);
  }

  lemma Displayed(t: bytes)
    requires 1 <= |t| <= 3
    ensures |t| == 1 ==> t == [t[0]] && t + Padding(|t|) == [t[0], EQUALS, EQUALS, 0]
    ensures |t| == 2 ==> t == [t[0], t[1]] && t + Padding(|t|) == [t[0], t[1], EQUALS, EQUALS]
    ensures |t| == 3 ==> t == [t[0], t[1], t[2]] && t + Padding(|t|) == [t[0], t[1], t[2], EQUALS]
  {
  }

  lemma StdDecodeShort(t: bytes)
    requires 1 <= |t| <= 3 && t[|t| - 1] != EQUALS
    ensures StdDecode(t + Padding(|t|)) == Decoded(t)
  {
    Displayed(t);
    if |t| == 1 {
      StdDecodeOne(t[0]);
    } else if |t| == 2 {
      StdDecodeTwo(t[0], t[1]);
    } else {
      StdDecodeThree(t[0], t[1], t[2]);
    }
  }

  /** Padding the text and decoding it is decoding it without padding. */
  lemma {:induction false} StdDecodePadded(t: bytes)
    requires t == [] || t[|t| - 1] != EQUALS
    ensures StdDecode(t + Padding(|t|)) == Decoded(t)
    decreases |t|
  {
    if 1 <= |t| <= 3 {
      StdDecodeShort(t);
    } else if |t| >= 4 {
      var q, rest := t[..4], t[4..];
      assert t + Padding(|t|) == q + (rest + Padding(|rest|)) && t == q + rest;
      StdDecodePadded(rest);
      if AllLetters(q) {
        StdDecodeFirst(q, rest + Padding(|rest|));
        DecodeFirst(q, rest);
      } else {
        StdDecodeBad(q, rest + Padding(|rest|));
      }
    }
  }

  // ---------------------------------------------------------------------
  // Alphabet and bit order
  // ---------------------------------------------------------------------

  lemma AlphabetIs(x: sextet)
    ensures x < 26 ==> Letter(x) == 'A' as int + x
    ensures 26 <= x < 52 ==> Letter(x) == 'a' as int + (x - 26)
    ensures 52 <= x < 62 ==> Letter(x) == '0' as int + (x - 52)
    ensures x == 62 ==> Letter(x) == '+' as int
    ensures x == 63 ==> Letter(x) == ',' as int
  {
  }

  ghost function LetterAt(t: bytes, k: nat): int
    requires AllLetters(t)
  {
    if k < |t| then Value(t[k]) else 0
  }

  ghost function ByteAt(b: bytes, k: nat): int {
    if k < |b| then b[k] else 0
  }

  /** Up to four letters as a number of base 64, the first being the highest. */
  ghost function LettersNumber(t: bytes): int
    requires AllLetters(t)
  {
    LetterAt(t, 0) * 262144 + LetterAt(t, 1) * 4096 + LetterAt(t, 2) * 64 + LetterAt(t, 3)
  }

  /** Up to three bytes as a number of base 256. */
  ghost function BytesNumber(b: bytes): int {
    ByteAt(b, 0) * 65536 + ByteAt(b, 1) * 256 + ByteAt(b, 2)
  }

  /** Letters and bytes are the same twenty-four bits, */
  lemma QuantumBits(b: bytes)
    requires 1 <= |b| <= 3
    ensures LettersNumber(Quantum(b)) == BytesNumber(b)
  {
    QuantumValues(b);
    var b0, b1, b2 := ByteAt(b, 0), ByteAt(b, 1), ByteAt(b, 2);
    assert b0 == b0 / 4 * 4 + b0 % 4 && b1 == b1 / 16 * 16 + b1 % 16 && b2 == b2 / 64 * 64 + b2 % 64;
  }

  /** and the bits of the letters that fill no byte are dropped. */
  lemma DequantumBits(t: bytes)
    requires 2 <= |t| <= 4 && AllLetters(t)
    ensures var left := if |t| == 4 then 1 else if |t| == 3 then 256 else 65536;
            BytesNumber(Dequantum(t)) == LettersNumber(t) / left * left
  {
    var v2 := if |t| > 2 then Value(t[2]) else 0;
    var v3 := if |t| > 3 then Value(t[3]) else 0;
    if |t| == 2 {
      TwoLetters(Value(t[0]), Value(t[1]));
    } else if |t| == 3 {
      ThreeLetters(Value(t[0]), Value(t[1]), v2);
    } else {
      FourLetters(Value(t[0]), Value(t[1]), v2, v3);
    }
  }

  lemma TwoLetters(v0: sextet, v1: sextet)
    ensures (v0 * 4 + v1 / 16) * 65536 == (v0 * 262144 + v1 * 4096) / 65536 * 65536
  {
  }

  lemma ThreeLetters(v0: sextet, v1: sextet, v2: sextet)
    ensures (v0 * 4 + v1 / 16) * 65536 + (v1 % 16 * 16 + v2 / 4) * 256 ==
            (v0 * 262144 + v1 * 4096 + v2 * 64) / 256 * 256
  {
    var q, r := v0 * 1024 + v1 * 16 + v2 / 4, v2 % 4 * 64;
    assert v0 * 262144 + v1 * 4096 + v2 * 64 == q * 256 + r && 0 <= r < 256;
  }

  lemma FourLetters(v0: sextet, v1: sextet, v2: sextet, v3: sextet)
    ensures (v0 * 4 + v1 / 16) * 65536 + (v1 % 16 * 16 + v2 / 4) * 256 + (v2 % 4 * 64 + v3) ==
            v0 * 262144 + v1 * 4096 + v2 * 64 + v3
  {
  }
}

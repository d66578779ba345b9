/** The primitives of the wire decoder (internal/imapwire/decoder.go): a read
    position, a sticky error and one byte of look-ahead. */
module Wire {
  import opened Prelude
  import opened Text

  // ---------------------------------------------------------------------
  // What the primitives read, as functions of the remaining input
  // ---------------------------------------------------------------------

  /** How many bytes in front satisfy the predicate. */
  function Prefix(s: bytes, valid: byte -> bool): (n: nat)
    ensures n <= |s| && forall i | 0 <= i < n :: valid(s[i])
    ensures n < |s| ==> !valid(s[n])
  {
    if s == [] || !valid(s[0]) then 0 else 1 + Prefix(s[1..], valid)
  }

  lemma TakeNext(s: bytes, k: nat)
    requires k < |s|
    ensures s[k..][0] == s[k] && s[k..][1..] == s[k + 1..] && s[..k + 1] == s[..k] + [s[k]]
  {
  }

  /** How many digits the input starts with. */
  function DigitRun(rest: bytes): (n: nat)
    ensures n <= |rest| && AllDigits(rest[..n])
    ensures n < |rest| ==> !IsDigit(rest[n])
  {
    Prefix(rest, IsDigit)
  }

  /** A number; no number here, possibly after digits that do not fit; or the
      input ended. */
  datatype NumberResult = Number(value: nat, rest: bytes) | NoNumber(rest: bytes) | NumberEOF

  function ReadNumber(rest: bytes, max: nat): (r: NumberResult)
    ensures r.Number? ==> 0 < |r.rest| < |rest| && r.value <= max
    ensures r.NoNumber? ==> |r.rest| <= |rest|
  {
    var n := DigitRun(rest);
    if n == |rest| then NumberEOF
    else if n == 0 then NoNumber(rest)
    else if DigitsValue(rest[..n]) > max then NoNumber(rest[n..])
    else Number(DigitsValue(rest[..n]), rest[n..])
  }

  /** A separating space, which may be left out before a list. A space before
      the end of the line is consumed but is no separator. */
  datatype SpaceResult = Space(rest: bytes) | NoSpace(rest: bytes) | SpaceEOF

  function ReadSP(rest: bytes): (r: SpaceResult)
    ensures !r.SpaceEOF? ==> |r.rest| <= |rest|
  {
    if rest == [] then SpaceEOF
    else if rest[0] == SPACE then
      if |rest| == 1 then SpaceEOF
      else if rest[1] == CR || rest[1] == LF then NoSpace(rest[1..])
      else Space(rest[1..])
    else if rest[0] == LPAREN then Space(rest)
    else NoSpace(rest)
  }

  /** A separator is a space before something on the same line, or nothing before
      "("; the input ends in the middle of one where a space is all there is. */
  lemma Separator(rest: bytes, more: bytes)
    ensures ReadSP(rest) == Space(more) <==>
            && more != []
            && (if more[0] == 0x28 then rest == more || rest == [0x20] + more
                else rest == [0x20] + more && more[0] != 0x0D && more[0] != 0x0A)
    ensures ReadSP(rest).SpaceEOF? <==> rest == [] || rest == [0x20]
    ensures ReadSP(rest) == NoSpace(more) ==> rest == more || (rest == [0x20] + more && |more| > 0)
  {
    assert rest != [] ==> rest == [rest[0]] + rest[1..];
    assert ([0x20] + more)[1..] == more;
  }

  lemma DigitRunAt(a: bytes, b: bytes)
    requires AllDigits(a) && b != [] && !IsDigit(b[0])
    ensures DigitRun(a + b) == |a|
  {
    PrefixAt(a, b, IsDigit);
  }

  lemma {:induction false} PrefixAt(a: bytes, b: bytes, valid: byte -> bool)
    requires (forall i :: 0 <= i < |a| ==> valid(a[i])) && b != [] && !valid(b[0])
    ensures Prefix(a + b, valid) == |a|
  {
    if a == [] {
      assert a + b == b;
    } else {
      assert (a + b)[1..] == a[1..] + b;
      PrefixAt(a[1..], b, valid);
    }
  }

  /** A printed number is read back up to the first byte that is no digit. */
  lemma ReadFormatted(n: nat, max: nat, rest: bytes)
    requires n <= max && rest != [] && !IsDigit(rest[0])
    ensures ReadNumber(FormatUint(n) + rest, max) == Number(n, rest)
  {
    var s := FormatUint(n);
    DigitRunAt(s, rest);
    assert (s + rest)[..|s|] == s && (s + rest)[|s|..] == rest;
    FormatValue(n);
  }

  // ---------------------------------------------------------------------
  // The decoder
  // ---------------------------------------------------------------------

  class Decoder {
    const input: bytes         // what the peer sends until it closes
    const maxSize: int         // 0: no limit
    var pos: nat
    var err: bool
    var listDepth: nat
    var readBytes: int

    constructor (input: bytes, maxSize: int)
      ensures this.input == input && this.maxSize == maxSize
      ensures Valid() && pos == 0 && !err && listDepth == 0 && readBytes == 0
    {
      this.input, this.maxSize := input, maxSize;
      pos, err, listDepth, readBytes := 0, false, 0, 0;
    }

    ghost predicate Valid()
      reads this`pos, this`readBytes
    {
      pos <= |input| && (maxSize > 0 ==> readBytes <= maxSize + 1)
    }

    /** How many bytes can still be read before the input or the budget ends: a
        byte is refused once more than maxSize have been read. */
    ghost function Left(): (n: nat)
      requires Valid()
      reads this`pos, this`readBytes
      ensures n <= |input| - pos
    {
      if maxSize <= 0 then |input| - pos else Min(|input| - pos, maxSize + 1 - readBytes)
    }

    /** What can still be read, */
    ghost function Rest(): bytes
      requires Valid()
      reads this`pos, this`readBytes
    {
      input[pos..pos + Left()]
    }

    /** and what lies past the budget. */
    ghost function Beyond(): bytes
      requires Valid()
      reads this`pos, this`readBytes
    {
      input[pos + Left()..]
    }

    lemma WholeInput()
      requires Valid()
      ensures Rest() + Beyond() == input[pos..]
    {
    }

    /** The end of the budget fails like the end of the input. */
    method ReadByte() returns (b: byte, ok: bool)
      requires Valid()
      modifies this`pos, this`err, this`readBytes
      ensures Valid() && Beyond() == old(Beyond())
      ensures ok <==> !old(err) && old(Rest()) != []
      ensures ok ==> !err && b == old(Rest())[0] && Rest() == old(Rest())[1..] && pos == old(pos) + 1
      ensures !ok ==> err && pos == old(pos) && Rest() == old(Rest())
    {
      b, ok := 0, false;
      if err {
        return;
      }
      if maxSize > 0 && readBytes > maxSize {
        err := true;
        return;
      }
      if pos == |input| {
        err := true;
        return;
      }
      b, ok := input[pos], true;
      pos, readBytes := pos + 1, readBytes + 1;
    }

    method UnreadByte()
      requires Valid() && pos > 0
      modifies this`pos, this`readBytes
      ensures Valid() && pos == old(pos) - 1
      ensures Rest() == [input[pos]] + old(Rest()) && Beyond() == old(Beyond())
    {
      pos, readBytes := pos - 1, readBytes - 1;
    }

    /** Consumes the byte if it is the one wanted. */
    method AcceptByte(want: byte) returns (ok: bool)
      requires Valid()
      modifies this`pos, this`err, this`readBytes
      ensures Valid() && Beyond() == old(Beyond())
      ensures ok <==> !old(err) && old(Rest()) != [] && old(Rest())[0] == want
      ensures ok ==> Rest() == old(Rest())[1..] && pos == old(pos) + 1
      ensures !ok ==> pos == old(pos) && Rest() == old(Rest())
      ensures err <==> old(err) || old(Rest()) == []
    {
      var b;
      b, ok := ReadByte();
      if ok && b != want {
        UnreadByte();
        ok := false;
      }
    }

    /** The byte ahead, which stays. */
    method PeekByte() returns (b: byte, ok: bool)
      requires Valid() && !err
      modifies this`pos, this`err, this`readBytes
      ensures Valid() && pos == old(pos) && Rest() == old(Rest()) && Beyond() == old(Beyond())
      ensures (ok <==> Rest() != []) && (err <==> !ok) && (ok ==> b == Rest()[0])
    {
      b, ok := ReadByte();
      if ok {
        UnreadByte();
      }
    }

    method SP() returns (ok: bool)
      requires Valid() && !err
      modifies this`pos, this`err, this`readBytes
      ensures Valid() && pos >= old(pos) && Beyond() == old(Beyond())
      ensures ok <==> ReadSP(old(Rest())).Space?
      ensures err <==> ReadSP(old(Rest())).SpaceEOF?
      ensures !err ==> Rest() == ReadSP(old(Rest())).rest
    {
      ok := AcceptByte(SPACE);
      var b;
      if ok {
        b, ok := PeekByte();
        ok := ok && b != CR && b != LF;
        return;
      }
      if err {
        return;
      }
      b, ok := PeekByte();
      ok := ok && b == LPAREN;
    }

    /** Reads one byte, and puts it back if it is not wanted. */
    method NextIf(valid: byte -> bool) returns (b: byte, got: bool)
      requires Valid() && !err
      modifies this`pos, this`err, this`readBytes
      ensures Valid() && Beyond() == old(Beyond())
      ensures err <==> old(Rest()) == []
      ensures got <==> old(Rest()) != [] && valid(old(Rest())[0])
      ensures got ==> b == old(Rest())[0] && Rest() == old(Rest())[1..] && pos == old(pos) + 1
      ensures !got ==> Rest() == old(Rest()) && pos == old(pos)
    {
      b, got := ReadByte();
      if got && !valid(b) {
        UnreadByte();
        got := false;
      }
    }

    /** The bytes ahead that are wanted, up to the first other one. */
    method Run(valid: byte -> bool) returns (s: bytes)
      requires Valid() && !err
      modifies this`pos, this`err, this`readBytes
      ensures Valid() && pos >= old(pos) && Beyond() == old(Beyond())
      ensures err <==> Prefix(old(Rest()), valid) == |old(Rest())|
      ensures !err ==> var n := Prefix(old(Rest()), valid); s == old(Rest())[..n] && Rest() == old(Rest())[n..]
    {
      s := [];
      ghost var rest := Rest();
      ghost var n := Prefix(rest, valid);
      while true
        invariant Valid() && !err && Beyond() == old(Beyond())
        invariant |s| <= n && pos == old(pos) + |s|
        invariant s == rest[..|s|] && Rest() == rest[|s|..]
        decreases |input| - pos
      {
        var ch, got := NextIf(valid);
        if !got {
          return;
        }
        TakeNext(rest, |s|);
        s := s + [ch];
      }
    }

    /** The digits ahead. */
    method NumberStr() returns (s: bytes, ok: bool)
      requires Valid() && !err
      modifies this`pos, this`err, this`readBytes
      ensures Valid() && pos >= old(pos) && Beyond() == old(Beyond())
      ensures err <==> DigitRun(old(Rest())) == |old(Rest())|
      ensures ok <==> !err && DigitRun(old(Rest())) > 0
      ensures !err ==> s == old(Rest())[..DigitRun(old(Rest()))] && Rest() == old(Rest())[DigitRun(old(Rest()))..]
    {
      s := Run(IsDigit);
      ok := !err && |s| > 0;
    }

    method ReadNum(max: nat) returns (v: nat, ok: bool)
      requires Valid() && !err
      modifies this`pos, this`err, this`readBytes
      ensures Valid() && pos >= old(pos) && Beyond() == old(Beyond())
      ensures ok <==> ReadNumber(old(Rest()), max).Number?
      ensures err <==> ReadNumber(old(Rest()), max).NumberEOF?
      ensures ok ==> v == ReadNumber(old(Rest()), max).value
      ensures !err ==> Rest() == ReadNumber(old(Rest()), max).rest
    {
      v := 0;
      var s;
      s, ok := NumberStr();
      if !ok {
        return;
      }
      var n := ParseUint(s, max);
      ok := n.Some?;
      if ok {
        v := n.value;
      }
    }
  }
}

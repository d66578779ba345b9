/** Strings on the wire: quoted, literal or bare (internal/imapwire). */
module StringWire {
  import opened Prelude
  import opened Text
  import opened Wire

  // ---------------------------------------------------------------------
  // Writing
  // ---------------------------------------------------------------------

  /** What the peer answers to a synchronizing literal: no request can be made,
      it is granted, or it is refused. */
  datatype Continuation = Absent | Granted | Denied

  datatype Sender = Sender(client: bool, quotedUTF8: bool, literalMinus: bool, literalPlus: bool,
                           continuation: Continuation)

  const MAX_QUOTED: nat := 4096

  predicate Quotable(ch: byte, utf8: bool) {
    ch != 0 && ch != CR && ch != LF && (utf8 || ch < 0x80)
  }

  predicate ValidQuoted(s: bytes, utf8: bool) {
    |s| <= MAX_QUOTED && forall ch <- s :: Quotable(ch, utf8)
  }

  function Escape(ch: byte): bytes {
    if ch == DQUOTE || ch == BACKSLASH then [BACKSLASH, ch] else [ch]
  }

  function Escaped(s: bytes): bytes {
    if s == [] then [] else Escape(s[0]) + Escaped(s[1..])
  }

  function QuotedText(s: bytes): bytes {
    [DQUOTE] + Escaped(s) + [DQUOTE]
  }

  predicate NeedsSync(e: Sender, n: nat) {
    e.client && (!e.literalMinus || n > MAX_QUOTED) && !e.literalPlus
  }

  /** A client marks a literal it will not wait for. */
  predicate Marked(e: Sender, n: nat) {
    e.client && !NeedsSync(e, n)
  }

  function Announcement(n: nat, marked: bool): bytes {
    [LBRACE] + FormatUint(n) + (if marked then [PLUS] else []) + [RBRACE] + [CR, LF]
  }

  function LiteralText(s: bytes, marked: bool): bytes {
    Announcement(|s|, marked) + s
  }

  function StringText(s: bytes, e: Sender): bytes {
    if ValidQuoted(s, e.quotedUTF8) then QuotedText(s) else LiteralText(s, Marked(e, |s|))
  }

  /** The string cannot be sent: it has to be announced and is not asked for. */
  predicate Stuck(s: bytes, e: Sender) {
    !ValidQuoted(s, e.quotedUTF8) && NeedsSync(e, |s|) && !e.continuation.Granted?
  }

  class Encoder {
    const cfg: Sender
    var out: bytes
    var err: bool

    constructor (cfg: Sender)
      ensures this.cfg == cfg && out == [] && !err
    {
      this.cfg, out, err := cfg, [], false;
    }

    method WriteString(s: bytes)
      modifies this`out
      ensures out == if err then old(out) else old(out) + s
    {
      if err {
        return;
      }
      out := out + s;
    }

    method IsValidQuoted(s: bytes) returns (ok: bool)
      ensures ok <==> ValidQuoted(s, cfg.quotedUTF8)
    {
      if |s| > MAX_QUOTED {
        return false;
      }
      for i := 0 to |s|
        invariant forall j | 0 <= j < i :: Quotable(s[j], cfg.quotedUTF8)
      {
        assert s[i] in s;
        if s[i] == 0 || s[i] == CR || s[i] == LF {
          return false;
        }
        if !cfg.quotedUTF8 && s[i] > 0x7F {
          return false;
        }
      }
      return true;
    }

    method Quoted(s: bytes)
      modifies this`out
      ensures out == if err then old(out) else old(out) + QuotedText(s)
    {
      var sb: bytes := [DQUOTE];
      assert s[0..] == s;
      for i := 0 to |s|
        invariant out == old(out)
        invariant sb + Escaped(s[i..]) == [DQUOTE] + Escaped(s)
      {
        EscapedNext(sb, s, i);
        if s[i] == DQUOTE || s[i] == BACKSLASH {
          sb := sb + [BACKSLASH];
        }
        sb := sb + [s[i]];
      }
      assert s[|s|..] == [] && sb + [] == sb;
      sb := sb + [DQUOTE];
      assert sb == QuotedText(s);
      WriteString(sb);
    }

    method Announce(n: nat, marked: bool)
      modifies this`out
      ensures out == if err then old(out) else old(out) + Announcement(n, marked)
    {
      if err {
        return;
      }
      WriteString([LBRACE]);
      WriteString(FormatUint(n));
      if marked {
        WriteString([PLUS]);
      }
      WriteString([RBRACE]);
      WriteString([CR, LF]);
    }

    /** A literal: its announcement, then its bytes, which go out behind the back
        of an earlier error. */
    method StringLiteral(s: bytes)
      modifies this
      ensures err <==> old(err) || (NeedsSync(cfg, |s|) && !cfg.continuation.Granted?)
      ensures !err ==> out == old(out) + LiteralText(s, Marked(cfg, |s|))
    {
      var sync := false;
      if cfg.client && (!cfg.literalMinus || |s| > 4096) && !cfg.literalPlus {
        sync := !cfg.continuation.Absent?;
        if !sync {
          err := true;
          return;
        }
      }
      Announce(|s|, !sync && cfg.client);
      if sync && (err || cfg.continuation.Denied?) {
        err := true;
        return;
      }
      out := out + s;
    }

    method String(s: bytes)
      modifies this
      ensures err <==> old(err) || Stuck(s, cfg)
      ensures !err ==> out == old(out) + StringText(s, cfg)
    {
      var ok := IsValidQuoted(s);
      if ok {
        Quoted(s);
      } else {
        StringLiteral(s);
      }
    }
  }

  lemma EscapedNext(sb: bytes, s: bytes, i: nat)
    requires i < |s|
    ensures sb + Escaped(s[i..]) == sb + Escape(s[i]) + Escaped(s[i + 1..])
  {
    assert s[i..][1..] == s[i + 1..];
  }

  // ---------------------------------------------------------------------
  // Reading
  // ---------------------------------------------------------------------

  /** The two hooks that may refuse a literal; without the second one, a fixed
      limit holds. */
  datatype Receiver = Receiver(server: bool, quotedUTF8: bool,
                               checkLiteral: Option<nat -> bool>, checkBuffered: Option<(nat, bool) -> bool>)

  const MAX_INT64: nat := 0x7FFF_FFFF_FFFF_FFFF
  const MAX_LITERAL: nat := 0x4000_0000
  const MAX_BUFFERED: nat := 0x40_0000

  predicate Admits(d: Receiver, size: nat, nonSync: bool) {
    && (d.checkLiteral.Some? ==> d.checkLiteral.value(size))
    && (if d.checkBuffered.Some? then d.checkBuffered.value(size, nonSync) else size <= MAX_BUFFERED)
  }

  /** Control characters and the characters with a meaning of their own. */
  predicate AtomChar(ch: byte) {
    && ch !in [LPAREN, RPAREN, LBRACE, SPACE, PERCENT, STAR, DQUOTE, BACKSLASH, RBRACKET]
    && 0x20 <= ch && !(0x7F <= ch <= 0x9F)
  }

  predicate AStringChar(ch: byte) {
    AtomChar(ch) || ch == RBRACKET
  }

  /** Up to the closing quote. */
  function ReadQuoted(s: bytes): (r: Option<(bytes, bytes)>)
    ensures r.Some? ==> |r.value.1| < |s|
    decreases |s|
  {
    if s == [] then None
    else if s[0] == DQUOTE then Some(([], s[1..]))
    else
      var n := if s[0] == BACKSLASH then 1 else 0;
      if n + 1 > |s| then None
      else
        var r := ReadQuoted(s[n + 1..]);
        if r.None? then None else Some(([s[n]] + r.value.0, r.value.1))
  }

  /** The end of the announcement line, with an odd space or a lone LF. */
  function AfterCRLF(s: bytes): (r: Option<bytes>)
    ensures r.Some? ==> |r.value| < |s|
  {
    var a := if s != [] && s[0] == SPACE then s[1..] else s;
    var b := if a != [] && a[0] == CR then a[1..] else a;
    if b != [] && b[0] == LF then Some(b[1..]) else None
  }

  function AfterBrace(s: bytes): (r: Option<bytes>)
    ensures r.Some? ==> |r.value| < |s|
  {
    if s == [] || s[0] != RBRACE then None else AfterCRLF(s[1..])
  }

  /** The rest of an announcement: the size, whether the sender waits, and what
      follows. */
  function ReadHeader(s: bytes, server: bool): (r: Option<(nat, bool, bytes)>)
    ensures r.Some? ==> r.value.0 <= MAX_LITERAL && |r.value.2| < |s|
  {
    var num := ReadNumber(s, MAX_INT64);
    if !num.Number? then None
    else
      var nonSync := server && num.rest[0] == PLUS;
      var more := if nonSync then num.rest[1..] else num.rest;
      var data := AfterBrace(more);
      if num.value > MAX_LITERAL || data.None? then None else Some((num.value, nonSync, data.value))
  }

  /** A string, what can be read after it, and what lies past the budget. */
  datatype Got = Got(value: bytes, near: bytes, far: bytes)

  /** A literal's bytes are taken from the input itself. They do not count: the
      budget is the same after them. */
  function TakeData(size: nat, nonSync: bool, near: bytes, far: bytes, d: Receiver): Option<Got> {
    var data := near + far;
    if !Admits(d, size, nonSync) || |data| < size then None
    else
      var n := Min(|near|, |data| - size);
      Some(Got(data[..size], data[size..size + n], data[size + n..]))
  }

  function ReadLiteral(s: bytes, far: bytes, d: Receiver): Option<Got> {
    var h := ReadHeader(s, d.server);
    if h.None? then None else TakeData(h.value.0, h.value.1, h.value.2, far, d)
  }

  function ReadBare(s: bytes): (r: Option<(bytes, bytes)>)
    ensures r.Some? ==> |r.value.1| < |s|
  {
    var n := Prefix(s, AStringChar);
    if n == 0 || n == |s| then None else Some((s[..n], s[n..]))
  }

  function Near(r: Option<(bytes, bytes)>, far: bytes): Option<Got> {
    if r.None? then None else Some(Got(r.value.0, r.value.1, far))
  }

  function ReadAString(s: bytes, far: bytes, d: Receiver): Option<Got> {
    if s == [] then None
    else if s[0] == DQUOTE then Near(ReadQuoted(s[1..]), far)
    else if s[0] == LBRACE then ReadLiteral(s[1..], far, d)
    else Near(ReadBare(s), far)
  }

  method Quoted(dec: Decoder) returns (s: bytes, ok: bool)
    requires dec.Valid() && !dec.err
    modifies dec`pos, dec`err, dec`readBytes
    ensures dec.Valid() && dec.Beyond() == old(dec.Beyond())
    ensures var rest := old(dec.Rest());
            if rest != [] && rest[0] == DQUOTE then
              var r := ReadQuoted(rest[1..]);
              && (ok <==> r.Some?) && (!ok ==> dec.err)
              && (ok ==> !dec.err && (s, dec.Rest()) == r.value)
            else !ok && dec.Rest() == rest && (dec.err <==> rest == [])
  {
    s := [];
    ok := dec.AcceptByte(DQUOTE);
    if ok {
      s, ok := QuotedBody(dec);
    }
  }

  /** After the opening quote. */
  method QuotedBody(dec: Decoder) returns (s: bytes, ok: bool)
    requires dec.Valid() && !dec.err
    modifies dec`pos, dec`err, dec`readBytes
    ensures dec.Valid() && dec.Beyond() == old(dec.Beyond())
    ensures var r := ReadQuoted(old(dec.Rest()));
            && (ok <==> r.Some?) && (!ok ==> dec.err)
            && (ok ==> !dec.err && (s, dec.Rest()) == r.value)
  {
    s := [];
    ghost var all := ReadQuoted(dec.Rest());
    QuotedStarts(dec.Rest());
    while true
      invariant dec.Valid() && !dec.err && dec.Beyond() == old(dec.Beyond())
      invariant QuotedSoFar(s, dec.Rest(), all)
      decreases |dec.Rest()|
    {
      ghost var rest := dec.Rest();
      var ch;
      ch, ok := dec.ReadByte();
      if !ok {
        return;
      }
      if ch == DQUOTE {
        break;
      }
      if ch == BACKSLASH {
        ch, ok := dec.ReadByte();
        if !ok {
          return;
        }
      }
      QuotedNext(s, rest, all);
      s := s + [ch];
    }
    assert s + [] == s;
    ok := true;
  }

  lemma QuotedStarts(rest: bytes)
    ensures QuotedSoFar([], rest, ReadQuoted(rest))
  {
    var r := ReadQuoted(rest);
    if r.Some? {
      assert [] + r.value.0 == r.value.0;
    }
  }

  /** Reading goes on to the whole result with the bytes so far in front. */
  ghost predicate QuotedSoFar(s: bytes, rest: bytes, all: Option<(bytes, bytes)>) {
    var r := ReadQuoted(rest);
    if r.None? then all.None? else all == Some((s + r.value.0, r.value.1))
  }

  lemma QuotedNext(s: bytes, rest: bytes, all: Option<(bytes, bytes)>)
    requires QuotedSoFar(s, rest, all) && rest != [] && rest[0] != DQUOTE
    requires rest[0] == BACKSLASH ==> |rest| > 1
    ensures var n := if rest[0] == BACKSLASH then 1 else 0;
            QuotedSoFar(s + [rest[n]], rest[n + 1..], all)
  {
    var n := if rest[0] == BACKSLASH then 1 else 0;
    var r := ReadQuoted(rest[n + 1..]);
    if r.Some? {
      assert s + ([rest[n]] + r.value.0) == s + [rest[n]] + r.value.0;
    }
  }

  method CRLF(dec: Decoder) returns (ok: bool)
    requires dec.Valid()
    modifies dec`pos, dec`err, dec`readBytes
    ensures dec.Valid() && dec.Beyond() == old(dec.Beyond()) && (old(dec.err) ==> !ok)
    ensures !old(dec.err) ==> (ok <==> AfterCRLF(old(dec.Rest())).Some?)
    ensures ok ==> !dec.err && dec.Rest() == AfterCRLF(old(dec.Rest())).value
  {
    var space := dec.AcceptByte(SPACE);
    var cr := dec.AcceptByte(CR);
    ok := dec.AcceptByte(LF);
  }

  method LiteralReader(dec: Decoder, server: bool) returns (size: nat, nonSync: bool, ok: bool)
    requires dec.Valid()
    modifies dec`pos, dec`err, dec`readBytes
    ensures dec.Valid() && dec.Beyond() == old(dec.Beyond())
    ensures var rest := old(dec.Rest());
            if !old(dec.err) && rest != [] && rest[0] == LBRACE then
              var h := ReadHeader(rest[1..], server);
              && (ok <==> h.Some?) && (!ok ==> dec.err)
              && (ok ==> !dec.err && (size, nonSync, dec.Rest()) == h.value)
            else !ok && dec.Rest() == rest && (dec.err <==> old(dec.err) || rest == [])
  {
    size, nonSync := 0, false;
    ok := dec.AcceptByte(LBRACE);
    if ok {
      size, nonSync, ok := Header(dec, server);
    }
  }

  /** The announcement after its opening brace. */
  method Header(dec: Decoder, server: bool) returns (size: nat, nonSync: bool, ok: bool)
    requires dec.Valid() && !dec.err
    modifies dec`pos, dec`err, dec`readBytes
    ensures dec.Valid() && dec.Beyond() == old(dec.Beyond())
    ensures var h := ReadHeader(old(dec.Rest()), server);
            && (ok <==> h.Some?) && (!ok ==> dec.err)
            && (ok ==> !dec.err && (size, nonSync, dec.Rest()) == h.value)
  {
    nonSync := false;
    size, ok := dec.ReadNum(MAX_INT64);
    if !ok {
      dec.err := true;
      return;
    }
    nonSync := HeaderMark(dec, server);
    if size > MAX_LITERAL {
      dec.err := true;
      return size, nonSync, false;
    }
    ok := HeaderEnd(dec);
  }

  method HeaderMark(dec: Decoder, server: bool) returns (nonSync: bool)
    requires dec.Valid() && !dec.err && dec.Rest() != []
    modifies dec`pos, dec`err, dec`readBytes
    ensures dec.Valid() && !dec.err && dec.Beyond() == old(dec.Beyond())
    ensures nonSync <==> server && old(dec.Rest())[0] == PLUS
    ensures dec.Rest() == if nonSync then old(dec.Rest())[1..] else old(dec.Rest())
  {
    nonSync := false;
    if server {
      nonSync := dec.AcceptByte(PLUS);
    }
  }

  method HeaderEnd(dec: Decoder) returns (ok: bool)
    requires dec.Valid()
    modifies dec`pos, dec`err, dec`readBytes
    ensures dec.Valid() && dec.Beyond() == old(dec.Beyond()) && (!ok ==> dec.err)
    ensures ok <==> !old(dec.err) && AfterBrace(old(dec.Rest())).Some?
    ensures ok ==> !dec.err && dec.Rest() == AfterBrace(old(dec.Rest())).value
  {
    ok := dec.AcceptByte(RBRACE);
    if ok {
      ok := CRLF(dec);
    }
    if !ok {
      dec.err := true;
    }
  }

  /** The reader got what the function says, and stands after it. */
  ghost predicate Stands(dec: Decoder, s: bytes, ok: bool, r: Option<Got>)
    requires dec.Valid()
    reads dec
  {
    && (ok <==> r.Some?) && (!ok ==> dec.err)
    && (ok ==> !dec.err && r == Some(Got(s, dec.Rest(), dec.Beyond())))
  }

  method Literal(dec: Decoder, d: Receiver) returns (s: bytes, ok: bool)
    requires dec.Valid()
    modifies dec`pos, dec`err, dec`readBytes
    ensures dec.Valid()
    ensures var rest := old(dec.Rest());
            if !old(dec.err) && rest != [] && rest[0] == LBRACE
            then Stands(dec, s, ok, ReadLiteral(rest[1..], old(dec.Beyond()), d))
            else
              && !ok && dec.Rest() == rest && dec.Beyond() == old(dec.Beyond())
              && (dec.err <==> old(dec.err) || rest == [])
  {
    s := [];
    var size, nonSync;
    size, nonSync, ok := LiteralReader(dec, d.server);
    if ok {
      s, ok := Buffered(dec, size, nonSync, d);
    }
  }

  /** Buffers an announced literal, if the limits allow. */
  method Buffered(dec: Decoder, size: nat, nonSync: bool, d: Receiver) returns (s: bytes, ok: bool)
    requires dec.Valid() && !dec.err
    modifies dec`pos, dec`err
    ensures dec.Valid() && Stands(dec, s, ok, TakeData(size, nonSync, old(dec.Rest()), old(dec.Beyond()), d))
  {
    dec.WholeInput();
    if !Admits(d, size, nonSync) || |dec.input| - dec.pos < size {
      dec.err := true;
      return [], false;
    }
    s := LiteralData(dec, size);
    ok := true;
  }

  lemma Slices(s: bytes, k: nat, m: nat, n: nat)
    requires k + m + n <= |s|
    ensures s[k..][..m] == s[k..k + m] && s[k..][m..m + n] == s[k + m..k + m + n] && s[k..][m + n..] == s[k + m + n..]
  {
  }

  /** The bytes of the literal, which bypass the count. */
  method LiteralData(dec: Decoder, size: nat) returns (s: bytes)
    requires dec.Valid() && size <= |dec.input| - dec.pos
    modifies dec`pos
    ensures dec.Valid()
    ensures var near, data := old(dec.Rest()), old(dec.Rest()) + old(dec.Beyond());
            var n := Min(|near|, |data| - size);
            && |data| >= size && s == data[..size]
            && dec.Rest() == data[size..size + n] && dec.Beyond() == data[size + n..]
  {
    dec.WholeInput();
    ghost var n := Min(|dec.Rest()|, |dec.input| - dec.pos - size);
    Slices(dec.input, dec.pos, size, n);
    s := dec.input[dec.pos..dec.pos + size];
    dec.pos := dec.pos + size;
    assert dec.Left() == n;
  }

  /** The run of bytes ahead that satisfy the predicate, which may not be empty. */
  method Func(dec: Decoder, valid: byte -> bool) returns (s: bytes, ok: bool)
    requires dec.Valid()
    modifies dec`pos, dec`err, dec`readBytes
    ensures dec.Valid() && dec.Beyond() == old(dec.Beyond()) && (old(dec.err) ==> !ok && dec.err)
    ensures var rest := old(dec.Rest()); var n := Prefix(rest, valid);
            && (!old(dec.err) ==> (ok <==> 0 < n < |rest|))
            && (ok ==> !dec.err && s == rest[..n] && dec.Rest() == rest[n..])
  {
    if dec.err {
      return [], false;
    }
    s := dec.Run(valid);
    ok := !dec.err && |s| > 0;
  }

  method ExpectAString(dec: Decoder, d: Receiver) returns (s: bytes, ok: bool)
    requires dec.Valid() && !dec.err
    modifies dec`pos, dec`err, dec`readBytes
    ensures dec.Valid() && Stands(dec, s, ok, ReadAString(old(dec.Rest()), old(dec.Beyond()), d))
  {
    s, ok := Quoted(dec);
    if ok {
      return;
    }
    s, ok := Literal(dec, d);
    if ok {
      return;
    }
    s, ok := Func(dec, AStringChar);
    if !ok {
      dec.err := true;
    }
  }

  // ---------------------------------------------------------------------
  // Round trip
  // ---------------------------------------------------------------------

  lemma {:induction false} ReadEscaped(s: bytes, rest: bytes)
    ensures ReadQuoted(Escaped(s) + ([DQUOTE] + rest)) == Some((s, rest))
  {
    if s == [] {
      assert Escaped(s) + ([DQUOTE] + rest) == [DQUOTE] + rest;
      assert ([DQUOTE] + rest)[1..] == rest;
    } else {
      ReadEscaped(s[1..], rest);
      EscapeFirst(s[0], Escaped(s[1..]) + ([DQUOTE] + rest));
      AppendThree(Escape(s[0]), Escaped(s[1..]), [DQUOTE] + rest);
      assert [s[0]] + s[1..] == s;
    }
  }

  lemma AppendThree(a: bytes, b: bytes, c: bytes)
    ensures a + b + c == a + (b + c)
  {
  }

  lemma EscapeFirst(ch: byte, tail: bytes)
    ensures var r := ReadQuoted(tail);
            ReadQuoted(Escape(ch) + tail) == if r.None? then None else Some(([ch] + r.value.0, r.value.1))
  {
    var t := Escape(ch) + tail;
    assert t[|Escape(ch)|..] == tail;
  }

  /** The announcement after its opening brace. */
  function HeaderText(n: nat, marked: bool, data: bytes): bytes {
    FormatUint(n) + (if marked then [PLUS, RBRACE, CR, LF] + data else [RBRACE, CR, LF] + data)
  }

  lemma ReadHeaderText(n: nat, marked: bool, server: bool, data: bytes)
    requires marked ==> server
    ensures ReadHeader(HeaderText(n, marked, data), server) ==
            if n <= MAX_LITERAL then Some((n, marked, data)) else None
  {
    var tail := [RBRACE, CR, LF] + data;
    var rest := if marked then [PLUS, RBRACE, CR, LF] + data else tail;
    assert marked ==> rest[1..] == tail;
    ReadBig(n, rest);
    HeaderTail(data);
  }

  lemma HeaderTail(data: bytes)
    ensures var tail := [RBRACE, CR, LF] + data; AfterCRLF(tail[1..]) == Some(data)
  {
    assert ([RBRACE, CR, LF] + data)[1..] == [CR, LF] + data;
    AfterLine(data);
  }

  lemma LiteralHeader(s: bytes, marked: bool, rest: bytes)
    ensures LiteralText(s, marked) + rest == [LBRACE] + HeaderText(|s|, marked, s + rest)
  {
    if marked {
      assert [PLUS, RBRACE, CR, LF] == [PLUS] + [RBRACE, CR, LF];
    }
  }

  lemma AfterLine(data: bytes)
    ensures AfterCRLF([CR, LF] + data) == Some(data)
  {
    assert ([CR, LF] + data)[1..] == [LF] + data && ([LF] + data)[1..] == data;
  }

  /** A size that overflows is no number at all. */
  lemma ReadBig(n: nat, rest: bytes)
    requires rest != [] && !IsDigit(rest[0])
    ensures ReadNumber(FormatUint(n) + rest, MAX_INT64) == if n <= MAX_INT64 then Number(n, rest) else NoNumber(rest)
  {
    var s := FormatUint(n);
    DigitRunAt(s, rest);
    assert (s + rest)[..|s|] == s && (s + rest)[|s|..] == rest;
    FormatValue(n);
  }

  /** The receiver takes the string in the form the sender gives it. */
  ghost predicate Fits(s: bytes, e: Sender, d: Receiver) {
    ValidQuoted(s, e.quotedUTF8) || (|s| <= MAX_LITERAL && Admits(d, |s|, Marked(e, |s|)))
  }

  /** The reader stands exactly after the string: `rest` is ahead and can all be
      read, then what lay past the budget. */
  ghost predicate After(got: Option<Got>, s: bytes, rest: bytes, far: bytes) {
    && got.Some? && got.value.value == s
    && got.value.near + got.value.far == rest + far && rest <= got.value.near
  }

  /** A literal is read back also where its data reach past the budget. */
  lemma LiteralRoundTrip(s: bytes, marked: bool, d: Receiver, near: bytes, rest: bytes, far: bytes)
    requires (marked ==> d.server) && near + far == s + rest
    ensures var r := ReadLiteral(HeaderText(|s|, marked, near), far, d);
            if |s| <= MAX_LITERAL && Admits(d, |s|, marked)
            then r.Some? && r.value.value == s && r.value.near + r.value.far == rest
            else r.None?
  {
    ReadHeaderText(|s|, marked, d.server, near);
    DataBack(s, marked, d, near, rest, far);
  }

  lemma DataBack(s: bytes, marked: bool, d: Receiver, near: bytes, rest: bytes, far: bytes)
    requires near + far == s + rest
    ensures var r := TakeData(|s|, marked, near, far, d);
            if Admits(d, |s|, marked)
            then r.Some? && r.value.value == s && r.value.near + r.value.far == rest
            else r.None?
  {
    var data := near + far;
    var n := Min(|near|, |data| - |s|);
    assert data[..|s|] == s && data[|s|..] == rest;
    assert data[|s|..|s| + n] + data[|s| + n..] == data[|s|..];
  }

  lemma QuotedBack(s: bytes, d: Receiver, rest: bytes, far: bytes)
    ensures ReadAString(QuotedText(s) + rest, far, d) == Some(Got(s, rest, far))
  {
    var t := QuotedText(s) + rest;
    QuotedTail(Escaped(s), rest);
    assert t[0] == DQUOTE && t[1..] == Escaped(s) + ([DQUOTE] + rest);
    ReadEscaped(s, rest);
  }

  lemma QuotedTail(s: bytes, rest: bytes)
    ensures ([DQUOTE] + s + [DQUOTE] + rest)[1..] == s + ([DQUOTE] + rest)
  {
  }

  /** A written string is read back by the other side, up to exactly its end and
      whatever follows, unless it is a literal the other side does not admit. */
  lemma StringRoundTrip(s: bytes, e: Sender, d: Receiver, rest: bytes, far: bytes)
    requires d.server == e.client
    ensures var r := ReadAString(StringText(s, e) + rest, far, d);
            if Fits(s, e, d) then After(r, s, rest, far) else r.None?
  {
    if ValidQuoted(s, e.quotedUTF8) {
      QuotedBack(s, d, rest, far);
    } else {
      LiteralHeader(s, Marked(e, |s|), rest);
      ReadBrace(HeaderText(|s|, Marked(e, |s|), s + rest), far, d);
      LiteralBack(s, Marked(e, |s|), d, rest, far);
    }
  }

  lemma ReadBrace(s: bytes, far: bytes, d: Receiver)
    ensures ReadAString([LBRACE] + s, far, d) == ReadLiteral(s, far, d)
  {
    assert ([LBRACE] + s)[1..] == s;
  }

  lemma LiteralBack(s: bytes, marked: bool, d: Receiver, rest: bytes, far: bytes)
    requires marked ==> d.server
    ensures var r := ReadLiteral(HeaderText(|s|, marked, s + rest), far, d);
            if |s| <= MAX_LITERAL && Admits(d, |s|, marked) then After(r, s, rest, far) else r.None?
  {
    AppendThree(s, rest, far);
    LiteralRoundTrip(s, marked, d, s + rest, rest + far, far);
    var r := ReadLiteral(HeaderText(|s|, marked, s + rest), far, d);
    if r.Some? {
      ReadHeaderText(|s|, marked, d.server, s + rest);
      assert |r.value.near| >= |rest|;
      assert r.value.near == (rest + far)[..|r.value.near|];
    }
  }

  /** With nothing past the budget, what is ahead is `rest`. */
  lemma AfterAll(got: Option<Got>, s: bytes, rest: bytes)
    requires After(got, s, rest, [])
    ensures got == Some(Got(s, rest, []))
  {
    var g := got.value;
    assert rest + [] == rest && |g.far| == 0;
    assert g.near + [] == g.near;
  }

  // ---------------------------------------------------------------------
  // The forms, byte by byte
  // ---------------------------------------------------------------------

  lemma EscapedFirst(ch: byte, rest: bytes)
    ensures Escaped([ch] + rest) == (if ch == 0x22 || ch == 0x5C then [0x5C, ch] else [ch]) + Escaped(rest)
  {
    assert ([ch] + rest)[1..] == rest;
  }

  /** Nothing else is escaped. */
  lemma {:induction false} EscapedPlain(s: bytes)
    requires forall i :: 0 <= i < |s| ==> s[i] != 0x22 && s[i] != 0x5C
    ensures Escaped(s) == s
  {
    if s != [] {
      EscapedPlain(s[1..]);
      assert s == [s[0]] + s[1..];
    }
  }

  /** A reader takes the byte after a backslash whatever it is. */
  lemma QuotedFirst(ch: byte, rest: bytes)
    ensures ReadQuoted([0x22] + rest) == Some(([], rest))
    ensures var r := ReadQuoted(rest); var all := if r.None? then None else Some(([ch] + r.value.0, r.value.1));
            && ReadQuoted([0x5C, ch] + rest) == all
            && (ch != 0x22 && ch != 0x5C ==> ReadQuoted([ch] + rest) == all)
    ensures ReadQuoted([]).None? && ReadQuoted([0x5C]).None?
  {
    assert ([ch] + rest)[1..] == rest && ([0x22] + rest)[1..] == rest;
    assert ([0x5C, ch] + rest)[2..] == rest;
  }

  /** What may stand between quotes. */
  lemma QuotableText(s: bytes, utf8: bool)
    ensures ValidQuoted(s, utf8) <==>
            && |s| <= 4096
            && forall i :: 0 <= i < |s| ==> s[i] != 0 && s[i] != 0x0A && s[i] != 0x0D && (s[i] <= 0x7F || utf8)
  {
    if ValidQuoted(s, utf8) {
      assert forall i :: 0 <= i < |s| ==> s[i] in s;
    }
  }

  /** The client does not wait after a literal if the server said LITERAL+, or
      LITERAL- and the literal is short; a server never waits and marks nothing. */
  lemma LiteralForm(s: bytes, e: Sender)
    requires !ValidQuoted(s, e.quotedUTF8)
    ensures var free := e.literalPlus || (e.literalMinus && |s| <= 4096);
            && StringText(s, e) ==
               [0x7B] + FormatUint(|s|) + (if e.client && free then [0x2B] else []) + [0x7D] + [0x0D, 0x0A] + s
            && (Stuck(s, e) <==> e.client && !free && e.continuation != Granted)
  {
  }

  /** The bytes of an atom, and "]". */
  lemma BareChars(ch: byte)
    ensures AStringChar(ch) <==>
            || ch == 0x21 || 0x23 <= ch <= 0x24 || 0x26 <= ch <= 0x27 || 0x2B <= ch <= 0x5B
            || 0x5D <= ch <= 0x7A || 0x7C <= ch <= 0x7E || ch >= 0xA0
  {
  }

  /** A line may end in a lone LF and after an odd space. */
  lemma LineEnds(s: bytes, data: bytes)
    ensures AfterCRLF(s) == Some(data) <==>
            || s == [0x0A] + data || s == [0x0D, 0x0A] + data
            || s == [0x20, 0x0A] + data || s == [0x20, 0x0D, 0x0A] + data
  {
    assert ([0x0A] + data)[1..] == data;
    assert ([0x0D, 0x0A] + data)[1..] == [0x0A] + data;
    assert ([0x20, 0x0A] + data)[1..] == [0x0A] + data;
    assert ([0x20, 0x0D, 0x0A] + data)[1..] == [0x0D, 0x0A] + data;
    if AfterCRLF(s) == Some(data) {
      var a := if s[0] == SPACE then s[1..] else s;
      var b := if a[0] == CR then a[1..] else a;
      assert b == [0x0A] + data;
      assert a == b || a == [0x0D, 0x0A] + data;
    }
  }

  ghost predicate IsLineEnd(line: bytes) {
    line == [0x0A] || line == [0x0D, 0x0A] || line == [0x20, 0x0A] || line == [0x20, 0x0D, 0x0A]
  }

  /** Any accepted announcement: digits for a size up to 1 GiB, "+" only where a
      server reads, "}" and a line end. */
  lemma HeaderParts(s: bytes, server: bool) returns (digits: bytes, line: bytes)
    requires ReadHeader(s, server).Some?
    ensures var (size, nonSync, data) := ReadHeader(s, server).value;
            && AllDigits(digits) && digits != [] && size == DigitsValue(digits) && size <= 1024 * 1024 * 1024
            && (nonSync ==> server) && IsLineEnd(line)
            && s == digits + (if nonSync then [0x2B, 0x7D] + (line + data) else [0x7D] + (line + data))
  {
    var num := ReadNumber(s, MAX_INT64);
    digits := NumberParts(s, MAX_INT64);
    var (size, nonSync, data) := ReadHeader(s, server).value;
    var more := if nonSync then num.rest[1..] else num.rest;
    line := BraceParts(more, data);
    if nonSync {
      MarkedTail(num.rest, line + data);
    }
  }

  lemma NumberParts(s: bytes, max: nat) returns (digits: bytes)
    requires ReadNumber(s, max).Number?
    ensures var num := ReadNumber(s, max);
            && AllDigits(digits) && digits != [] && num.value == DigitsValue(digits) && s == digits + num.rest
  {
    digits := s[..DigitRun(s)];
  }

  lemma BraceParts(s: bytes, data: bytes) returns (line: bytes)
    requires AfterBrace(s) == Some(data)
    ensures IsLineEnd(line) && s == [0x7D] + (line + data)
  {
    line := LineOf(s[1..], data);
  }

  lemma MarkedTail(s: bytes, tail: bytes)
    requires s != [] && s[0] == PLUS && s[1..] == [0x7D] + tail
    ensures s == [0x2B, 0x7D] + tail
  {
    assert s == [s[0]] + s[1..];
  }

  lemma LineOf(s: bytes, data: bytes) returns (line: bytes)
    requires AfterCRLF(s) == Some(data)
    ensures s == line + data && IsLineEnd(line)
  {
    LineEnds(s, data);
    line := if s == [0x0A] + data then [0x0A] else if s == [0x0D, 0x0A] + data then [0x0D, 0x0A]
            else if s == [0x20, 0x0A] + data then [0x20, 0x0A] else [0x20, 0x0D, 0x0A];
  }

  /** Without hooks a literal of up to 4 MiB is buffered. */
  lemma DefaultLimit(d: Receiver, size: nat, nonSync: bool)
    ensures d.checkLiteral.None? && d.checkBuffered.None? ==>
              (Admits(d, size, nonSync) <==> size <= 4 * 1024 * 1024)
    ensures d.checkLiteral.Some? && d.checkBuffered.Some? ==>
              (Admits(d, size, nonSync) <==> d.checkLiteral.value(size) && d.checkBuffered.value(size, nonSync))
  {
  }
}

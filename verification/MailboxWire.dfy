/** Mailbox names on the wire (internal/imapwire). */
module MailboxWire {
  import opened Prelude
  import opened Wire
  import opened StringWire
  import Utf7
  import Utf8

  const INBOX: bytes := [0x49, 0x4E, 0x42, 0x4F, 0x58]

  function Upper(b: byte): byte {
    if 0x61 <= b <= 0x7A then b - 0x20 else b
  }

  /** strings.EqualFold against "INBOX": none of its letters has a case variant
      outside ASCII. */
  predicate IsInbox(s: bytes) {
    |s| == 5 && forall i | 0 <= i < 5 :: Upper(s[i]) == INBOX[i]
  }

  /** Each of the five letters in either case, and nothing else. */
  lemma InboxLetters(s: bytes)
    ensures IsInbox(s) <==>
            && |s| == 5
            && (s[0] == 0x49 || s[0] == 0x69) && (s[1] == 0x4E || s[1] == 0x6E) && (s[2] == 0x42 || s[2] == 0x62)
            && (s[3] == 0x4F || s[3] == 0x6F) && (s[4] == 0x58 || s[4] == 0x78)
  {
    if |s| == 5 {
      assert IsInbox(s) ==>
          && Upper(s[0]) == INBOX[0] && Upper(s[1]) == INBOX[1] && Upper(s[2]) == INBOX[2]
          && Upper(s[3]) == INBOX[3] && Upper(s[4]) == INBOX[4];
    }
  }

  // ---------------------------------------------------------------------
  // Writing
  // ---------------------------------------------------------------------

  /** The name as it stands between the quotes or in the literal. */
  function Spelled(name: bytes, utf8: bool): bytes {
    if utf8 then name else Utf7.EncodedText(name)
  }

  function MailboxText(name: bytes, e: Sender): bytes {
    if IsInbox(name) then INBOX else StringText(Spelled(name, e.quotedUTF8), e)
  }

  method WriteMailbox(enc: Encoder, name: bytes)
    modifies enc
    ensures enc.err <==> old(enc.err) || (!IsInbox(name) && Stuck(Spelled(name, enc.cfg.quotedUTF8), enc.cfg))
    ensures !enc.err ==> enc.out == old(enc.out) + MailboxText(name, enc.cfg)
  {
    if IsInbox(name) {
      enc.WriteString(INBOX);
      return;
    }
    var s := name;
    if !enc.cfg.quotedUTF8 {
      s := Utf7.Encode(name);
    }
    enc.String(s);
  }

  // ---------------------------------------------------------------------
  // Reading
  // ---------------------------------------------------------------------

  function NameOf(s: bytes, utf8: bool): Option<bytes> {
    if IsInbox(s) then Some(INBOX) else if utf8 then Some(s) else Utf7.Decoded(s)
  }

  function ReadMailbox(rest: bytes, far: bytes, d: Receiver): Option<Got> {
    var r := ReadAString(rest, far, d);
    if r.None? then None
    else
      var name := NameOf(r.value.value, d.quotedUTF8);
      if name.None? then None else Some(r.value.(value := name.value))
  }

  method ExpectMailbox(dec: Decoder, d: Receiver) returns (name: bytes, ok: bool)
    requires dec.Valid() && !dec.err
    modifies dec`pos, dec`err, dec`readBytes
    ensures dec.Valid() && Stands(dec, name, ok, ReadMailbox(old(dec.Rest()), old(dec.Beyond()), d))
  {
    name, ok := ExpectAString(dec, d);
    if !ok {
      return;
    }
    if IsInbox(name) {
      return INBOX, true;
    }
    if d.quotedUTF8 {
      return;
    }
    var decoded := Utf7.Decode(name);
    if decoded.None? {
      dec.err := true;
      return name, false;
    }
    name := decoded.value;
  }

  // ---------------------------------------------------------------------
  // Round trip
  // ---------------------------------------------------------------------

  /** The name every spelling of it stands for. */
  function CanonicalName(name: bytes, utf8: bool): bytes {
    if IsInbox(name) then INBOX else if utf8 then name else Utf8.Text(Utf8.Runes(name))
  }

  /** Text without "&" was not shifted or escaped. */
  lemma {:induction false} PlainSpelling(s: bytes)
    requires AMPERSAND !in Utf7.EncodedText(s)
    ensures Utf7.EncodedText(s) == s
  {
    if s != [] {
      var t := Utf7.EncodedText(s);
      assert t[0] in t;
      var rest := Utf7.EncodedText(s[1..]);
      assert t == [s[0]] + rest;
      assert forall b <- rest :: b in t;
      PlainSpelling(s[1..]);
    }
  }

  /** No other name is spelled like INBOX. */
  lemma InboxSpelling(name: bytes, utf8: bool)
    ensures IsInbox(Spelled(name, utf8)) <==> IsInbox(name)
  {
    var t := Utf7.EncodedText(name);
    if !utf8 && IsInbox(t) {
      assert AMPERSAND !in t;
      PlainSpelling(name);
    }
    if !utf8 && IsInbox(name) {
      Utf7.SelfEncoded(name);
    }
  }

  lemma ReadInbox(rest: bytes, far: bytes, d: Receiver)
    requires rest != [] && !AStringChar(rest[0])
    ensures ReadAString(INBOX + rest, far, d) == Some(Got(INBOX, rest, far))
  {
    var t := INBOX + rest;
    PrefixAt(INBOX, rest, AStringChar);
    assert t[..5] == INBOX && t[5..] == rest;
  }

  /** The receiver gets the name in the form the sender gives it. */
  ghost predicate Arrives(name: bytes, e: Sender, d: Receiver) {
    IsInbox(name) || Fits(Spelled(name, e.quotedUTF8), e, d)
  }

  /** The name comes back in its canonical form and the decoder stops at the byte
      after it, whichever of the three forms was chosen, if the two sides agree on
      UTF-8 and the receiver admits the literal; otherwise the decoder fails. */
  lemma MailboxRoundTrip(name: bytes, e: Sender, d: Receiver, rest: bytes, far: bytes)
    requires d.server == e.client && d.quotedUTF8 == e.quotedUTF8
    requires IsInbox(name) ==> rest != [] && !AStringChar(rest[0])
    ensures var r := ReadMailbox(MailboxText(name, e) + rest, far, d);
            if Arrives(name, e, d) then After(r, CanonicalName(name, e.quotedUTF8), rest, far) else r.None?
  {
    if IsInbox(name) {
      ReadInbox(rest, far, d);
    } else {
      StringRoundTrip(Spelled(name, e.quotedUTF8), e, d, rest, far);
      InboxSpelling(name, e.quotedUTF8);
      Utf7.RoundTrip(name);
    }
  }

  /** In modified UTF-7 the length of the encoded name decides: up to 4096 bytes
      it is quoted, so no receiver can refuse it. */
  lemma ShortNameArrives(name: bytes, e: Sender, d: Receiver)
    requires !e.quotedUTF8
    ensures IsInbox(name) || (ValidQuoted(Spelled(name, false), false) <==> |Utf7.EncodedText(name)| <= MAX_QUOTED)
    ensures |Utf7.EncodedText(name)| <= MAX_QUOTED ==> Arrives(name, e, d)
  {
    Utf7.EncodedPrintable(name);
  }

  /** In any case INBOX is written and read in upper case, without quotes or
      shifts; a name of other characters in 0x20..0x7E without "&", quotes and
      backslashes is quoted as it is. */
  lemma PlainNames(name: bytes, e: Sender, utf8: bool)
    ensures IsInbox(name) ==>
              MailboxText(name, e) == [0x49, 0x4E, 0x42, 0x4F, 0x58] == CanonicalName(name, utf8)
              && NameOf(name, utf8) == Some([0x49, 0x4E, 0x42, 0x4F, 0x58])
    ensures !IsInbox(name) && |name| <= 4096
            && (forall i :: 0 <= i < |name| ==> 0x20 <= name[i] <= 0x7E
                                                && name[i] != 0x22 && name[i] != 0x26 && name[i] != 0x5C)
            ==> MailboxText(name, e) == [0x22] + name + [0x22]
  {
    if !IsInbox(name) && |name| <= 4096
       && (forall i :: 0 <= i < |name| ==> 0x20 <= name[i] <= 0x7E
                                           && name[i] != 0x22 && name[i] != 0x26 && name[i] != 0x5C) {
      Utf7.SelfEncoded(name);
      EscapedPlain(name);
      assert Spelled(name, e.quotedUTF8) == name;
      assert ValidQuoted(name, e.quotedUTF8);
    }
  }

  /** A valid name is its own canonical form, up to the case of INBOX. */
  lemma CanonicalValid(name: bytes, utf8: bool)
    requires Utf8.ValidString(name)
    ensures CanonicalName(name, utf8) == if IsInbox(name) then INBOX else name
  {
    Utf8.ValidFixed(name);
  }

  /** The whole way: written by one side, read by the other with a budget that
      holds the text, or none. */
  method Transfer(name: bytes, e: Sender, d: Receiver, next: byte, maxSize: int) returns (back: bytes, ok: bool)
    requires d.server == e.client && d.quotedUTF8 == e.quotedUTF8
    requires !AStringChar(next) && (maxSize <= 0 || |MailboxText(name, e)| <= maxSize)
    ensures ok <==> Arrives(name, e, d) && (IsInbox(name) || !Stuck(Spelled(name, e.quotedUTF8), e))
    ensures ok ==> back == CanonicalName(name, e.quotedUTF8)
  {
    var enc := new Encoder(e);
    WriteMailbox(enc, name);
    if enc.err {
      return [], false;
    }
    var dec := new Decoder(enc.out + [next], maxSize);
    assert enc.out == MailboxText(name, e);
    assert dec.Rest() == MailboxText(name, e) + [next] && dec.Beyond() == [];
    MailboxRoundTrip(name, e, d, [next], []);
    back, ok := ExpectMailbox(dec, d);
  }
}

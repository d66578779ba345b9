# go-imap, verified

Dafny models of the parts of go-imap whose correctness is not visible from any single
function, with proofs about all inputs, all reachable states or all runs:

- **Mailbox tracker** (`Tracker*.dfy`): many sessions, each with its own lagging view of one
  mailbox. `TrackerView` says what an update does to a view, `TrackerNumbers` translates sequence
  numbers, `TrackerDelivery` writes a batch (with VANISHED for QRESYNC), `Tracker` holds the two
  classes with one method per critical section, `TrackerProtocol` is every interleaving of them,
  `TrackerIdle` is the wake-up channel of IDLE.
- **Number sets** (`NumSet*.dfy`): the canonical range lists of `imapnum`, their bisection and
  merge-on-insert, enumeration, and text form.
- **LIST wildcards** (`ListMatch.dfy`): the two-row dynamic programme against "the name can be cut
  into parts that the tokens of the pattern accept".
- **COPYUID mappings** (`UIDMapping*.dfy`): paired ranges, validation by sorting, the two-cursor
  parser and the recompressing printer, against the list of pairs a mapping stands for.
- **Mailbox names** (`Utf8`, `Base64`, `Utf7`, `StringWire`, `MailboxWire`): modified UTF-7
  (section 5.1.3 of RFC 3501), quoted strings, literals and the INBOX atom, in both directions.
- **Threads** (`Threads`, `ThreadWire`): the normal form of a THREAD forest, and the server's
  writer against the client's recursive reader.
- **FETCH buffering** (`FetchBuffer.dfy`): the byte budget shared by the reader and the consumers
  of messages.
- **Shutdown** (`Shutdown.dfy`): the handshake between `Server.Shutdown` and each connection.

Go strings and byte slices are `seq<byte>`; `uint32` is a subset type of `int`, so each value
stored in one is proved to fit, and the places where the source relies on wrap-around say so.
Objects are classes with the source's fields; concurrency is a state machine whose steps are the
critical sections. Reads from the network are an input that ends where the peer closes.

Two facts about the code are stated as they are, each with its exact boundary. Collapsing a run
of wildcards is faithful exactly for hierarchy delimiters of at most one byte
(`ListMatch.CollapseExact`, counter-example `ListMatch.WideDelimiter`). The loop that enumerates a
range is left exactly when the range does not end at 4294967295 (`NumSetOps.RangeLoopEnds`).

## Model

| member | source | states |
|---|---|---|
| TrackerNumbers.Decode | imapserver/tracker.go:429-455 | the forward walk over the queue returns the server's position of the very message the client's number names, and 0 exactly when the server has no such message |
| TrackerNumbers.Encode | imapserver/tracker.go:463-500 | the backward walk returns the client's position of the server's message n, and 0 exactly when n is out of range or the client has not been told of it |
| TrackerNumbers.EncodeNum | imapserver/tracker.go:508-531 | undoing the queue's counts gives the length of the client's view |
| TrackerNumbers.MutuallyInverse | imapserver/tracker.go:429-531 | encoding and decoding undo each other wherever they are not 0, for every legal queue |
| TrackerNumbers.OrderPreserving | imapserver/tracker.go:429-531 | both translations are strictly increasing where they are not 0 |
| TrackerNumbers.UnannouncedSuffix | imapserver/tracker.go:463-500 | the messages the client has not been told of are the last ones of the server's view |
| TrackerNumbers.BeyondView | imapserver/tracker.go:429-455 | a number past the client's view decodes to 0 or to a message encoding does not give back |
| TrackerView.ReplayConcat | imapserver/tracker.go:60-99 | updates are legal and act on a view the same whether replayed at once or in two parts |
| TrackerView.GoneForGood | imapserver/tracker.go:60-99 | an expunged message is in no later view: new messages are new |
| TrackerDelivery.Deliver | imapserver/tracker.go:309-361 | the client ends with the view that one EXPUNGE per message gives, and with the flags, sequence number, UID and mod-sequence of every FETCH and FLAGS update filed under the message the server meant; on a QRESYNC session every expunge with a UID is reported by VANISHED and never by EXPUNGE, a run of them by one VANISHED, which names expunged UIDs only; every other update has exactly one response, in queue order, carrying its fields one by one, read in exactly the view it was queued in |
| TrackerDelivery.FlushVanished | imapserver/tracker.go:315-322 | writing the pending VANISHED brings the client to the view of the updates handled so far; without one nothing is written |
| TrackerDelivery.WriteOwn | imapserver/tracker.go:334-352 | a response of its own is written after any pending VANISHED and keeps the loop's invariant |
| TrackerDelivery.ReceiveImage | imapserver/tracker.go:334-352 | the response written for an update carries each of its fields in its own place, does to the client's view what the update did to the server's, and teaches the client what the update says about the message it names |
| TrackerDelivery.HoldBack | imapserver/tracker.go:330-333 | an expunge with a UID only joins the pending set, which is then what separates the client from the updates handled so far |
| TrackerDelivery.WithoutOneMore | imapserver/tracker.go:309-361 | removing by UID the message now at position n is removing position n |
| Tracker.SessionTracker.QueueUpdate | imapserver/tracker.go:232-251 | update and count are recorded together, so the queue again leads to the mailbox as it is, with truthful UIDs |
| Tracker.SessionTracker.Poll | imapserver/tracker.go:272-361 | takes the whole queue, or the part before the first expunge, in any valid state; the client's view after the responses followed by what is left of the queue is still the server's view, and what the client has been told of flags and mod-sequences is what the updates said; expunges with a UID go to a QRESYNC session by VANISHED and only so; no expunge is reported when none is allowed |
| Tracker.SessionTracker.DecodeSeqNum | imapserver/tracker.go:429-455 | the decoded number on the session's own state, 0 once the session is closed |
| Tracker.SessionTracker.EncodeSeqNum | imapserver/tracker.go:463-500 | the encoded number on the session's own state, 0 once the session is closed |
| Tracker.SessionTracker.EncodeNumMessages | imapserver/tracker.go:508-531 | the length of the client's view, 0 once the session is closed |
| Tracker.SessionTracker.Close | imapserver/tracker.go:216-225 | leaves the mailbox and its set of sessions, once |
| Tracker.MailboxTracker.NewSession | imapserver/tracker.go:49-58 | the new session is registered with the mailbox as it is and an empty queue |
| Tracker.MailboxTracker.FanOut | imapserver/tracker.go:90-97 | every session is handed the update and the count after it; the source is spared the update only |
| Tracker.MailboxTracker.QueueUpdate | imapserver/tracker.go:60-99 | an expunge out of range and a shrinking count are refused and change nothing; otherwise the view changes, every session but the source has the update appended, and every session still leads to the view and can be polled |
| Tracker.MailboxTracker.QueueExpunge | imapserver/tracker.go:115-120 | succeeds exactly for 1 to the count, removes that message and appends the expunge to every queue; otherwise nothing changes |
| Tracker.MailboxTracker.QueueNumMessages | imapserver/tracker.go:129-140 | succeeds exactly when the count does not shrink, adds messages at the end only, appends an EXISTS that remembers the old count to every queue, and never queues zero |
| Tracker.MailboxTracker.QueueMailboxFlags | imapserver/tracker.go:143-148 | changes no view and is appended to every queue |
| Tracker.MailboxTracker.QueueMessageFlags | imapserver/tracker.go:158-165 | changes no view and is appended to every queue but the source's |
| TrackerProtocol.NextKeeps | imapserver/tracker.go:60-361 | each step of each party keeps: client view, pending VANISHED, batch in flight and queue replay to the server's view as far as it has been fanned out |
| TrackerProtocol.RunInv | imapserver/tracker.go:60-361 | the same in every state of every run |
| TrackerProtocol.DeliveredAsMeant | imapserver/tracker.go:60-361 | in every run, a response carries the fields of its update and reaches a client whose view is the server's view when that update was queued, so its numbers name the messages the server meant and its flags are filed under them |
| TrackerProtocol.VanishedAsMeant | imapserver/tracker.go:309-361 | in every run a VANISHED names exactly the UIDs of the expunges held back for it; the server queued each of them, each is still in the client's view, and without them the client has the view the next entry was queued in |
| TrackerProtocol.WrittenAsDelivered | imapserver/tracker.go:286-361 | in every run, whatever is interleaved, a finished batch has been written exactly as Deliver writes it |
| TrackerProtocol.Provenance | imapserver/tracker.go:60-251 | nothing is queued, in flight or held back for VANISHED that the server did not queue, in the view recorded with it |
| TrackerProtocol.CaughtUp | imapserver/tracker.go:272-361 | a registered session with nothing left to deliver shows its client the server's view |
| TrackerProtocol.ReadersConsistent | imapserver/tracker.go:429-531 | in every run the count and queue a reader finds satisfy the precondition of the translations, for the view the client has once the batch in flight is written |
| TrackerProtocol.AfterPoll | imapserver/tracker.go:262-283 | in every run, once a poll has written its batch and still holds the delivery lock, count and queue agree with the client's actual view, so numbers encoded there are valid |
| TrackerIdle.NextKeeps | imapserver/tracker.go:232-251 | each step keeps: an Idle that waits or writes with updates queued has a token or is owed a send on its own channel |
| TrackerIdle.NoLostWakeUp | imapserver/tracker.go:387-422 | no wake-up is lost in any run, despite sends dropped on a full buffer, channels of earlier calls and updates queued before registration |
| TrackerIdle.WakesUp | imapserver/tracker.go:387-422 | a waiting Idle with updates queued is at most four steps from an empty queue |
| NumSet.Merge | internal/imapnum/numset.go:37-66 | merges exactly the ranges that intersect or touch, with "*" last, into the range from the lower start to the higher end |
| NumSet.Search | internal/imapnum/numset.go:253-266 | bisection finds the first range that is not before q, and membership agrees with the linear scan |
| NumSet.InsertedMembers | internal/imapnum/numset.go:187-223 | insertion keeps the canonical form and denotes the union, "*", "n:*" and 4294967295 included |
| NumSet.InsertRange | internal/imapnum/numset.go:187-223 | bisect, merge left, merge right and splice is the linear insertion |
| NumSet.InsertAt | internal/imapnum/numset.go:226-248 | the new range stands at index i and everything from i on moves up |
| NumSet.CanonicalUnique | internal/imapnum/numset.go:187-223 | two canonical lists with the same members are the same list |
| NumSetOps.AddOrderIrrelevant | internal/imapnum/numset.go:97-118 | any order and grouping of additions with the same union builds the identical list |
| NumSetOps.Ordered | internal/imapnum/numset.go:105-111 | bounds in either order give a well-formed range between them, "*" counting as the largest |
| NumSetOps.InsertedAllMembers | internal/imapnum/numset.go:114-118 | adding a list of ranges adds exactly their members |
| NumSetOps.Set.AddNum | internal/imapnum/numset.go:98-102 | exactly the numbers are added to the members and the list stays canonical |
| NumSetOps.Set.AddRange | internal/imapnum/numset.go:105-111 | exactly the members of the ordered range are added and the list stays canonical |
| NumSetOps.Set.AddSet | internal/imapnum/numset.go:114-118 | exactly the members of all its ranges are added and the list stays canonical |
| NumSetOps.SetContains | internal/imapnum/numset.go:130-135 | true exactly for the non-zero members |
| NumSetOps.StaticStops | internal/imapnum/numset.go:121-123 | looking at the last range tells whether "*" is in the set |
| NumSetOps.TotalIsSize | internal/imapnum/numset.go:140-149 | the lengths of a static set's ranges add up to the number of its members, which fits a uint32 |
| NumSetOps.Cardinality | internal/imapnum/numset.go:140-149 | the number of members, or the largest uint64 for a dynamic set; the sum does not wrap |
| NumSetOps.AppendRange | internal/imapnum/numset.go:83-91 | appends the numbers of the range in order, and fails exactly for a dynamic one |
| NumSetOps.RangeLoopEnds | internal/imapnum/numset.go:87-89 | the uint32 loop reaches its exit if and only if the range does not end at 4294967295 |
| NumSetOps.Nums | internal/imapnum/numset.go:152-160 | the strictly ascending list of exactly the members, as long as the cardinality; fails exactly for a dynamic set |
| NumSetText.SetString | internal/imapnum/numset.go:163-184 | the comma-first buffer cut at 1 is the ranges joined by commas |
| NumSetText.ParseSet | internal/imapnum/numset.go:316-326 | succeeds exactly on comma-separated items that are "*" or a number without leading zero up to 4294967295, or two of these around one colon; the result holds exactly the numbers between the bounds of some item, in either order, "*" above all |
| NumSetText.ItemAccepted | internal/imapnum/numset.go:277-307 | an item parses exactly when its bytes are a bound, or two bounds around a colon: digits 0x30 to 0x39 with no 0x30 in front, or 0x2A |
| NumSetText.ItemMembers | internal/imapnum/numset.go:289-307 | a parsed item holds exactly the numbers between its bounds, whichever comes first |
| NumSetText.SetTextMeans | internal/imapnum/numset.go:316-326 | the same for a whole text: refused exactly when an item is malformed, else the members are those of the items |
| NumSetText.RangePrinted | internal/imapnum/numset.go:163-184 | a range is printed as one bound, or as two around a colon, with "*" for zero |
| Text.LastDigit | internal/imapnum/numset.go:277-284 | the value of a digit string is ten times that of all but its last digit, plus that digit |
| Text.JoinSplit | internal/imapnum/numset.go:316-326 | joining the items of a split text with the separator gives the text back |
| NumSetText.RangeRoundTrip | internal/imapnum/numset.go:289-307 | every well-formed range is parsed back from its text |
| NumSetText.ParsePrint | internal/imapnum/numset.go:163-326 | parsing the text of a non-empty canonical set gives back the identical list |
| NumSetText.ParsedMembers | internal/imapnum/numset.go:316-326 | the members of a parsed set are those of its items read one by one |
| ListMatch.MatchName | internal/listmatch.go:58-120 | true exactly when the name can be cut so that literals take themselves, a run with "*" anything and a "%" run no delimiter; at most 2 len(name) + 1 rounds for any pattern |
| ListMatch.WildRow | internal/listmatch.go:87-112 | the running OR, restarted where a delimiter ends, is the row of prefixes the wildcard can stretch to |
| ListMatch.LiteralRow | internal/listmatch.go:81-86 | the row of prefixes after one literal byte |
| ListMatch.ReachIsMatches | internal/listmatch.go:58-120 | reachability one token at a time is the existence of a cut of the whole name |
| ListMatch.TokenBound | internal/listmatch.go:50-57 | a pattern has at most one more than twice as many steps as literal bytes |
| ListMatch.CollapseSound | internal/listmatch.go:88-94 | with a delimiter of at most one byte, collapsing runs changes no answer |
| ListMatch.CollapseExact | internal/listmatch.go:88-94 | collapsing changes no answer for any pattern and name if and only if the delimiter has at most one byte |
| ListMatch.WideDelimiter | internal/listmatch.go:99-107 | for every longer delimiter "%%" against the delimiter itself tells the two apart |
| ListMatch.MatchReference | internal/listmatch.go:10-31 | the cases spelled out: a pattern that starts with the delimiter is matched without it, whatever the reference; with an empty reference the pattern is matched against the whole name; otherwise a name is listed exactly when it is the reference, followed by a delimiter unless it ends in one or there is none, followed by a match |
| ListMatch.WildcardsMean | internal/listmatch.go:45-48 | 0x2A matches every name, 0x25 exactly the names in which the delimiter does not stand between two texts, and a pattern without either exactly itself |
| UIDMapping.Mapping.Add | uidmapping.go:36-48 | a pair of UIDs becomes exactly one more pair at the end of the expansion, in at most one more range |
| UIDMapping.Cardinality | uidmapping.go:71-82 | the number of pairs, or 0 when a range is malformed or there are more pairs than UIDs |
| UIDMapping.All | uidmapping.go:52-67 | yields the pairs in copying order up to where the caller stops, and none for a malformed mapping |
| UIDMapping.ValidCardinality | uidmapping.go:71-118 | a mapping that passes Validate has between 1 and 4294967295 pairs |
| UIDMapping.CheckSide | uidmapping.go:96-116 | comparing neighbours after sorting detects every repeated UID and nothing else |
| UIDMapping.Validate | uidmapping.go:86-118 | accepts exactly the non-empty mappings of well-formed ranges that repeat no UID on either side |
| UIDMapping.PairsZip | uidmapping.go:19-26 | the pairs of a mapping are its two sides' expansions zipped |
| UIDMappingWire.ParseOrderedUIDSet | internal/imapwire/uidmapping.go:53-71 | succeeds exactly when every comma-separated item is a non-zero number up to 4294967295, or two of these around a colon; the ranges expand to the UIDs the text lists, each pair from the lower to the higher bound |
| UIDMappingWire.ZipRanges | internal/imapwire/uidmapping.go:22-46 | the two-cursor loop succeeds exactly on expansions of equal length and pairs them off in at most len(src) + len(dst) - 1 ranges |
| UIDMappingWire.ParseUIDMapping | internal/imapwire/uidmapping.go:13-51 | succeeds exactly when both texts are lists of UIDs, list equally many and neither repeats one; the pairs are the UIDs the two texts list, zipped |
| UIDMappingWire.TextLists | internal/imapwire/uidmapping.go:53-71 | the meaning of a list of UIDs read off its bytes: which texts are accepted and which UIDs they list, reversed ranges included |
| UIDMappingWire.CompressedExpands | internal/imapwire/uidmapping.go:73-110 | running adjacent ranges together keeps the order and the UIDs of a side |
| UIDMappingWire.CompressedApart | internal/imapwire/uidmapping.go:80-106 | afterwards no range starts right after the one before it ends |
| UIDMappingWire.RangePrinted | internal/imapwire/uidmapping.go:75-110 | a range is printed as one number, or as two around a colon, the lower first |
| UIDMappingWire.PrintSide | internal/imapwire/uidmapping.go:80-106 | the loop with its held-back range prints the compressed side |
| UIDMappingWire.PrintUIDMapping | internal/imapwire/uidmapping.go:75-110 | both compressed sides, separated by a space |
| UIDMappingWire.PrintedDescribes | internal/imapwire/uidmapping.go:13-110 | the printed text of a valid mapping splits at its only space into two texts that describe the same pairs |
| UIDMappingWire.PrintParse | internal/imapwire/uidmapping.go:13-110 | printing a valid mapping and parsing it gives a valid mapping with the same ordered pairs |
| Utf8.DecodeEncoded | internal/utf7/decoder.go:115-115 | a written rune is read back whatever follows it |
| Utf8.FixedIffValid | internal/utf7/decoder.go:17-19 | writing the runes read from a string gives the string back if and only if it is valid UTF-8 |
| Utf8.EncodingIs | internal/utf7/decoder.go:115-115 | the leading byte tells the length, 1 to 4 by the bounds of section 3 of RFC 3629, and each later byte holds six bits, the highest first |
| Base64.DecodeEncoded | internal/utf7/utf7.go:13-13 | unpadded base64 is decoded to the bytes that were encoded, for all three remainders |
| Base64.StdDecodePadded | internal/utf7/decoder.go:82-97 | padding the text (with a NUL after "==" at length 1 mod 4) and decoding it is decoding without padding |
| Base64.AlphabetIs | internal/utf7/utf7.go:13-13 | value 0 to 63 is the letter at that place of A-Z, a-z, 0-9, "+" and "," |
| Base64.QuantumBits | internal/utf7/encoder.go:59-66 | the letters of one to three bytes, read as base-64 digits, are the number the bytes make in base 256, shifted by the padding bits |
| Base64.DequantumBits | internal/utf7/decoder.go:93-97 | and back: the bytes of two to four letters are the leading bits of the number the letters make |
| Utf7.Encode | internal/utf7/encoder.go:10-38 | printable characters as they are, "&" as "&-", each maximal other run as one shifted segment |
| Utf7.EncodedFirst | internal/utf7/encoder.go:17-23 | a byte from 0x20 to 0x7E is written as itself, 0x26 as 0x26 0x2D |
| Utf7.EncodedOutside | internal/utf7/encoder.go:24-34 | a maximal run of bytes outside 0x20 to 0x7E becomes 0x26, the base64 of its UTF-16, 0x2D, as a whole |
| Utf7.SelfEncoded | internal/utf7/encoder.go:10-38 | text of bytes 0x20 to 0x7E without 0x26 is its own encoding |
| Utf7.EncodeRun | internal/utf7/encoder.go:42-72 | UTF-16 with surrogate pairs, base64, padding stripped, shifts at both ends |
| Utf7.Decode | internal/utf7/decoder.go:16-71 | the index loop with its mode flag is the round-by-round decoder, errors included |
| Utf7.DecodedFirst | internal/utf7/decoder.go:25-68 | other bytes are copied, "&-" is "&", and "&t-" is read exactly if t is a segment and no segment ended right before it |
| Utf7.SelfDecoded | internal/utf7/decoder.go:28-38 | text without controls and "&", raw UTF-8 included, is its own decoding |
| Utf7.ControlsRefused | internal/utf7/decoder.go:28-32 | no accepted text has a byte below 0x20 or 0x7F |
| Utf7.UnendedRefused | internal/utf7/decoder.go:48-50 | a shift without "-" is refused |
| Utf7.NullShiftRefused | internal/utf7/decoder.go:56-58 | a segment right after a segment is refused |
| Utf7.DecodeSegment | internal/utf7/decoder.go:75-118 | padded base64 to UTF-16 to UTF-8; odd lengths, lone surrogates and printable characters are refused |
| Utf7.SegmentExact | internal/utf7/decoder.go:99-117 | base64 of the UTF-16 of some runes stands for these runes if none is in 0x20 to 0x7E and is refused otherwise, and nothing else is accepted |
| Utf7.FromUtf16Exact | internal/utf7/decoder.go:99-117 | bytes are read as runes exactly when they are the UTF-16 of these runes and none is in 0x20 to 0x7E |
| Utf7.UnitsMean | internal/utf7/encoder.go:52-56 | UTF-16 is big endian, with the surrogate pair of RFC 2781 above 0xFFFF |
| Utf7.Utf16Inverse | internal/utf7/encoder.go:46-57 | the UTF-16 of runes that need shifting is read back rune by rune |
| Utf7.EncodedPrintable | internal/utf7/encoder.go:10-72 | the encoder only writes printable ASCII |
| Utf7.RoundTrip | internal/utf7/decoder.go:16-118 | decoding what was encoded gives the runes of any byte string, with U+FFFD for bytes that are part of none |
| Utf7.RoundTripIffValid | internal/utf7/decoder.go:16-118 | a string survives encoding and decoding if and only if it is valid UTF-8 |
| Utf7.DecodedValid | internal/utf7/decoder.go:16-71 | whatever the decoder accepts, its answer is valid UTF-8 |
| StringWire.Encoder.IsValidQuoted | internal/imapwire/encoder.go:138-157 | true exactly for up to 4096 bytes without NUL, CR and LF, and without non-ASCII bytes unless UTF-8 is allowed |
| StringWire.Encoder.Quoted | internal/imapwire/encoder.go:87-100 | writes the string in quotes with each quote and backslash escaped, unless an error is set |
| StringWire.Encoder.StringLiteral | internal/imapwire/encoder.go:159-178 | fails exactly when the literal has to be announced and is not asked for; otherwise writes size, mark and data |
| StringWire.Encoder.String | internal/imapwire/encoder.go:102-108 | quoted where possible, otherwise a literal |
| StringWire.QuotableText | internal/imapwire/encoder.go:138-157 | what may stand between quotes: at most 4096 bytes, no 0x00, 0x0A and 0x0D, none above 0x7F without UTF-8 |
| StringWire.EscapedFirst | internal/imapwire/encoder.go:87-100 | 0x22 and 0x5C are written after 0x5C, every other byte as it is |
| StringWire.LiteralForm | internal/imapwire/encoder.go:159-178 | the bytes of a literal; "+" exactly where a client may send without waiting (LITERAL+, or LITERAL- up to 4096 bytes), and the exact condition for being stuck |
| StringWire.Quoted | internal/imapwire/decoder.go:544-567 | reads up to the closing quote undoing escapes, fails on the end of the input, leaves anything else in place |
| StringWire.QuotedFirst | internal/imapwire/decoder.go:544-567 | 0x22 ends the string, 0x5C takes the byte after it whatever it is, every other byte stands for itself |
| StringWire.CRLF | internal/imapwire/decoder.go:244-252 | accepts CRLF, a lone LF, and either after a space |
| StringWire.LineEnds | internal/imapwire/decoder.go:244-252 | exactly four line ends are accepted: LF, CR LF, and each after one space |
| StringWire.LiteralReader | internal/imapwire/decoder.go:861-908 | reads the announcement; a malformed size, a size above 1 GiB or a missing line end is an error, anything but "{" is left in place |
| StringWire.HeaderParts | internal/imapwire/decoder.go:861-908 | any accepted announcement is digits for a size up to 1 GiB, "+" only where a server reads, "}" and a line end |
| StringWire.Literal | internal/imapwire/decoder.go:826-859 | gives exactly the announced bytes, which do not count against the read budget, or fails when the hooks or the 4 MiB limit refuse them or the input ends |
| StringWire.DefaultLimit | internal/imapwire/decoder.go:826-859 | without hooks exactly the literals of up to 4 MiB are buffered; with both hooks, exactly those both admit |
| StringWire.Func | internal/imapwire/decoder.go:258-278 | the longest non-empty run of accepted bytes that some other byte follows |
| StringWire.ExpectAString | internal/imapwire/decoder.go:620-630 | quoted, literal or bare, by the first byte; any failure sets the error |
| StringWire.BareChars | internal/imapwire/decoder.go:19-31 | the bytes of a bare string, range by range |
| StringWire.StringRoundTrip | internal/imapwire/encoder.go:87-178 | a written string is read back by the other side up to exactly its end, whatever follows, if and only if it was quoted or the receiver admits the literal |
| StringWire.LiteralRoundTrip | internal/imapwire/decoder.go:826-908 | a literal is read back also where its data reach past the read budget |
| StringWire.AfterAll | internal/imapwire/decoder.go:826-859 | with nothing past the budget, exactly what followed the string is ahead |
| MailboxWire.WriteMailbox | internal/imapwire/encoder.go:180-193 | INBOX in any case as an atom, other names as modified UTF-7 or verbatim; fails exactly when the literal form is needed and stuck |
| MailboxWire.ExpectMailbox | internal/imapwire/decoder.go:730-758 | the name the string stands for, with errors for a malformed string or name |
| MailboxWire.InboxSpelling | internal/imapwire/decoder.go:735-738 | no other name is spelled like INBOX on the wire |
| MailboxWire.InboxLetters | internal/imapwire/decoder.go:735-738 | INBOX is exactly its five letters, each in either case |
| MailboxWire.PlainNames | internal/imapwire/encoder.go:180-193 | INBOX is written as the five capitals in any case; a name of other bytes 0x20 to 0x7E without "&", quote and backslash is written in quotes as it is |
| MailboxWire.MailboxRoundTrip | internal/imapwire/decoder.go:730-758 | with the same UTF-8 setting on both sides, the name comes back and the decoder stops at the byte after it, for the atom, quoted and literal form alike; an inadmissible literal fails |
| MailboxWire.ShortNameArrives | internal/imapwire/encoder.go:138-193 | in modified UTF-7 a name is quoted exactly when its encoding has at most 4096 bytes, and then no receiver refuses it |
| MailboxWire.CanonicalValid | internal/imapwire/encoder.go:180-193 | the name that comes back is the name sent, for every valid UTF-8 name, with INBOX in capitals |
| MailboxWire.Transfer | internal/imapwire/encoder.go:180-193 | encoder and decoder objects composed, with or without a read budget: the exact condition for success, and the name received |
| Threads.NormalizeKeeps | imapserver/thread.go:119-135 | normalising keeps the messages, their pre-order and each one's nearest ancestor |
| Threads.NormalizeNormal | imapserver/thread.go:119-135 | no node of the result is empty and none has exactly one sub-thread |
| Threads.FailsIffEmpty | imapserver/thread.go:119-135 | normalising fails exactly on trees without messages |
| Threads.NormalFixed | imapserver/thread.go:119-135 | a thread in normal form is left as it is |
| Threads.Idempotent | imapserver/thread.go:119-135 | normalising twice is normalising once |
| ThreadWire.WriteThreadData | imapserver/thread.go:137-152 | numbers separated by spaces, a space only between numbers and sub-threads, sub-threads back to back |
| ThreadWire.ThreadLinked | imapserver/thread.go:137-152 | a written list runs from "(" to ")"; neighbouring bytes show that numbers are one space apart, so are the last number and a sub-list, and that there is no other space |
| ThreadWire.WriteThread | imapserver/thread.go:88-117 | the normalised threads that hold a message, after one space, and the line end |
| ThreadWire.ReadThreadList | imapclient/thread.go:64-80 | the recursive callback reads exactly the lists of the grammar function, keeps the nesting count, and fails otherwise |
| ThreadWire.NumberAfterList | imapclient/thread.go:64-80 | a number after a sub-list is an error |
| ThreadWire.ReadListItems | internal/imapwire/decoder.go:679-707 | items until the closing parenthesis, each separated as SP allows |
| ThreadWire.HandleThread | imapclient/thread.go:39-51 | lists for as long as a separator is found; a malformed list is an error, an input that ends where a separator is due is left on the decoder |
| ThreadWire.ReadText | imapclient/thread.go:64-80 | a written thread inside d others is read back as it was, whatever follows, if and only if it nests less than 1000 - d deep |
| ThreadWire.ForestRoundTrip | imapserver/thread.go:88-152 | a written forest is read back up to the end of the line if and only if it nests at most 999 deep; a deeper one is an error |
| ThreadWire.WriteRead | imapclient/thread.go:39-80 | writer and reader composed: the client gets exactly the normalised threads |
| Wire.Decoder.ReadByte | internal/imapwire/decoder.go:137-162 | the next byte, unless an error is set, the input has ended or more than MaxSize bytes have been read; each failure sets the error and consumes nothing |
| Wire.Decoder.AcceptByte | internal/imapwire/decoder.go:164-173 | consumes the byte exactly if it is the one wanted; sets the error exactly at the end of the input or of the read budget |
| Wire.Decoder.SP | internal/imapwire/decoder.go:220-238 | a space not before the line end, or nothing before a list |
| Wire.Separator | internal/imapwire/decoder.go:220-238 | which inputs start with a separator, byte by byte, and when the input ends in the middle of one |
| Wire.Decoder.NumberStr | internal/imapwire/decoder.go:434-450 | the digits ahead up to the first other byte, which stays |
| Wire.Decoder.ReadNum | internal/imapwire/decoder.go:452-463 | the value of the digits ahead if it fits; digits that do not fit are consumed without an error |
| Wire.ReadFormatted | internal/imapwire/encoder.go:238-240 | a printed number is read back up to the first byte that is no digit |
| FetchBuffer.Shared.Acquire | imapclient/fetch.go:1203-1229 | one round under the mutex takes the bytes exactly if they fit, so the limit is kept; otherwise takes nothing and gives an open channel to wait on, the shared one if there is one |
| FetchBuffer.Shared.GiveBack | imapclient/fetch.go:1231-1239 | the bytes are back and every channel made so far is closed, so everybody who waits is woken |
| FetchBuffer.NextKeeps | imapclient/fetch.go:753-836 | each step of reader and consumers keeps the accounting and the reason for waiting |
| FetchBuffer.Conserved | imapclient/fetch.go:753-836 | in every run the counter is the bytes the reader still answers for plus those of messages whose release is still set, between 0 and the limit; while the client is open, somebody has each of these messages |
| FetchBuffer.NeverWaitsOnItself | imapclient/fetch.go:1203-1229 | once every message has given its bytes back, a reservation that passed the per-response check succeeds |
| FetchBuffer.WaitingIsJustified | imapclient/fetch.go:1203-1239 | a reader waiting on an open channel cannot be served, some message holds bytes, and unless the client is closed each such message can be read to its end, which wakes the reader |
| FetchBuffer.ReleasedOnce | imapclient/fetch.go:407-419 | in every run at most one step gives back the bytes of a message: its release runs once however often and by whomever its end is found, and never as well as the deferred clean-up of the reader |
| FetchBuffer.OnlyGivenBack | imapclient/fetch.go:753-760 | the counter only goes down by such a step, and by exactly the bytes held |
| Shutdown.Conn.SetIdle | imapserver/conn.go:284-292 | waiting begins exactly if no request is there, and a connection that waits and has been asked stays woken |
| Shutdown.Conn.SetActive | imapserver/conn.go:298-303 | waiting is over, and the input counts exactly if no request came meanwhile |
| Shutdown.Conn.RequestShutdown | imapserver/conn.go:312-322 | the request is recorded; a waiting connection is woken and no other deadline is touched |
| Shutdown.NextKeeps | imapserver/server.go:353-374 | each step of the server and of every connection keeps the invariant below |
| Shutdown.GracefulInRun | imapserver/conn.go:284-468 | in every run: an idle connection that has been asked has an expired deadline, at most one command completes after the request, and after Shutdown's critical section every registered connection has been asked |
| Shutdown.ClosedForGood | imapserver/server.go:353-374 | once closed, the registered connections only get fewer |
| Shutdown.FinishesSoon | imapserver/conn.go:324-503 | in every run a connection that has been asked is out of its loop after at most ten more steps of its own, not counting interrupted reads |
| Shutdown.AskedFinishes | imapserver/conn.go:421-468 | each step of an asked connection brings it closer to the end and starts no further command |

## Left out

- NumSetOps.AppendRange: requires the range not to end at 4294967295, because the source's loop has no exit there (see NumSetOps.RangeLoopEnds).
- NumSetOps.Nums: the same bound on every range.
- Tracker.MailboxTracker.QueueUpdate: the kind of an update is a datatype, where the source leaves the other fields zero; a source is only given with a FETCH update, as in the public methods.
- Tracker.MailboxTracker.QueueExpunge: requires a UID other than 0 to be the message's, as its documentation demands; the UIDs are a ghost function of the messages.
- Tracker.SessionTracker.Poll: a write that fails is not modelled; the batch is already off the queue and the connection is lost. The client's view is a ghost field.
- UIDMapping.All: a caller that leaves the loop early is modelled by the number of pairs it wants.
- UIDMapping.CheckSide: sorts a value instead of a scratch slice in place.
- NumSet.InsertRange: works on list values; slice capacity and aliasing are not modelled.
- StringWire.Literal: a refused literal only sets the error; the octets DiscardLine skips afterwards are not tracked.
- StringWire.Encoder.StringLiteral: I/O errors of the writer, and a literal left open by another caller, are not modelled; the outcome of a continuation request is a parameter.
- ThreadWire.WriteThread: the response starts after the word THREAD.
- Shutdown.GracefulInRun: real time, TLS, and what happens after a connection has left its loop are not modelled; a deadline is armed or expired.
- FetchBuffer.Conserved: the contents of the items of a response are not modelled, nor the order in which a consumer reads them.
- `Mailbox.expungeLocked` and `MailboxView.staticNumSet` of imapmemserver use the tracker and the number sets in ways outside the contracts above; they are not modelled.
- Fetch item, envelope and body structure parsing, search criteria, capability, ACL, metadata, quota, namespace and status code are not modelled.
- Networking, TLS, SASL, timeouts as real time, logging, MIME, dates and charsets are not modelled.

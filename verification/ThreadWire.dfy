/** THREAD responses: written by the server (imapserver/thread.go), read by the
    client (imapclient/thread.go). */
module ThreadWire {
  import opened Prelude
  import opened Text
  import opened Threads
  import opened Wire

  // ---------------------------------------------------------------------
  // Writing
  // ---------------------------------------------------------------------

  ghost function ChainText(chain: seq<uint32>): bytes {
    if chain == [] then []
    else if |chain| == 1 then FormatUint(chain[0])
    else FormatUint(chain[0]) + [SPACE] + ChainText(chain[1..])
  }

  ghost function ThreadText(t: Thread): bytes
    decreases t, 1
  {
    var gap := if t.subs != [] && t.chain != [] then [SPACE] else [];
    [LPAREN] + ChainText(t.chain) + gap + ThreadsText(t.subs) + [RPAREN]
  }

  /** The lists back to back. */
  ghost function ThreadsText(ts: seq<Thread>): bytes
    decreases ts, 0
  {
    if ts == [] then [] else ThreadText(ts[0]) + ThreadsText(ts[1..])
  }

  method WriteThreadData(out0: bytes, t: Thread) returns (out: bytes)
    ensures out == out0 + ThreadText(t)
    decreases t, 1
  {
    out := WriteChain(out0 + [LPAREN], t.chain);
    if |t.subs| > 0 && |t.chain| > 0 {
      out := out + [SPACE];
    }
    out := WriteThreads(out, t.subs);
    out := out + [RPAREN];
  }

  method WriteThreads(out0: bytes, ts: seq<Thread>) returns (out: bytes)
    ensures out == out0 + ThreadsText(ts)
    decreases ts, 0
  {
    out := out0;
    for i := 0 to |ts|
      invariant out + ThreadsText(ts[i..]) == out0 + ThreadsText(ts)
    {
      assert ts[i..][0] == ts[i] && ts[i..][1..] == ts[i + 1..];
      out := WriteThreadData(out, ts[i]);
    }
  }

  method WriteChain(out0: bytes, chain: seq<uint32>) returns (out: bytes)
    ensures out == out0 + ChainText(chain)
  {
    out := out0;
    for i := 0 to |chain|
      invariant out + (if 0 < i < |chain| then [SPACE] else []) + ChainText(chain[i..]) == out0 + ChainText(chain)
    {
      if i > 0 {
        out := out + [SPACE];
      }
      ChainTextStep(chain, i);
      out := out + FormatUint(chain[i]);
    }
  }

  lemma ChainTextStep(chain: seq<uint32>, i: nat)
    requires i < |chain|
    ensures ChainText(chain[i..]) ==
            FormatUint(chain[i]) + (if i + 1 < |chain| then [SPACE] else []) + ChainText(chain[i + 1..])
  {
    assert chain[i..][0] == chain[i] && chain[i..][1..] == chain[i + 1..];
  }

  /** What follows "* THREAD": one space, then the lists that hold a message. */
  ghost function ForestText(ts: seq<Thread>): bytes {
    (if ts == [] then [] else [SPACE]) + ThreadsText(ts)
  }

  method WriteThread(data: seq<Thread>) returns (out: bytes)
    ensures out == ForestText(NormalizeAll(data)) + [CR, LF]
  {
    var lists := [];
    for i := 0 to |data|
      invariant lists == NormalizeAll(data[..i])
    {
      assert data[..i + 1][..i] == data[..i];
      var t := Normalize(data[i]);
      if t.Some? {
        lists := lists + [t.value];
      }
    }
    assert data[..|data|] == data;
    out := if |lists| > 0 then [SPACE] else [];
    out := WriteThreads(out, lists);
    out := out + [CR, LF];
  }

  // ---------------------------------------------------------------------
  // Reading
  // ---------------------------------------------------------------------

  const MAX_LIST_DEPTH: nat := 1000

  /** One thread-list read inside `depth` others, and what follows it. None:
      the decoder reports an error. */
  ghost function ReadThread(rest: bytes, depth: nat): (r: Option<(Thread, bytes)>)
    ensures r.Some? ==> |r.value.1| < |rest|
    decreases |rest|, 0
  {
    if rest == [] || rest[0] != LPAREN then None
    else if |rest| > 1 && rest[1] == RPAREN then Some((Thread([], []), rest[1..][1..]))
    else if depth + 1 >= MAX_LIST_DEPTH then None
    else ReadItems(rest[1..], depth + 1, [], [])
  }

  /** The items of a list, up to and including its closing parenthesis. */
  ghost function ReadItems(rest: bytes, depth: nat, chain: seq<uint32>, subs: seq<Thread>): (r: Option<(Thread, bytes)>)
    ensures r.Some? ==> |r.value.1| < |rest|
    decreases |rest|, 2
  {
    var item := ReadItem(rest, depth, chain, subs);
    if item.None? then None
    else
      var (t, more) := item.value;
      if more == [] then None
      else if more[0] == RPAREN then Some((t, more[1..]))
      else
        var sp := ReadSP(more);
        if sp.Space? then ReadItems(sp.rest, depth, t.chain, t.subs) else None
  }

  /** One more item: a number while there is no sub-list yet, else a sub-list.
      Gives the list so far with it, and what follows. */
  ghost function ReadItem(rest: bytes, depth: nat, chain: seq<uint32>, subs: seq<Thread>): (r: Option<(Thread, bytes)>)
    ensures r.Some? ==> |r.value.1| < |rest|
    decreases |rest|, 1
  {
    var num := if subs == [] then ReadNumber(rest, MAX_UINT32) else NoNumber(rest);
    match num
    case Number(v, more) => Some((Thread(chain + [v], subs), more))
    case NoNumber(more) =>
      var sub := ReadThread(more, depth);
      if sub.None? then None else Some((Thread(chain, subs + [sub.value.0]), sub.value.1))
    case NumberEOF => None
  }

  /** Reads one thread-list off the decoder. */
  method ReadThreadList(dec: Decoder) returns (t: Thread, ok: bool)
    requires dec.Valid() && !dec.err
    modifies dec
    ensures dec.Valid() && dec.listDepth == old(dec.listDepth)
    ensures ok <==> ReadThread(old(dec.Rest()), old(dec.listDepth)).Some?
    ensures ok ==> !dec.err && (t, dec.Rest()) == ReadThread(old(dec.Rest()), old(dec.listDepth)).value
    decreases |dec.Rest()|, 0
  {
    t := Thread([], []);
    ok := dec.AcceptByte(LPAREN);
    if !ok {
      return;
    }
    var empty := dec.AcceptByte(RPAREN);
    if empty {
      return;
    }
    dec.listDepth := dec.listDepth + 1;
    if dec.listDepth >= MAX_LIST_DEPTH || dec.err {
      dec.listDepth := dec.listDepth - 1;
      return t, false;
    }
    t, ok := ReadListItems(dec);
    dec.listDepth := dec.listDepth - 1;
  }

  /** The loop of Decoder.List with the callback of readThreadList. */
  method ReadListItems(dec: Decoder) returns (t: Thread, ok: bool)
    requires dec.Valid() && !dec.err
    modifies dec
    ensures dec.Valid() && dec.listDepth == old(dec.listDepth)
    ensures ok <==> ReadItems(old(dec.Rest()), dec.listDepth, [], []).Some?
    ensures ok ==> !dec.err && (t, dec.Rest()) == ReadItems(old(dec.Rest()), dec.listDepth, [], []).value
    decreases |dec.Rest()|, 2
  {
    t := Thread([], []);
    ghost var total := ReadItems(dec.Rest(), dec.listDepth, [], []);
    while true
      invariant dec.Valid() && !dec.err && dec.listDepth == old(dec.listDepth)
      invariant ReadItems(dec.Rest(), dec.listDepth, t.chain, t.subs) == total
      decreases |dec.Rest()|
    {
      t, ok := ReadListItem(dec, t);
      if !ok {
        return;
      }
      var closed := dec.AcceptByte(RPAREN);
      if closed {
        return;
      }
      if dec.err {
        return t, false;
      }
      ok := dec.SP();
      if !ok {
        return;
      }
    }
  }

  method ReadListItem(dec: Decoder, t0: Thread) returns (t: Thread, ok: bool)
    requires dec.Valid() && !dec.err
    modifies dec
    ensures dec.Valid() && dec.listDepth == old(dec.listDepth)
    ensures ok <==> ReadItem(old(dec.Rest()), dec.listDepth, t0.chain, t0.subs).Some?
    ensures ok ==> !dec.err && (t, dec.Rest()) == ReadItem(old(dec.Rest()), dec.listDepth, t0.chain, t0.subs).value
    decreases |dec.Rest()|, 1
  {
    t, ok := t0, false;
    if |t.subs| == 0 {
      var v, isNumber := dec.ReadNum(MAX_UINT32);
      if isNumber {
        return Thread(t.chain + [v], t.subs), true;
      }
      if dec.err {
        return;
      }
    }
    var sub;
    sub, ok := ReadThreadList(dec);
    if ok {
      t := Thread(t.chain, t.subs + [sub]);
    }
  }

  // ---------------------------------------------------------------------
  // Round trip
  // ---------------------------------------------------------------------

  /** How deep the non-empty lists of a thread nest. */
  ghost function Depth(t: Thread): nat
    decreases t, 1
  {
    if t.chain == [] && t.subs == [] then 0 else 1 + DepthAll(t.subs)
  }

  ghost function DepthAll(ts: seq<Thread>): nat
    decreases ts, 0
  {
    if ts == [] then 0 else Max(Depth(ts[0]), DepthAll(ts[1..]))
  }

  lemma ThreadTextStarts(t: Thread)
    ensures ThreadText(t) != [] && ThreadText(t)[0] == LPAREN
  {
  }

  lemma ThreadsTextStarts(ts: seq<Thread>)
    requires ts != []
    ensures ThreadsText(ts) != [] && ThreadsText(ts)[0] == LPAREN
  {
    ThreadTextStarts(ts[0]);
  }

  lemma ChainTextStarts(chain: seq<uint32>)
    requires chain != []
    ensures ChainText(chain) != [] && IsDigit(ChainText(chain)[0])
  {
  }

  /** An item followed by a space and another one. */
  lemma ItemThenSpace(text: bytes, d: nat, chain: seq<uint32>, subs: seq<Thread>, t: Thread, next: bytes)
    requires ReadItem(text, d, chain, subs) == Some((t, [SPACE] + next))
    requires next != [] && next[0] != CR && next[0] != LF
    ensures ReadItems(text, d, chain, subs) == ReadItems(next, d, t.chain, t.subs)
  {
    assert ([SPACE] + next)[1..] == next;
  }

  /** An item followed by a sub-list without a space. */
  lemma ItemThenList(text: bytes, d: nat, chain: seq<uint32>, subs: seq<Thread>, t: Thread, next: bytes)
    requires ReadItem(text, d, chain, subs) == Some((t, next)) && next != [] && next[0] == LPAREN
    ensures ReadItems(text, d, chain, subs) == ReadItems(next, d, t.chain, t.subs)
  {
  }

  /** The last item. */
  lemma ItemThenEnd(text: bytes, d: nat, chain: seq<uint32>, subs: seq<Thread>, t: Thread, rest: bytes)
    requires ReadItem(text, d, chain, subs) == Some((t, [RPAREN] + rest))
    ensures ReadItems(text, d, chain, subs) == Some((t, rest))
  {
    assert ([RPAREN] + rest)[1..] == rest;
  }

  lemma NumberItem(n: uint32, after: bytes, d: nat, chain: seq<uint32>)
    requires after != [] && !IsDigit(after[0])
    ensures ReadItem(FormatUint(n) + after, d, chain, []) == Some((Thread(chain + [n], []), after))
  {
    ReadFormatted(n, MAX_UINT32, after);
  }

  lemma ConsAppend<T>(have: seq<T>, s: seq<T>)
    requires s != []
    ensures have + [s[0]] + s[1..] == have + s
  {
  }

  lemma ChainFirst(chain: seq<uint32>, tail: bytes)
    requires |chain| > 1
    ensures ChainText(chain) + tail == FormatUint(chain[0]) + ([SPACE] + (ChainText(chain[1..]) + tail))
  {
    AppendFour(FormatUint(chain[0]), [SPACE], ChainText(chain[1..]), tail);
  }

  lemma AppendFour(a: bytes, b: bytes, c: bytes, d: bytes)
    ensures a + b + c + d == a + (b + (c + d))
  {
  }

  /** The numbers of a chain come off one by one: up to a sub-list, */
  lemma {:induction false} ChainThenList(have: seq<uint32>, chain: seq<uint32>, d: nat, next: bytes)
    requires chain != [] && next != [] && next[0] == LPAREN
    ensures ReadItems(ChainText(chain) + ([SPACE] + next), d, have, []) == ReadItems(next, d, have + chain, [])
    decreases |chain|
  {
    var text := ChainText(chain) + ([SPACE] + next);
    if |chain| > 1 {
      var more := ChainText(chain[1..]) + ([SPACE] + next);
      ChainTextStarts(chain[1..]);
      ChainFirst(chain, [SPACE] + next);
      NumberItem(chain[0], [SPACE] + more, d, have);
      ItemThenSpace(text, d, have, [], Thread(have + [chain[0]], []), more);
      ChainThenList(have + [chain[0]], chain[1..], d, next);
      ConsAppend(have, chain);
    } else {
      NumberItem(chain[0], [SPACE] + next, d, have);
      ItemThenSpace(text, d, have, [], Thread(have + [chain[0]], []), next);
      assert have + [chain[0]] == have + chain;
    }
  }

  /** and up to the end of the list. */
  lemma {:induction false} ChainThenEnd(have: seq<uint32>, chain: seq<uint32>, d: nat, rest: bytes)
    requires chain != []
    ensures ReadItems(ChainText(chain) + ([RPAREN] + rest), d, have, []) == Some((Thread(have + chain, []), rest))
    decreases |chain|
  {
    var text := ChainText(chain) + ([RPAREN] + rest);
    if |chain| > 1 {
      var more := ChainText(chain[1..]) + ([RPAREN] + rest);
      ChainTextStarts(chain[1..]);
      ChainFirst(chain, [RPAREN] + rest);
      NumberItem(chain[0], [SPACE] + more, d, have);
      ItemThenSpace(text, d, have, [], Thread(have + [chain[0]], []), more);
      ChainThenEnd(have + [chain[0]], chain[1..], d, rest);
      ConsAppend(have, chain);
    } else {
      NumberItem(chain[0], [RPAREN] + rest, d, have);
      ItemThenEnd(text, d, have, [], Thread(have + [chain[0]], []), rest);
      assert have + [chain[0]] == have + chain;
    }
  }

  /** The sub-lists and the end of the list. */
  ghost function SubsTail(subs: seq<Thread>, rest: bytes): (tail: bytes)
    ensures tail != [] && tail[0] == if subs == [] then RPAREN else LPAREN
  {
    if subs == [] then [RPAREN] + rest
    else ThreadsTextStarts(subs); ThreadsText(subs) + ([RPAREN] + rest)
  }

  lemma SubsFirst(subs: seq<Thread>, rest: bytes)
    requires subs != []
    ensures SubsTail(subs, rest) == ThreadText(subs[0]) + SubsTail(subs[1..], rest)
  {
  }

  /** So do the sub-lists, as long as none nests too deep. */
  lemma {:induction false} ItemsSubs(chain: seq<uint32>, have: seq<Thread>, subs: seq<Thread>, d: nat, rest: bytes)
    requires subs != [] && d < MAX_LIST_DEPTH
    ensures ReadItems(SubsTail(subs, rest), d, chain, have) ==
            if d + DepthAll(subs) < MAX_LIST_DEPTH then Some((Thread(chain, have + subs), rest)) else None
    decreases subs, 0
  {
    var text := SubsTail(subs, rest);
    var tail := SubsTail(subs[1..], rest);
    SubsFirst(subs, rest);
    ReadText(subs[0], d, tail);
    SubItem(subs[0], tail, d, chain, have);
    ConsAppend(have, subs);
    if d + Depth(subs[0]) < MAX_LIST_DEPTH {
      var t := Thread(chain, have + [subs[0]]);
      if |subs| == 1 {
        ItemThenEnd(text, d, chain, have, t, rest);
        assert have + [subs[0]] == have + subs;
      } else {
        ItemThenList(text, d, chain, have, t, tail);
        ItemsSubs(chain, have + [subs[0]], subs[1..], d, rest);
      }
    }
  }

  lemma SubItem(t: Thread, tail: bytes, d: nat, chain: seq<uint32>, have: seq<Thread>)
    ensures var r := ReadThread(ThreadText(t) + tail, d);
            ReadItem(ThreadText(t) + tail, d, chain, have) ==
            if r.None? then None else Some((Thread(chain, have + [r.value.0]), r.value.1))
  {
    ThreadTextStarts(t);
    assert ReadNumber(ThreadText(t) + tail, MAX_UINT32) == NoNumber(ThreadText(t) + tail);
  }

  /** Everything after the opening parenthesis. */
  ghost function Body(t: Thread, rest: bytes): bytes {
    if t.chain == [] then SubsTail(t.subs, rest)
    else if t.subs == [] then ChainText(t.chain) + ([RPAREN] + rest)
    else ChainText(t.chain) + ([SPACE] + SubsTail(t.subs, rest))
  }

  lemma ThreadTextBody(t: Thread, rest: bytes)
    ensures ThreadText(t) + rest == [LPAREN] + Body(t, rest)
  {
  }

  lemma BodyStarts(t: Thread, rest: bytes)
    ensures Body(t, rest) != []
    ensures Body(t, rest)[0] == RPAREN <==> t.chain == [] && t.subs == []
  {
    if t.chain != [] {
      ChainTextStarts(t.chain);
    }
  }

  lemma ReadOpen(body: bytes, d: nat)
    requires body != []
    ensures ReadThread([LPAREN] + body, d) ==
            if body[0] == RPAREN then Some((Thread([], []), body[1..]))
            else if d + 1 >= MAX_LIST_DEPTH then None
            else ReadItems(body, d + 1, [], [])
  {
    var text := [LPAREN] + body;
    assert text[1..] == body;
  }

  lemma {:induction false} BodyItems(t: Thread, d: nat, rest: bytes)
    requires t.chain != [] || t.subs != []
    requires d < MAX_LIST_DEPTH
    ensures ReadItems(Body(t, rest), d, [], []) ==
            if d + DepthAll(t.subs) < MAX_LIST_DEPTH then Some((t, rest)) else None
    decreases t, 0
  {
    assert [] + t.chain == t.chain && [] + t.subs == t.subs;
    if t.subs == [] {
      ChainThenEnd([], t.chain, d, rest);
    } else {
      ItemsSubs(t.chain, [], t.subs, d, rest);
      if t.chain != [] {
        ChainThenList([], t.chain, d, SubsTail(t.subs, rest));
      }
    }
  }

  /** A written thread is read back as it was, whatever follows it, exactly when
      it does not nest too deep. */
  lemma {:induction false} ReadText(t: Thread, d: nat, rest: bytes)
    requires d < MAX_LIST_DEPTH
    ensures ReadThread(ThreadText(t) + rest, d) ==
            if d + Depth(t) < MAX_LIST_DEPTH then Some((t, rest)) else None
    decreases t, 1
  {
    ThreadTextBody(t, rest);
    BodyStarts(t, rest);
    ReadOpen(Body(t, rest), d);
    if t.chain == [] && t.subs == [] {
      assert ([RPAREN] + rest)[1..] == rest;
    } else if d + 1 < MAX_LIST_DEPTH {
      BodyItems(t, d + 1, rest);
    }
  }

  // ---------------------------------------------------------------------
  // The text, byte by byte
  // ---------------------------------------------------------------------

  /** Which bytes may stand next to each other in section 4 of RFC 5256: numbers
      are one space apart, so are the last number and a sub-list, and there is no
      other space. */
  predicate Next(a: byte, b: byte) {
    || (0x30 <= a <= 0x39 && (0x30 <= b <= 0x39 || b == 0x20 || b == 0x29))
    || (a == 0x20 && (0x30 <= b <= 0x39 || b == 0x28))
    || (a == 0x28 && (0x30 <= b <= 0x39 || b == 0x28 || b == 0x29))
    || (a == 0x29 && (b == 0x28 || b == 0x29))
  }

  ghost predicate Linked(s: bytes) {
    forall i, j :: 0 <= i && i + 1 == j < |s| ==> Next(s[i], s[j])
  }

  lemma LinkedAppend(a: bytes, b: bytes)
    requires Linked(a) && Linked(b) && (a != [] && b != [] ==> Next(a[|a| - 1], b[0]))
    ensures Linked(a + b)
  {
    forall i, j | 0 <= i && i + 1 == j < |a + b| ensures Next((a + b)[i], (a + b)[j]) {
      if i >= |a| {
        assert Next(b[i - |a|], b[j - |a|]);
      } else if j < |a| {
        assert Next(a[i], a[j]);
      }
    }
  }

  lemma DigitsLinked(n: uint32)
    ensures Linked(FormatUint(n)) && forall c <- FormatUint(n) :: 0x30 <= c <= 0x39
  {
    var s := FormatUint(n);
    assert forall i :: 0 <= i < |s| ==> s[i] in s && IsDigit(s[i]);
  }

  lemma {:induction false} ChainLinked(chain: seq<uint32>)
    requires chain != []
    ensures var s := ChainText(chain);
            Linked(s) && s != [] && 0x30 <= s[0] <= 0x39 && 0x30 <= s[|s| - 1] <= 0x39
    decreases |chain|
  {
    var n := FormatUint(chain[0]);
    DigitsLinked(chain[0]);
    assert n[0] in n && n[|n| - 1] in n;
    if |chain| > 1 {
      ChainLinked(chain[1..]);
      LinkedAppend(n, [SPACE]);
      LinkedAppend(n + [SPACE], ChainText(chain[1..]));
    }
  }

  ghost predicate Enclosed(s: bytes) {
    Linked(s) && s != [] && s[0] == 0x28 && s[|s| - 1] == 0x29
  }

  /** A written list runs from "(" to ")" and is spaced that way. */
  lemma {:induction false} ThreadLinked(t: Thread)
    ensures Enclosed(ThreadText(t))
    decreases t, 1
  {
    if t.subs != [] {
      ThreadsLinked(t.subs);
    }
    if t.chain != [] {
      ChainLinked(t.chain);
    }
    Wrapped(ChainText(t.chain), ThreadsText(t.subs));
  }

  lemma Wrapped(numbers: bytes, lists: bytes)
    requires numbers == [] || (Linked(numbers) && 0x30 <= numbers[0] <= 0x39
                               && 0x30 <= numbers[|numbers| - 1] <= 0x39)
    requires lists == [] || Enclosed(lists)
    ensures var gap: bytes := if lists != [] && numbers != [] then [0x20] else [];
            Enclosed([0x28] + numbers + gap + lists + [0x29])
  {
    var gap: bytes := if lists != [] && numbers != [] then [0x20] else [];
    LinkedAppend([0x28], numbers);
    LinkedAppend([0x28] + numbers, gap);
    LinkedAppend([0x28] + numbers + gap, lists);
    LinkedAppend([0x28] + numbers + gap + lists, [0x29]);
  }

  lemma {:induction false} ThreadsLinked(ts: seq<Thread>)
    requires ts != []
    ensures Enclosed(ThreadsText(ts))
    decreases ts, 0
  {
    ThreadLinked(ts[0]);
    if |ts| > 1 {
      ThreadsLinked(ts[1..]);
      LinkedAppend(ThreadText(ts[0]), ThreadsText(ts[1..]));
    } else {
      assert ThreadText(ts[0]) + [] == ThreadText(ts[0]);
    }
  }

  /** After the first sub-list a number is an error. */
  lemma NumberAfterList(rest: bytes, depth: nat, chain: seq<uint32>, subs: seq<Thread>)
    requires subs != [] && rest != [] && 0x30 <= rest[0] <= 0x39
    ensures ReadItems(rest, depth, chain, subs).None?
  {
    assert ReadThread(rest, depth).None?;
    assert ReadItem(rest, depth, chain, subs).None?;
  }

  // ---------------------------------------------------------------------
  // Whole responses
  // ---------------------------------------------------------------------

  /** What handleThread finds: the lists and what follows them; the lists before
      the input ended where a separator was due, which only the decoder knows; or
      a malformed list, which is an error of its own. */
  datatype Forest = Forest(data: seq<Thread>, rest: bytes) | ForestEOF(data: seq<Thread>) | BadThread

  /** Lists for as long as a separator is found. */
  ghost function ReadForest(rest: bytes, have: seq<Thread>): Forest
    decreases |rest|
  {
    match ReadSP(rest)
    case SpaceEOF => ForestEOF(have)
    case NoSpace(more) => Forest(have, more)
    case Space(more) =>
      var t := ReadThread(more, 0);
      if t.None? then BadThread else ReadForest(t.value.1, have + [t.value.0])
  }

  method HandleThread(dec: Decoder) returns (data: seq<Thread>, ok: bool)
    requires dec.Valid() && !dec.err && dec.listDepth == 0
    modifies dec
    ensures dec.Valid()
    ensures var r := ReadForest(old(dec.Rest()), []);
            && (ok <==> !r.BadThread?)
            && (ok ==> data == r.data && (dec.err <==> r.ForestEOF?))
            && (r.Forest? ==> dec.Rest() == r.rest)
  {
    data := [];
    ghost var total := ReadForest(dec.Rest(), []);
    while true
      invariant dec.Valid() && !dec.err && dec.listDepth == 0
      invariant ReadForest(dec.Rest(), data) == total
      decreases |dec.Rest()|
    {
      ok := dec.SP();
      if !ok {
        return data, true;
      }
      var t;
      t, ok := ReadThreadList(dec);
      if !ok {
        return;
      }
      data := data + [t];
    }
  }

  lemma ForestFirst(t: Thread, tail: bytes, have: seq<Thread>)
    ensures var text := ThreadText(t) + tail;
            var r := ReadThread(text, 0);
            ReadForest(text, have) == if r.None? then BadThread else ReadForest(r.value.1, have + [r.value.0])
  {
    ThreadTextStarts(t);
    assert ReadSP(ThreadText(t) + tail) == Space(ThreadText(t) + tail);
  }

  lemma ThreadsFirst(ts: seq<Thread>, rest: bytes)
    requires ts != []
    ensures ThreadsText(ts) + rest == ThreadText(ts[0]) + (ThreadsText(ts[1..]) + rest)
  {
  }

  lemma {:induction false} ReadThreads(have: seq<Thread>, ts: seq<Thread>, rest: bytes)
    requires rest != [] && rest[0] == CR
    ensures ReadForest(ThreadsText(ts) + rest, have) ==
            if DepthAll(ts) < MAX_LIST_DEPTH then Forest(have + ts, rest) else BadThread
    decreases |ts|
  {
    var text := ThreadsText(ts) + rest;
    if ts == [] {
      assert text == rest && have + ts == have;
    } else {
      var tail := ThreadsText(ts[1..]) + rest;
      ThreadsFirst(ts, rest);
      ForestFirst(ts[0], tail, have);
      ReadText(ts[0], 0, tail);
      if Depth(ts[0]) < MAX_LIST_DEPTH {
        ReadThreads(have + [ts[0]], ts[1..], rest);
        ConsAppend(have, ts);
      }
    }
  }

  /** The space before a list may be left out. */
  lemma SpaceOptional(text: bytes, have: seq<Thread>)
    requires text != [] && text[0] == LPAREN
    ensures ReadForest([SPACE] + text, have) == ReadForest(text, have)
  {
    assert ReadSP(text) == Space(text);
    assert ([SPACE] + text)[1..] == text;
    assert ReadSP([SPACE] + text) == Space(text);
  }

  /** Any forest, normalised or not, that nests at most 999 deep survives being
      written and read, up to the end of the line; a deeper one is an error. */
  lemma ForestRoundTrip(ts: seq<Thread>, rest: bytes)
    requires rest != [] && rest[0] == CR
    ensures ReadForest(ForestText(ts) + rest, []) ==
            if DepthAll(ts) <= 999 then Forest(ts, rest) else BadThread
  {
    if ts == [] {
      assert ForestText(ts) + rest == rest;
    } else {
      var text := ThreadsText(ts) + rest;
      assert ForestText(ts) + rest == [SPACE] + text;
      ThreadsTextStarts(ts);
      SpaceOptional(text, []);
      ReadThreads([], ts, rest);
      assert [] + ts == ts;
    }
  }

  /** What the server writes is what the client gets: the normalised threads. */
  method WriteRead(data: seq<Thread>) returns (back: seq<Thread>, ok: bool)
    ensures ok <==> DepthAll(NormalizeAll(data)) <= 999
    ensures ok ==> back == NormalizeAll(data)
  {
    var text := WriteThread(data);
    var dec := new Decoder(text, 0);
    ForestRoundTrip(NormalizeAll(data), [CR, LF]);
    assert dec.Rest() == text;
    back, ok := HandleThread(dec);
  }
}

/** Translating sequence numbers between the client's and the server's view. */
module TrackerNumbers {
  import opened Prelude
  import opened TrackerView

  /** The sequence number of message x in a view, or zero. */
  ghost function Position(msgs: seq<nat>, x: nat): (n: nat)
    ensures n <= |msgs|
    ensures n != 0 ==> msgs[n - 1] == x
    ensures n == 0 <==> x !in msgs
  {
    if msgs == [] then 0
    else if msgs[|msgs| - 1] == x then |msgs|
    else Position(msgs[..|msgs| - 1], x)
  }

  /** What sequence number n names in a view. Numbers past the end name the
      messages that will arrive next. */
  ghost function Named(v: View, n: nat): nat
    requires n > 0
  {
    if n <= |v.msgs| then v.msgs[n - 1] else v.arrived + (n - 1 - |v.msgs|)
  }

  /** A session's count and queue agree: from what the client has been told
      (`c`) the queue leads to a mailbox of `count` messages. */
  ghost predicate Consistent(c: View, queue: seq<Update>, count: uint32) {
    Sound(c) && LegalAll(c, queue) && |Replay(c, queue).msgs| == count
  }

  lemma PositionUnique(msgs: seq<nat>, n: nat)
    requires Ascending(msgs) && 1 <= n <= |msgs|
    ensures Position(msgs, msgs[n - 1]) == n
  {
  }

  /** One queued update, seen from a number that does not name an expunged
      message. */
  lemma NamedStep(v: View, u: Update, n: nat)
    requires Sound(v) && Legal(v, u) && n > 0
    ensures !u.Expunge? ==> Named(Apply(v, u), n) == Named(v, n)
    ensures u.Expunge? && n < u.expunge ==> Named(Apply(v, u), n) == Named(v, n)
    ensures u.Expunge? && n > u.expunge ==> Named(Apply(v, u), n - 1) == Named(v, n)
    ensures u.Expunge? && n == u.expunge ==> Named(v, n) < v.arrived && Named(v, n) !in Apply(v, u).msgs
  {
    if u.Expunge? {
      RemoveAscending(v.msgs, u.expunge - 1);
    }
  }

  /** After i updates, message x has number cur. */
  ghost predicate Follows(c: View, queue: seq<Update>, i: nat, cur: nat, x: nat) {
    && i <= |queue| && cur > 0
    && LegalAll(c, queue[..i]) && Sound(Replay(c, queue[..i])) && Named(Replay(c, queue[..i]), cur) == x
  }

  lemma FollowsNext(c: View, queue: seq<Update>, i: nat, cur: nat, x: nat)
    requires LegalAll(c, queue) && i < |queue| && Follows(c, queue, i, cur, x)
    ensures var u := queue[i];
            if u.Expunge? && u.expunge == cur then Position(Replay(c, queue).msgs, x) == 0
            else Follows(c, queue, i + 1, if u.Expunge? && u.expunge < cur then cur - 1 else cur, x)
  {
    var v := Replay(c, queue[..i]);
    ReplayAt(c, queue, i);
    ApplySound(v, queue[i]);
    NamedStep(v, queue[i], cur);
    if queue[i].Expunge? && queue[i].expunge == cur {
      ReplayAt(c, queue, i + 1);
      GoneForGood(Apply(v, queue[i]), queue[i + 1..], x);
    }
  }

  /** Client number to server number, oldest update first: zero exactly when the
      server no longer (or not yet) has the message the number names. */
  method Decode(queue: seq<Update>, count: uint32, n: uint32, ghost c: View) returns (r: uint32)
    requires Consistent(c, queue, count)
    ensures n == 0 ==> r == 0
    ensures n != 0 ==> r == Position(Replay(c, queue).msgs, Named(c, n))
  {
    if n == 0 {
      return 0;
    }
    var cur: nat := n;
    ghost var x := Named(c, n);
    for i := 0 to |queue|
      invariant cur <= n && Follows(c, queue, i, cur, x)
    {
      FollowsNext(c, queue, i, cur, x);
      if queue[i].Expunge? {
        if cur == queue[i].expunge {
          return 0;
        } else if cur > queue[i].expunge {
          cur := cur - 1;
        }
      }
    }
    assert queue[..|queue|] == queue;
    ghost var s := Replay(c, queue);
    if cur > count {
      NotArrived(s, x);
      return 0;
    }
    PositionUnique(s.msgs, cur);
    r := cur;
  }

  /** Undoing an update: where message n of the later view was before. */
  lemma NamedBack(v: View, u: Update, n: nat)
    requires Sound(v) && Legal(v, u) && 1 <= n <= |Apply(v, u).msgs|
    ensures u.Exists? && n > u.prevNumMessages ==> Apply(v, u).msgs[n - 1] >= v.arrived
    ensures u.Exists? && n <= u.prevNumMessages ==> n <= |v.msgs| && v.msgs[n - 1] == Apply(v, u).msgs[n - 1]
    ensures u.Expunge? ==> var m := if n >= u.expunge then n + 1 else n;
                           m <= |v.msgs| && v.msgs[m - 1] == Apply(v, u).msgs[n - 1]
    ensures u.Exists? ==> |Apply(v, u).msgs| == u.numMessages
  {
    if u.Expunge? {
      RemoveAscending(v.msgs, u.expunge - 1);
    }
  }

  /** Before update i, message x stood at number cur. */
  ghost predicate Stood(c: View, queue: seq<Update>, i: nat, cur: nat, x: nat) {
    && i <= |queue| && LegalAll(c, queue[..i])
    && 1 <= cur <= |Replay(c, queue[..i]).msgs| <= MAX_UINT32 && Replay(c, queue[..i]).msgs[cur - 1] == x
  }

  lemma StoodBefore(c: View, queue: seq<Update>, i: nat, cur: nat, x: nat)
    requires Sound(c) && LegalAll(c, queue) && i < |queue| && Stood(c, queue, i + 1, cur, x)
    ensures var u := queue[i];
            if u.Exists? && u.prevNumMessages < cur <= u.numMessages then Position(c.msgs, x) == 0
            else Stood(c, queue, i, if u.Expunge? && cur >= u.expunge then cur + 1 else cur, x)
  {
    ReplayAt(c, queue, i);
    ReplaySound(c, queue[..i]);
    NamedBack(Replay(c, queue[..i]), queue[i], cur);
    if queue[i].Exists? && queue[i].prevNumMessages < cur <= queue[i].numMessages {
      NotArrived(c, x);
    }
  }

  /** Server number to client number, newest update first: zero exactly when
      the client has not been told of the message. */
  method Encode(queue: seq<Update>, count: uint32, n: uint32, ghost c: View) returns (r: uint32)
    requires Consistent(c, queue, count)
    ensures n == 0 || n > count ==> r == 0
    ensures 1 <= n <= count ==> r == Position(c.msgs, Replay(c, queue).msgs[n - 1])
  {
    if n == 0 || n > count {
      return 0;
    }
    var cur: nat := n;
    ghost var x := Replay(c, queue).msgs[n - 1];
    assert queue[..|queue|] == queue;
    for i := |queue| downto 0
      invariant Stood(c, queue, i, cur, x)
    {
      StoodBefore(c, queue, i, cur, x);
      if queue[i].Exists? && cur > queue[i].prevNumMessages && cur <= queue[i].numMessages {
        return 0;
      }
      if queue[i].Expunge? && cur >= queue[i].expunge {
        cur := cur + 1;
      }
    }
    assert queue[..0] == [];
    PositionUnique(c.msgs, cur);
    r := cur;
  }

  /** The largest number the client can name: the length of its view. */
  method EncodeNum(queue: seq<Update>, count: uint32, ghost c: View) returns (n: uint32)
    requires Consistent(c, queue, count)
    ensures n == |c.msgs|
  {
    n := count;
    assert queue[..|queue|] == queue;
    for i := |queue| downto 0
      invariant LegalAll(c, queue[..i])
      invariant n == |Replay(c, queue[..i]).msgs|
    {
      ReplayAt(c, queue, i);
      ReplaySound(c, queue[..i]);
      if queue[i].Exists? {
        n := queue[i].prevNumMessages;
      }
      if queue[i].Expunge? {
        n := n + 1;
      }
    }
    assert queue[..0] == [];
  }

  // ---------------------------------------------------------------------
  // The two maps together
  // ---------------------------------------------------------------------

  ghost function Decoded(c: View, s: View, n: nat): nat {
    if n == 0 then 0 else Position(s.msgs, Named(c, n))
  }

  ghost function Encoded(c: View, s: View, n: nat): nat {
    if n == 0 || n > |s.msgs| then 0 else Position(c.msgs, s.msgs[n - 1])
  }

  /** Encoding and decoding undo each other wherever they are not zero, on the
      numbers the client can name. */
  lemma MutuallyInverse(c: View, queue: seq<Update>, n: nat)
    requires Sound(c) && LegalAll(c, queue)
    ensures var s := Replay(c, queue);
            && (Encoded(c, s, n) != 0 ==> Encoded(c, s, n) <= |c.msgs| && Decoded(c, s, Encoded(c, s, n)) == n)
            && (n <= |c.msgs| && Decoded(c, s, n) != 0 ==> Encoded(c, s, Decoded(c, s, n)) == n)
  {
    var s := Replay(c, queue);
    ReplaySound(c, queue);
    if Encoded(c, s, n) != 0 {
      EncodeThenDecode(c, s, n);
    }
    if n <= |c.msgs| && Decoded(c, s, n) != 0 {
      DecodeThenEncode(c, s, n);
    }
  }

  lemma EncodeThenDecode(c: View, s: View, n: nat)
    requires Sound(c) && Sound(s) && Encoded(c, s, n) != 0
    ensures Encoded(c, s, n) <= |c.msgs| && Decoded(c, s, Encoded(c, s, n)) == n
  {
    PositionUnique(s.msgs, n);
  }

  lemma DecodeThenEncode(c: View, s: View, n: nat)
    requires Sound(c) && Sound(s) && n <= |c.msgs| && Decoded(c, s, n) != 0
    ensures Encoded(c, s, Decoded(c, s, n)) == n
  {
    PositionUnique(c.msgs, n);
  }

  /** A number past the client's view decodes to a message it has not been told
      of, or to zero: encoding never gives such a number back. */
  lemma BeyondView(c: View, queue: seq<Update>, n: nat)
    requires Sound(c) && LegalAll(c, queue) && n > |c.msgs|
    ensures var s := Replay(c, queue);
            Decoded(c, s, n) != 0 ==> Encoded(c, s, Decoded(c, s, n)) == 0
  {
    NotArrived(c, Named(c, n));
  }

  /** Both maps keep the order of messages. */
  lemma OrderPreserving(c: View, queue: seq<Update>, m: nat, n: nat)
    requires Sound(c) && LegalAll(c, queue) && m < n
    ensures var s := Replay(c, queue);
            && (Encoded(c, s, m) != 0 && Encoded(c, s, n) != 0 ==> Encoded(c, s, m) < Encoded(c, s, n))
            && (Decoded(c, s, m) != 0 && Decoded(c, s, n) != 0 ==> Decoded(c, s, m) < Decoded(c, s, n))
  {
    var s := Replay(c, queue);
    ReplaySound(c, queue);
    if 0 < m && n <= |s.msgs| {
      OrderedPositions(c.msgs, s.msgs[m - 1], s.msgs[n - 1]);
    }
    if 0 < m {
      NamedAscending(c, m, n);
      OrderedPositions(s.msgs, Named(c, m), Named(c, n));
    }
  }

  lemma NamedAscending(v: View, m: nat, n: nat)
    requires Sound(v) && 0 < m < n
    ensures Named(v, m) < Named(v, n)
  {
  }

  lemma OrderedPositions(msgs: seq<nat>, x: nat, y: nat)
    requires Ascending(msgs) && x < y
    ensures Position(msgs, x) != 0 && Position(msgs, y) != 0 ==> Position(msgs, x) < Position(msgs, y)
  {
    if Position(msgs, x) != 0 && Position(msgs, y) != 0 {
      AscendingPositions(msgs, Position(msgs, y), Position(msgs, x));
    }
  }

  lemma AscendingPositions(msgs: seq<nat>, a: nat, b: nat)
    requires Ascending(msgs) && 1 <= a <= |msgs| && 1 <= b <= |msgs|
    ensures a <= b ==> msgs[a - 1] <= msgs[b - 1]
  {
  }

  /** The messages a client has not been told of are the last ones of the
      server's view. */
  lemma UnannouncedSuffix(c: View, queue: seq<Update>, m: nat, n: nat)
    requires Sound(c) && LegalAll(c, queue)
    requires var s := Replay(c, queue); 1 <= m <= n <= |s.msgs| && Encoded(c, s, m) == 0
    ensures Encoded(c, Replay(c, queue), n) == 0
  {
    var s := Replay(c, queue);
    ReplaySound(c, queue);
    var x, y := s.msgs[m - 1], s.msgs[n - 1];
    AscendingPositions(s.msgs, m, n);
    if x < c.arrived {
      GoneForGood(c, queue, x);
      assert false;
    }
    NotArrived(c, y);
  }
}

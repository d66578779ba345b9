/** Writing a batch of updates to the client, with expunges coalesced into
    VANISHED responses for QRESYNC sessions. */
module TrackerDelivery {
  import opened Prelude
  import opened TrackerView
  import NumSet

  type UIDSet = seq<NumSet.Range>

  datatype Response =
    | RespExpunge(seqNum: uint32)
    | RespExists(num: uint32)
    | RespFlags(mailboxFlags: Flags)
    | RespFetch(seqNum: uint32, uid: uint32, flags: Flags, modSeq: nat)
    | RespVanished(uids: UIDSet)

  // ---------------------------------------------------------------------
  // The client
  // ---------------------------------------------------------------------

  /** No two messages share a UID. */
  ghost predicate UniqueUIDs(uid: nat -> nat) {
    forall a, b :: uid(a) == uid(b) ==> a == b
  }

  ghost function Denoted(uids: UIDSet): iset<nat> {
    iset q: nat | NumSet.Member(uids, q)
  }

  /** The messages whose UID is not in the set. */
  ghost function Without(msgs: seq<nat>, gone: iset<nat>, uid: nat -> nat): seq<nat> {
    if msgs == [] then
      []
    else
      var n := |msgs| - 1;
      if uid(msgs[n]) in gone then Without(msgs[..n], gone, uid)
      else Without(msgs[..n], gone, uid) + [msgs[n]]
  }

  /** What a response does to the client's view. */
  ghost function Receive(v: View, r: Response, uid: nat -> nat): View {
    match r
    case RespExpunge(n) => if 1 <= n <= |v.msgs| then View(Remove(v.msgs, n - 1), v.arrived) else v
    case RespExists(n) =>
      if |v.msgs| <= n then View(v.msgs + Arrivals(v.arrived, n - |v.msgs|), v.arrived + (n - |v.msgs|)) else v
    case RespFlags(_) => v
    case RespFetch(_, _, _, _) => v
    case RespVanished(gone) => View(Without(v.msgs, Denoted(gone), uid), v.arrived)
  }

  ghost function ReceiveAll(v: View, rs: seq<Response>, uid: nat -> nat): View {
    if rs == [] then v else Receive(ReceiveAll(v, rs[..|rs| - 1], uid), rs[|rs| - 1], uid)
  }

  lemma ReceiveSnoc(v: View, rs: seq<Response>, r: Response, uid: nat -> nat)
    ensures ReceiveAll(v, rs + [r], uid) == Receive(ReceiveAll(v, rs, uid), r, uid)
  {
    assert (rs + [r])[..|rs|] == rs;
  }

  // ---------------------------------------------------------------------
  // What the client is told about flags
  // ---------------------------------------------------------------------

  /** What has been said about a message. */
  datatype Note = Note(uid: uint32, flags: Flags, modSeq: nat)

  /** The mailbox's flags, and what was last said about each message. */
  datatype Known = Known(mailbox: Option<Flags>, messages: map<nat, Note>)

  /** What the client learns from a response: a FETCH is about the message its
      number has in the client's view. */
  ghost function Learn(k: Known, v: View, r: Response): Known {
    if r.RespFlags? then k.(mailbox := Some(r.mailboxFlags))
    else if r.RespFetch? && 1 <= r.seqNum <= |v.msgs|
    then k.(messages := k.messages[v.msgs[r.seqNum - 1] := Note(r.uid, r.flags, r.modSeq)])
    else k
  }

  ghost function LearnAll(k: Known, v: View, rs: seq<Response>, uid: nat -> nat): Known {
    if rs == [] then k
    else
      var n := |rs| - 1;
      Learn(LearnAll(k, v, rs[..n], uid), ReceiveAll(v, rs[..n], uid), rs[n])
  }

  /** What the server means by an update: a FETCH is about the message its number
      has in the server's view. */
  ghost function Intend(k: Known, v: View, u: Update): Known {
    if u.MailboxFlags? then k.(mailbox := Some(u.mailboxFlags))
    else if u.Fetch? && 1 <= u.seqNum <= |v.msgs|
    then k.(messages := k.messages[v.msgs[u.seqNum - 1] := Note(u.uid, u.flags, u.modSeq)])
    else k
  }

  lemma LearnSnoc(k: Known, v: View, rs: seq<Response>, r: Response, uid: nat -> nat)
    ensures LearnAll(k, v, rs + [r], uid) == Learn(LearnAll(k, v, rs, uid), ReceiveAll(v, rs, uid), r)
  {
    assert (rs + [r])[..|rs|] == rs;
  }

  /** The contract of QueueExpunge: a non-zero UID is the expunged message's. */
  ghost predicate Truthful(v: View, u: Update, uid: nat -> nat)
    requires Legal(v, u)
  {
    u.Expunge? && u.expungeUID != 0 ==> uid(v.msgs[u.expunge - 1]) == u.expungeUID
  }

  ghost predicate TruthfulAll(v: View, us: seq<Update>, uid: nat -> nat)
    requires LegalAll(v, us)
    decreases |us|
  {
    us == [] || (Truthful(v, us[0], uid) && TruthfulAll(Apply(v, us[0]), us[1..], uid))
  }

  lemma {:induction false} TruthfulAt(v: View, us: seq<Update>, uid: nat -> nat, i: nat)
    requires LegalAll(v, us) && TruthfulAll(v, us, uid) && i < |us|
    ensures LegalAll(v, us[..i]) && Legal(Replay(v, us[..i]), us[i])
    ensures Truthful(Replay(v, us[..i]), us[i], uid)
    decreases |us|
  {
    ReplayAt(v, us, i);
    if i > 0 {
      TruthfulAt(Apply(v, us[0]), us[1..], uid, i - 1);
      assert us[..i][0] == us[0] && us[..i][1..] == us[1..][..i - 1];
    }
  }

  // ---------------------------------------------------------------------
  // Sets of vanished UIDs
  // ---------------------------------------------------------------------

  ghost function One(u: uint32): NumSet.Range {
    NumSet.Range(u, u)
  }

  lemma {:induction false} WithoutNone(msgs: seq<nat>, uid: nat -> nat)
    ensures Without(msgs, iset{}, uid) == msgs
  {
    if msgs != [] {
      WithoutNone(msgs[..|msgs| - 1], uid);
    }
  }

  lemma {:induction false} WithoutKeeps(msgs: seq<nat>, gone: iset<nat>, uid: nat -> nat)
    ensures forall x :: x in Without(msgs, gone, uid) ==> x in msgs
  {
    if msgs != [] {
      WithoutKeeps(msgs[..|msgs| - 1], gone, uid);
    }
  }

  /** Adding a UID nobody in the view has changes nothing. */
  lemma {:induction false} WithoutSame(msgs: seq<nat>, gone: iset<nat>, u: nat, uid: nat -> nat)
    requires forall x :: x in msgs ==> uid(x) != u
    ensures Without(msgs, gone + iset{u}, uid) == Without(msgs, gone, uid)
  {
    if msgs != [] {
      WithoutSame(msgs[..|msgs| - 1], gone, u, uid);
    }
  }

  /** Adding the UID of message n of what remains removes just that message. */
  lemma {:induction false} WithoutOneMore(msgs: seq<nat>, gone: iset<nat>, uid: nat -> nat, n: nat)
    requires Ascending(msgs) && UniqueUIDs(uid) && 1 <= n <= |Without(msgs, gone, uid)|
    ensures var left := Without(msgs, gone, uid);
            Without(msgs, gone + iset{uid(left[n - 1])}, uid) == Remove(left, n - 1)
  {
    var k := |msgs| - 1;
    var x := msgs[k];
    var m := Without(msgs[..k], gone, uid);
    if uid(x) in gone {
      WithoutOneMore(msgs[..k], gone, uid, n);
    } else if n == |m| + 1 {
      forall y | y in msgs[..k] ensures uid(y) != uid(x) {
      }
      WithoutSame(msgs[..k], gone, uid(x), uid);
    } else {
      WithoutKeeps(msgs[..k], gone, uid);
      assert m[n - 1] in msgs[..k];
      WithoutOneMore(msgs[..k], gone, uid, n);
      assert Remove(m + [x], n - 1) == Remove(m, n - 1) + [x];
    }
  }

  lemma DenotedNone()
    ensures Denoted([]) == iset{}
  {
  }

  lemma DenotedOneMore(gone: UIDSet, u: uint32)
    requires NumSet.Canonical(gone) && u != 0
    ensures NumSet.Canonical(NumSet.Inserted(gone, One(u)))
    ensures Denoted(NumSet.Inserted(gone, One(u))) == Denoted(gone) + iset{u}
  {
    var more := NumSet.Inserted(gone, One(u));
    forall q: nat ensures q in Denoted(more) <==> q in Denoted(gone) || q == u {
      NumSet.InsertedMembers(gone, One(u), q);
    }
    NumSet.InsertedCanonical(gone, One(u));
  }

  // ---------------------------------------------------------------------
  // Delivery
  // ---------------------------------------------------------------------

  /** The expunge is reported by UID. */
  predicate Coalesced(u: Update, qresync: bool) {
    u.Expunge? && qresync && u.expungeUID != 0
  }

  /** The response of its own an update gets otherwise. */
  function Image(u: Update): Response {
    match u
    case Expunge(n, _) => RespExpunge(n)
    case Exists(n, _) => RespExists(n)
    case MailboxFlags(flags) => RespFlags(flags)
    case Fetch(n, uid, flags, modSeq) => RespFetch(n, uid, flags, modSeq)
  }

  /** The response carries what the update says, field by field. */
  ghost predicate Says(r: Response, u: Update) {
    match u
    case Expunge(_, _) => r.RespExpunge? && r.seqNum == u.expunge
    case Exists(_, _) => r.RespExists? && r.num == u.numMessages
    case MailboxFlags(_) => r.RespFlags? && r.mailboxFlags == u.mailboxFlags
    case Fetch(_, _, _, _) =>
      r.RespFetch? && r.seqNum == u.seqNum && r.uid == u.uid && r.flags == u.flags && r.modSeq == u.modSeq
  }

  /** In the view it was made for, the response does and tells what the update
      means. */
  lemma ReceiveImage(v: View, u: Update, uid: nat -> nat, k: Known)
    requires Legal(v, u)
    ensures Says(Image(u), u)
    ensures Receive(v, Image(u), uid) == Apply(v, u)
    ensures Learn(k, v, Image(u)) == Intend(k, v, u)
  {
  }

  /** What poll works on: the updates taken off the queue, whether the session
      enabled QRESYNC, the client's view and what it knows, and the UIDs. */
  datatype Batch = Batch(updates: seq<Update>, qresync: bool, client: View, known: Known, uid: nat -> nat)

  ghost predicate BatchOK(b: Batch) {
    && Sound(b.client) && LegalAll(b.client, b.updates)
    && TruthfulAll(b.client, b.updates, b.uid) && UniqueUIDs(b.uid)
  }

  /** The view after the first i updates. */
  ghost function After(b: Batch, i: nat): View
    requires LegalAll(b.client, b.updates) && i <= |b.updates|
    ensures LegalAll(b.client, b.updates[..i])
  {
    ReplayAt(b.client, b.updates, i);
    Replay(b.client, b.updates[..i])
  }

  /** What the server means by the first i updates. */
  ghost function Intended(b: Batch, i: nat): Known
    requires LegalAll(b.client, b.updates) && i <= |b.updates|
  {
    if i == 0 then b.known else Intend(Intended(b, i - 1), After(b, i - 1), b.updates[i - 1])
  }

  lemma AfterNext(b: Batch, i: nat)
    requires BatchOK(b) && i < |b.updates|
    ensures Sound(After(b, i)) && Legal(After(b, i), b.updates[i]) && Truthful(After(b, i), b.updates[i], b.uid)
    ensures Sound(After(b, i + 1)) && After(b, i + 1) == Apply(After(b, i), b.updates[i])
  {
    ReplayAt(b.client, b.updates, i);
    TruthfulAt(b.client, b.updates, b.uid, i);
    ReplaySound(b.client, b.updates[..i]);
    ApplySound(After(b, i), b.updates[i]);
  }

  /** Response k of `out` belongs to update at[k], which is not reported by UID,
      and when the client reads it its view is the one that update was made for. */
  ghost predicate InStep(out: seq<Response>, at: seq<nat>, b: Batch)
    requires LegalAll(b.client, b.updates)
  {
    && |at| == |out|
    && forall k :: 0 <= k < |out| && !out[k].RespVanished? ==>
         && at[k] < |b.updates| && Says(out[k], b.updates[at[k]])
         && !Coalesced(b.updates[at[k]], b.qresync)
         && ReceiveAll(b.client, out[..k], b.uid) == After(b, at[k])
  }

  /** Each update has at most one response of its own, in queue order, and all
      of them are for the first n updates. */
  ghost predicate InOrder(out: seq<Response>, at: seq<nat>, n: nat)
    requires |at| == |out|
  {
    && (forall k :: 0 <= k < |out| && !out[k].RespVanished? ==> at[k] < n)
    && (forall j, k :: 0 <= j < k < |out| && !out[j].RespVanished? && !out[k].RespVanished? ==> at[j] < at[k])
  }

  /** The UIDs of the coalesced expunges. */
  ghost function ExpungedUIDs(b: Batch): iset<nat> {
    iset i | 0 <= i < |b.updates| && Coalesced(b.updates[i], b.qresync) :: b.updates[i].expungeUID as nat
  }

  /** VANISHED names no other UIDs. */
  ghost predicate OnlyExpunged(out: seq<Response>, b: Batch) {
    forall k :: 0 <= k < |out| && out[k].RespVanished? ==>
      Denoted(out[k].uids) != iset{} && Denoted(out[k].uids) <= ExpungedUIDs(b)
  }

  /** The UID is in some VANISHED, or in the pending one. */
  ghost predicate Vanishes(out: seq<Response>, held: UIDSet, u: nat) {
    u in Denoted(held) || exists k :: 0 <= k < |out| && out[k].RespVanished? && u in Denoted(out[k].uids)
  }

  ghost predicate HasOwn(out: seq<Response>, at: seq<nat>, i: nat)
    requires |at| == |out|
  {
    exists k :: 0 <= k < |out| && !out[k].RespVanished? && at[k] == i
  }

  /** Every update among the first n is reported: by its UID, or with a response
      of its own. */
  ghost predicate AllReported(out: seq<Response>, at: seq<nat>, held: UIDSet, b: Batch, n: nat)
    requires |at| == |out| && n <= |b.updates|
  {
    forall i :: 0 <= i < n ==>
      if Coalesced(b.updates[i], b.qresync) then Vanishes(out, held, b.updates[i].expungeUID) else HasOwn(out, at, i)
  }

  /** A run of expunges gives one VANISHED. */
  ghost predicate NoneAdjacent(out: seq<Response>) {
    forall k :: 0 < k < |out| ==> !out[k - 1].RespVanished? || !out[k].RespVanished?
  }

  ghost predicate LastOwn(out: seq<Response>) {
    out != [] ==> !out[|out| - 1].RespVanished?
  }

  /** The client is the pending VANISHED behind the updates handled so far. */
  ghost predicate Behind(c: View, out: seq<Response>, held: UIDSet, v: View, uid: nat -> nat) {
    var told := ReceiveAll(c, out, uid);
    && Sound(told) && NumSet.Canonical(held)
    && told.arrived == v.arrived && Without(told.msgs, Denoted(held), uid) == v.msgs
  }

  /** An expunge held back for the next VANISHED. */
  lemma BehindOneMore(c: View, out: seq<Response>, held: UIDSet, v: View, u: Update, uid: nat -> nat)
    requires UniqueUIDs(uid) && Behind(c, out, held, v, uid)
    requires u.Expunge? && u.expungeUID != 0 && Legal(v, u) && Truthful(v, u, uid)
    ensures Behind(c, out, NumSet.Inserted(held, One(u.expungeUID)), Apply(v, u), uid)
  {
    DenotedOneMore(held, u.expungeUID);
    WithoutOneMore(ReceiveAll(c, out, uid).msgs, Denoted(held), uid, u.expunge);
  }

  /** Nothing held back: the client has exactly the view. */
  lemma BehindNothing(c: View, out: seq<Response>, v: View, uid: nat -> nat)
    ensures Behind(c, out, [], v, uid) <==> Sound(v) && ReceiveAll(c, out, uid) == v
  {
    DenotedNone();
    WithoutNone(ReceiveAll(c, out, uid).msgs, uid);
  }

  /** The loop of poll after i updates: `held` is the pending VANISHED. */
  ghost predicate Delivering(i: nat, out: seq<Response>, at: seq<nat>, held: UIDSet, b: Batch) {
    && i <= |b.updates| && BatchOK(b)
    && Behind(b.client, out, held, After(b, i), b.uid)
    && LearnAll(b.known, b.client, out, b.uid) == Intended(b, i)
    && InStep(out, at, b) && InOrder(out, at, i) && AllReported(out, at, held, b, i)
    && OnlyExpunged(out, b) && Denoted(held) <= ExpungedUIDs(b) && NoneAdjacent(out)
  }

  // ---------------------------------------------------------------------
  // One more response
  // ---------------------------------------------------------------------

  lemma InStepGrows(out: seq<Response>, at: seq<nat>, r: Response, i: nat, b: Batch)
    requires LegalAll(b.client, b.updates) && InStep(out, at, b)
    requires !r.RespVanished? ==>
               && i < |b.updates| && Says(r, b.updates[i]) && !Coalesced(b.updates[i], b.qresync)
               && ReceiveAll(b.client, out, b.uid) == After(b, i)
    ensures InStep(out + [r], at + [i], b)
  {
    forall k | 0 <= k <= |out| ensures (out + [r])[..k] == out[..k] {
    }
    assert out[..|out|] == out;
  }

  lemma VanishesGrows(out: seq<Response>, held: UIDSet, r: Response, u: nat)
    requires Vanishes(out, held, u)
    ensures Vanishes(out + [r], held, u)
    ensures r == RespVanished(held) ==> Vanishes(out + [r], [], u)
  {
    if u in Denoted(held) {
      assert (out + [r])[|out|] == r;
    } else {
      var k :| 0 <= k < |out| && out[k].RespVanished? && u in Denoted(out[k].uids);
      assert (out + [r])[k] == out[k];
    }
  }

  lemma HasOwnGrows(out: seq<Response>, at: seq<nat>, r: Response, j: nat, i: nat)
    requires |at| == |out| && HasOwn(out, at, i)
    ensures HasOwn(out + [r], at + [j], i)
  {
    var k :| 0 <= k < |out| && !out[k].RespVanished? && at[k] == i;
    assert (out + [r])[k] == out[k] && (at + [j])[k] == at[k];
  }

  lemma FlushedReported(out: seq<Response>, at: seq<nat>, held: UIDSet, b: Batch, n: nat)
    requires |at| == |out| && n <= |b.updates| && AllReported(out, at, held, b, n)
    ensures AllReported(out + [RespVanished(held)], at + [n], [], b, n)
  {
    var r := RespVanished(held);
    forall i | 0 <= i < n
      ensures if Coalesced(b.updates[i], b.qresync) then Vanishes(out + [r], [], b.updates[i].expungeUID)
              else HasOwn(out + [r], at + [n], i)
    {
      if Coalesced(b.updates[i], b.qresync) {
        VanishesGrows(out, held, r, b.updates[i].expungeUID);
      } else {
        HasOwnGrows(out, at, r, n, i);
      }
    }
  }

  lemma OwnReported(out: seq<Response>, at: seq<nat>, b: Batch, n: nat, r: Response)
    requires |at| == |out| && n < |b.updates| && AllReported(out, at, [], b, n)
    requires !r.RespVanished? && !Coalesced(b.updates[n], b.qresync)
    ensures AllReported(out + [r], at + [n], [], b, n + 1)
  {
    forall i | 0 <= i < n
      ensures if Coalesced(b.updates[i], b.qresync) then Vanishes(out + [r], [], b.updates[i].expungeUID)
              else HasOwn(out + [r], at + [n], i)
    {
      if Coalesced(b.updates[i], b.qresync) {
        VanishesGrows(out, [], r, b.updates[i].expungeUID);
      } else {
        HasOwnGrows(out, at, r, n, i);
      }
    }
    assert (out + [r])[|out|] == r && (at + [n])[|out|] == n;
    assert HasOwn(out + [r], at + [n], n);
  }

  lemma HeldReported(out: seq<Response>, at: seq<nat>, held: UIDSet, more: UIDSet, b: Batch, n: nat)
    requires |at| == |out| && n < |b.updates| && AllReported(out, at, held, b, n)
    requires Coalesced(b.updates[n], b.qresync) && Denoted(more) == Denoted(held) + iset{b.updates[n].expungeUID as nat}
    ensures AllReported(out, at, more, b, n + 1)
  {
  }

  lemma FlushedOrder(out: seq<Response>, at: seq<nat>, held: UIDSet, n: nat, b: Batch)
    requires |at| == |out| && InOrder(out, at, n) && OnlyExpunged(out, b) && NoneAdjacent(out) && LastOwn(out)
    requires Denoted(held) != iset{} && Denoted(held) <= ExpungedUIDs(b)
    ensures var more := out + [RespVanished(held)];
            InOrder(more, at + [n], n) && OnlyExpunged(more, b) && NoneAdjacent(more)
  {
  }

  lemma OwnOrder(out: seq<Response>, at: seq<nat>, r: Response, n: nat, b: Batch)
    requires |at| == |out| && InOrder(out, at, n) && OnlyExpunged(out, b) && NoneAdjacent(out) && !r.RespVanished?
    ensures var more := out + [r];
            InOrder(more, at + [n], n + 1) && OnlyExpunged(more, b) && NoneAdjacent(more) && LastOwn(more)
  {
  }

  // ---------------------------------------------------------------------
  // The loop
  // ---------------------------------------------------------------------

  ghost function Pending(held: UIDSet): seq<Response> {
    if held == [] then [] else [RespVanished(held)]
  }

  /** The responses to the updates when `held` is already pending. */
  ghost function Written(updates: seq<Update>, held: UIDSet, qresync: bool): seq<Response>
    requires NumSet.Canonical(held)
    decreases |updates|
  {
    if updates == [] then Pending(held)
    else if Coalesced(updates[0], qresync) then
      DenotedOneMore(held, updates[0].expungeUID);
      Written(updates[1..], NumSet.Inserted(held, One(updates[0].expungeUID)), qresync)
    else Pending(held) + [Image(updates[0])] + Written(updates[1..], [], qresync)
  }

  lemma WrittenNext(updates: seq<Update>, i: nat, held: UIDSet, qresync: bool)
    requires NumSet.Canonical(held) && i < |updates|
    ensures !Coalesced(updates[i], qresync) ==>
              Written(updates[i..], held, qresync) ==
              Pending(held) + [Image(updates[i])] + Written(updates[i + 1..], [], qresync)
    ensures Coalesced(updates[i], qresync) ==>
              var more := NumSet.Inserted(held, One(updates[i].expungeUID));
              && NumSet.Canonical(more)
              && Written(updates[i..], held, qresync) == Written(updates[i + 1..], more, qresync)
  {
    assert updates[i..][1..] == updates[i + 1..];
    if Coalesced(updates[i], qresync) {
      DenotedOneMore(held, updates[i].expungeUID);
    }
  }

  lemma AppendAll(a: seq<Response>, b: seq<Response>, c: seq<Response>)
    ensures a + (b + c) == a + b + c
  {
  }

  lemma NothingBefore(a: seq<Response>)
    ensures [] + a == a
  {
  }

  /** The text so far and what is still to come stay the whole text. */
  lemma WrittenOwn(out: seq<Response>, updates: seq<Update>, i: nat, held: UIDSet, qresync: bool)
    requires NumSet.Canonical(held) && i < |updates| && !Coalesced(updates[i], qresync)
    ensures out + Written(updates[i..], held, qresync) ==
            out + Pending(held) + [Image(updates[i])] + Written(updates[i + 1..], [], qresync)
  {
    WrittenNext(updates, i, held, qresync);
    AppendAll(out, Pending(held) + [Image(updates[i])], Written(updates[i + 1..], [], qresync));
    AppendAll(out, Pending(held), [Image(updates[i])]);
  }

  /** The pending VANISHED is written. */
  lemma Flushed(out: seq<Response>, held: UIDSet, at: seq<nat>, i: nat, b: Batch)
    requires Delivering(i, out, at, held, b) && LastOwn(out) && held != []
    ensures Delivering(i, out + [RespVanished(held)], at + [i], [], b)
  {
    var r := RespVanished(held);
    HeldSomething(held);
    ReceiveSnoc(b.client, out, r, b.uid);
    LearnSnoc(b.known, b.client, out, r, b.uid);
    InStepGrows(out, at, r, i, b);
    FlushedReported(out, at, held, b, i);
    FlushedOrder(out, at, held, i, b);
    ReplaySound(b.client, b.updates[..i]);
    BehindNothing(b.client, out + [r], After(b, i), b.uid);
    DenotedNone();
  }

  method FlushVanished(out0: seq<Response>, held: UIDSet, ghost at0: seq<nat>, ghost i: nat, ghost b: Batch)
    returns (out: seq<Response>, ghost at: seq<nat>)
    requires Delivering(i, out0, at0, held, b) && LastOwn(out0)
    ensures Delivering(i, out, at, [], b) && ReceiveAll(b.client, out, b.uid) == After(b, i)
    ensures out == out0 + Pending(held)
  {
    out, at := out0, at0;
    if |held| > 0 {
      Flushed(out0, held, at0, i, b);
      out, at := out + [RespVanished(held)], at + [i];
    }
    BehindNothing(b.client, out, After(b, i), b.uid);
  }

  lemma HeldSomething(held: UIDSet)
    requires NumSet.Canonical(held) && held != []
    ensures Denoted(held) != iset{}
  {
    assert NumSet.Has(held[0], held[0].start);
    assert held[0].start as nat in Denoted(held);
  }

  method HoldBack(i: nat, ghost out: seq<Response>, ghost at: seq<nat>, held: UIDSet, u: Update, ghost b: Batch)
    returns (more: UIDSet)
    requires Delivering(i, out, at, held, b) && i < |b.updates| && u == b.updates[i] && Coalesced(u, b.qresync)
    ensures Delivering(i + 1, out, at, more, b)
    ensures more == NumSet.Inserted(held, One(u.expungeUID))
  {
    AfterNext(b, i);
    BehindOneMore(b.client, out, held, After(b, i), u, b.uid);
    DenotedOneMore(held, u.expungeUID);
    assert u.expungeUID as nat in ExpungedUIDs(b);
    more := NumSet.InsertRange(held, NumSet.Range(u.expungeUID, u.expungeUID));
    HeldReported(out, at, held, more, b, i);
  }

  /** An update written as a response of its own, after any pending VANISHED. */
  method WriteOwn(i: nat, out0: seq<Response>, ghost at0: seq<nat>, held: UIDSet, u: Update, ghost b: Batch)
    returns (out: seq<Response>, ghost at: seq<nat>)
    requires Delivering(i, out0, at0, held, b) && LastOwn(out0)
    requires i < |b.updates| && u == b.updates[i] && !Coalesced(u, b.qresync)
    ensures Delivering(i + 1, out, at, [], b) && LastOwn(out)
    ensures out == out0 + Pending(held) + [Image(u)]
  {
    out, at := FlushVanished(out0, held, at0, i, b);
    OwnWritten(i, out, at, u, b);
    out, at := out + [Image(u)], at + [i];
  }

  /** With nothing pending, the update's own response takes the client along. */
  lemma OwnWritten(i: nat, out: seq<Response>, at: seq<nat>, u: Update, b: Batch)
    requires Delivering(i, out, at, [], b)
    requires i < |b.updates| && u == b.updates[i] && !Coalesced(u, b.qresync)
    ensures Delivering(i + 1, out + [Image(u)], at + [i], [], b) && LastOwn(out + [Image(u)])
  {
    var r := Image(u);
    AfterNext(b, i);
    BehindNothing(b.client, out, After(b, i), b.uid);
    ReceiveSnoc(b.client, out, r, b.uid);
    LearnSnoc(b.known, b.client, out, r, b.uid);
    ReceiveImage(After(b, i), u, b.uid, Intended(b, i));
    InStepGrows(out, at, r, i, b);
    OwnReported(out, at, b, i, r);
    OwnOrder(out, at, r, i, b);
    BehindNothing(b.client, out + [r], After(b, i + 1), b.uid);
    DenotedNone();
  }

  lemma Starting(b: Batch)
    requires BatchOK(b)
    ensures Delivering(0, [], [], [], b) && After(b, 0) == b.client
  {
    assert b.updates[..0] == [];
    BehindNothing(b.client, [], b.client, b.uid);
    DenotedNone();
  }

  /** One round of the loop. */
  method DeliverOne(i: nat, out0: seq<Response>, ghost at0: seq<nat>, held0: UIDSet, u: Update, qresync: bool,
                    ghost b: Batch)
    returns (out: seq<Response>, ghost at: seq<nat>, held: UIDSet)
    requires Delivering(i, out0, at0, held0, b) && LastOwn(out0)
    requires i < |b.updates| && u == b.updates[i] && qresync == b.qresync
    ensures Delivering(i + 1, out, at, held, b) && LastOwn(out)
    ensures out + Written(b.updates[i + 1..], held, qresync) == out0 + Written(b.updates[i..], held0, qresync)
  {
    if u.Expunge? && qresync && u.expungeUID != 0 {
      WrittenNext(b.updates, i, held0, qresync);
      out, at := out0, at0;
      held := HoldBack(i, out, at, held0, u, b);
    } else {
      WrittenOwn(out0, b.updates, i, held0, qresync);
      out, at := WriteOwn(i, out0, at0, held0, u, b);
      held := [];
    }
  }

  /** All updates but the VANISHED that may be pending at the end. */
  method DeliverAll(updates: seq<Update>, qresync: bool, ghost b: Batch)
    returns (out: seq<Response>, ghost at: seq<nat>, vanished: UIDSet)
    requires BatchOK(b) && b.updates == updates && b.qresync == qresync
    ensures Delivering(|updates|, out, at, vanished, b) && LastOwn(out)
    ensures out + Pending(vanished) == Written(updates, [], qresync)
  {
    out, at, vanished := [], [], [];
    Starting(b);
    ghost var all := Written(updates, [], qresync);
    NothingBefore(all);
    assert updates[0..] == updates;
    for i := 0 to |updates|
      invariant Delivering(i, out, at, vanished, b) && LastOwn(out)
      invariant out + Written(updates[i..], vanished, qresync) == all
    {
      out, at, vanished := DeliverOne(i, out, at, vanished, updates[i], qresync, b);
    }
    assert updates[|updates|..] == [];
  }

  /** On a QRESYNC session every expunge with a UID is in a VANISHED, and only
      expunges without one are reported by number; elsewhere there is no VANISHED. */
  ghost predicate ByUID(out: seq<Response>, at: seq<nat>, updates: seq<Update>, qresync: bool) {
    && |at| == |out|
    && (forall i :: 0 <= i < |updates| && updates[i].Expunge? && qresync && updates[i].expungeUID != 0 ==>
          Vanishes(out, [], updates[i].expungeUID))
    && (forall k :: 0 <= k < |out| && out[k].RespExpunge? ==>
          && at[k] < |updates| && updates[at[k]].Expunge? && updates[at[k]].expunge == out[k].seqNum
          && (qresync ==> updates[at[k]].expungeUID == 0))
    && (forall k :: 0 <= k < |out| && out[k].RespVanished? ==> qresync)
  }

  lemma ReportedByUID(out: seq<Response>, at: seq<nat>, b: Batch)
    requires LegalAll(b.client, b.updates) && InStep(out, at, b) && AllReported(out, at, [], b, |b.updates|)
    requires OnlyExpunged(out, b)
    ensures ByUID(out, at, b.updates, b.qresync)
  {
    forall k | 0 <= k < |out| && out[k].RespExpunge?
      ensures && at[k] < |b.updates| && b.updates[at[k]].Expunge? && b.updates[at[k]].expunge == out[k].seqNum
              && (b.qresync ==> b.updates[at[k]].expungeUID == 0)
    {
      assert Says(out[k], b.updates[at[k]]);
    }
    VanishedOnlyByUID(out, b);
  }

  lemma VanishedOnlyByUID(out: seq<Response>, b: Batch)
    requires OnlyExpunged(out, b)
    ensures forall k :: 0 <= k < |out| && out[k].RespVanished? ==> b.qresync
  {
    if !b.qresync {
      assert ExpungedUIDs(b) == iset{};
    }
  }

  /** Everything that holds of a delivered batch. The client ends with the view
      that one EXPUNGE per message would have given it, and knows about flags what
      the server meant; each response of its own carries what its update says and
      is read in the view that update was made for; expunges with a UID are
      reported by VANISHED, a run of them by one. */
  ghost predicate Delivered(out: seq<Response>, at: seq<nat>, b: Batch)
    requires LegalAll(b.client, b.updates)
  {
    && ReceiveAll(b.client, out, b.uid) == Replay(b.client, b.updates)
    && LearnAll(b.known, b.client, out, b.uid) == Intended(b, |b.updates|)
    && InStep(out, at, b) && InOrder(out, at, |b.updates|) && AllReported(out, at, [], b, |b.updates|)
    && OnlyExpunged(out, b) && NoneAdjacent(out) && ByUID(out, at, b.updates, b.qresync)
  }

  lemma DeliveryDone(out: seq<Response>, at: seq<nat>, b: Batch)
    requires Delivering(|b.updates|, out, at, [], b) && ReceiveAll(b.client, out, b.uid) == After(b, |b.updates|)
    ensures Delivered(out, at, b)
  {
    assert b.updates[..|b.updates|] == b.updates;
    ReportedByUID(out, at, b);
  }

  /** Writes a batch. */
  method Deliver(updates: seq<Update>, qresync: bool, ghost b: Batch) returns (out: seq<Response>, ghost at: seq<nat>)
    requires BatchOK(b) && b.updates == updates && b.qresync == qresync
    ensures Delivered(out, at, b)
    ensures out == Written(updates, [], qresync)
  {
    var vanished;
    out, at, vanished := DeliverAll(updates, qresync, b);
    out, at := FlushVanished(out, vanished, at, |updates|, b);
    DeliveryDone(out, at, b);
  }
}

/** The mailbox tracker and its sessions (imapserver/tracker.go), one critical
    section at a time. The interleavings are in TrackerProtocol. */
module Tracker {
  import opened Prelude
  import opened TrackerView
  import opened TrackerNumbers
  import opened TrackerDelivery

  /** How much of a queue a poll takes: everything, or what precedes the first
      expunge. */
  ghost function TakeCount(queue: seq<Update>, allowExpunge: bool): (n: nat)
    ensures n <= |queue|
    ensures allowExpunge ==> n == |queue|
    ensures !allowExpunge ==> forall i :: 0 <= i < n ==> !queue[i].Expunge?
    ensures n < |queue| ==> queue[n].Expunge?
  {
    if queue == [] || (!allowExpunge && queue[0].Expunge?) then 0 else 1 + TakeCount(queue[1..], allowExpunge)
  }

  /** A poll has delivered the part of the queue it takes, and kept the rest. */
  ghost predicate Polled(out: seq<Response>, at: seq<nat>, queue: seq<Update>, rest: seq<Update>, allowExpunge: bool,
                         qresync: bool, c: View, known: Known, uid: nat -> nat)
  {
    var n := TakeCount(queue, allowExpunge);
    var b := Batch(queue[..n], qresync, c, known, uid);
    rest == queue[n..] && LegalAll(c, b.updates) && Delivered(out, at, b) && out == Written(b.updates, [], qresync)
  }

  /** The queue is as good for the client after the batch as it was before. */
  ghost predicate Leaves(c: View, queue: seq<Update>, d: View, rest: seq<Update>, uid: nat -> nat)
    requires LegalAll(c, queue)
  {
    Sound(d) && LegalAll(d, rest) && TruthfulAll(d, rest, uid) && Replay(d, rest) == Replay(c, queue)
  }

  ghost predicate NoExpunges(out: seq<Response>) {
    forall k :: 0 <= k < |out| ==> !out[k].RespExpunge? && !out[k].RespVanished?
  }

  lemma StillConsistent(c: View, queue: seq<Update>, d: View, rest: seq<Update>, uid: nat -> nat, n: uint32)
    requires Consistent(c, queue, n) && Leaves(c, queue, d, rest, uid)
    ensures Consistent(d, rest, n) && TruthfulAll(d, rest, uid) && (rest == [] ==> Replay(c, queue) == d)
  {
  }

  class SessionTracker {
    var mailbox: MailboxTracker?
    var numMessages: uint32
    var queue: seq<Update>
    /** What the client knows once every batch taken off the queue is written. */
    ghost var client: View
    ghost var known: Known
    /** The UID of each message, by its arrival number. */
    ghost const uid: nat -> nat

    ghost predicate Valid()
      reads this
    {
      Consistent(client, queue, numMessages) && TruthfulAll(client, queue, uid) && UniqueUIDs(uid)
    }

    /** The mailbox as of the last update this session was handed. */
    ghost function Server(): View
      requires Valid()
      reads this
    {
      Replay(client, queue)
    }

    constructor (m: MailboxTracker, n: uint32, ghost view: View, ghost uid: nat -> nat)
      requires Sound(view) && |view.msgs| == n && UniqueUIDs(uid)
      ensures mailbox == m && numMessages == n && queue == [] && client == view && this.uid == uid
      ensures Valid() && Server() == view
    {
      mailbox, numMessages, queue, client, known := m, n, [], view, Known(None, map[]);
      this.uid := uid;
    }

    /** Appends the update and records the count in one step. */
    method QueueUpdate(u: Update, n: uint32, skip: bool)
      requires Valid() && Legal(Server(), u) && n == |Apply(Server(), u).msgs|
      requires Truthful(Server(), u, uid) && (skip ==> Apply(Server(), u) == Server())
      modifies this`numMessages, this`queue
      ensures Valid() && Server() == Apply(old(Server()), u)
      ensures queue == if skip then old(queue) else old(queue) + [u]
    {
      ReplaySnoc(client, queue, u);
      TruthfulSnoc(client, queue, u, uid);
      numMessages := n;
      if !skip {
        queue := queue + [u];
      }
    }

    /** Leaves the mailbox. */
    method Close()
      modifies this`mailbox, (if mailbox == null then {} else {mailbox})`sessions
      ensures mailbox == null
      ensures old(mailbox) != null ==> old(mailbox).sessions == old(mailbox.sessions) - {this}
    {
      var m := mailbox;
      mailbox := null;
      if m != null {
        m.sessions := m.sessions - {this};
      }
    }

    /** Takes a batch off the queue and writes it. */
    method Poll(qresync: bool, allowExpunge: bool) returns (out: seq<Response>, ghost at: seq<nat>)
      requires Valid()
      modifies this`queue, this`client, this`known
      ensures Valid() && Server() == old(Server())
      ensures client == ReceiveAll(old(client), out, uid) && known == LearnAll(old(known), old(client), out, uid)
      ensures allowExpunge ==> client == Server()
      ensures Polled(out, at, old(queue), queue, allowExpunge, qresync, old(client), old(known), uid)
      ensures !allowExpunge ==> NoExpunges(out)
    {
      var rest;
      out, at, rest := PollQueue(queue, qresync, allowExpunge, client, known, uid);
      StillConsistent(client, queue, ReceiveAll(client, out, uid), rest, uid, numMessages);
      queue, client, known := rest, ReceiveAll(client, out, uid), LearnAll(known, client, out, uid);
    }

    static method PollQueue(queue: seq<Update>, qresync: bool, allowExpunge: bool,
                            ghost c: View, ghost known: Known, ghost uid: nat -> nat)
      returns (out: seq<Response>, ghost at: seq<nat>, rest: seq<Update>)
      requires Sound(c) && LegalAll(c, queue) && TruthfulAll(c, queue, uid) && UniqueUIDs(uid)
      ensures Polled(out, at, queue, rest, allowExpunge, qresync, c, known, uid)
      ensures Leaves(c, queue, ReceiveAll(c, out, uid), rest, uid) && (allowExpunge ==> rest == [])
      ensures !allowExpunge ==> NoExpunges(out)
    {
      var updates;
      updates, rest := TakeUpdates(queue, allowExpunge);
      ghost var b := Batch(updates, qresync, c, known, uid);
      TruthfulSplit(c, queue, uid, |updates|);
      ReplaySound(c, updates);
      out, at := Deliver(updates, qresync, b);
      NoExpungeWritten(out, at, b);
    }

    /** The part of the queue that is delivered, and what stays queued. */
    static method TakeUpdates(queue: seq<Update>, allowExpunge: bool) returns (updates: seq<Update>, rest: seq<Update>)
      ensures var n := TakeCount(queue, allowExpunge);
              updates == queue[..n] && rest == queue[n..]
    {
      if allowExpunge {
        return queue, [];
      }
      updates := [];
      var i := 0;
      while i < |queue| && !queue[i].Expunge?
        invariant 0 <= i <= TakeCount(queue, false) && updates == queue[..i]
      {
        updates := updates + [queue[i]];
        i := i + 1;
      }
      rest := queue[i..];
    }

    method DecodeSeqNum(n: uint32) returns (r: uint32)
      requires Valid()
      ensures r == if mailbox == null then 0 else Decoded(client, Server(), n)
    {
      if n == 0 || mailbox == null {
        return 0;
      }
      r := Decode(queue, numMessages, n, client);
    }

    method EncodeSeqNum(n: uint32) returns (r: uint32)
      requires Valid()
      ensures r == if mailbox == null then 0 else Encoded(client, Server(), n)
    {
      if n == 0 || mailbox == null {
        return 0;
      }
      r := Encode(queue, numMessages, n, client);
    }

    method EncodeNumMessages() returns (n: uint32)
      requires Valid()
      ensures n == if mailbox == null then 0 else |client.msgs|
    {
      if mailbox == null {
        return 0;
      }
      n := EncodeNum(queue, numMessages, client);
    }
  }

  lemma {:induction false} TruthfulSnoc(v: View, us: seq<Update>, u: Update, uid: nat -> nat)
    requires LegalAll(v, us) && TruthfulAll(v, us, uid) && Legal(Replay(v, us), u) && Truthful(Replay(v, us), u, uid)
    ensures LegalAll(v, us + [u]) && TruthfulAll(v, us + [u], uid)
    decreases |us|
  {
    var more := us + [u];
    if us == [] {
      assert more[1..] == [];
    } else {
      assert more[0] == us[0] && more[1..] == us[1..] + [u];
      TruthfulSnoc(Apply(v, us[0]), us[1..], u, uid);
    }
  }

  /** Both parts of a truthful queue are. */
  lemma {:induction false} TruthfulSplit(v: View, us: seq<Update>, uid: nat -> nat, n: nat)
    requires LegalAll(v, us) && TruthfulAll(v, us, uid) && n <= |us|
    ensures LegalAll(v, us[..n]) && TruthfulAll(v, us[..n], uid)
    ensures LegalAll(Replay(v, us[..n]), us[n..]) && TruthfulAll(Replay(v, us[..n]), us[n..], uid)
    ensures Replay(Replay(v, us[..n]), us[n..]) == Replay(v, us)
    decreases |us|
  {
    if n == 0 {
      assert us[..n] == [] && us[n..] == us;
    } else {
      assert us[..n][0] == us[0] && us[..n][1..] == us[1..][..n - 1] && us[n..] == us[1..][n - 1..];
      TruthfulSplit(Apply(v, us[0]), us[1..], uid, n - 1);
    }
  }

  lemma NoExpungeWritten(out: seq<Response>, at: seq<nat>, b: Batch)
    requires LegalAll(b.client, b.updates) && Delivered(out, at, b)
    ensures (forall i :: 0 <= i < |b.updates| ==> !b.updates[i].Expunge?) ==> NoExpunges(out)
  {
    if forall i :: 0 <= i < |b.updates| ==> !b.updates[i].Expunge? {
      assert ExpungedUIDs(b) == iset{};
    }
  }

  class MailboxTracker {
    var numMessages: uint32
    var sessions: set<SessionTracker>
    ghost var view: View
    ghost const uid: nat -> nat

    ghost predicate Valid()
      reads this, sessions
    {
      && Sound(view) && |view.msgs| == numMessages && UniqueUIDs(uid)
      && forall st :: st in sessions ==> st.Valid() && st.Server() == view && st.uid == uid
    }

    constructor (n: uint32, ghost uid: nat -> nat)
      requires UniqueUIDs(uid)
      ensures Valid() && sessions == {} && numMessages == n && this.uid == uid && view == View(Arrivals(0, n), n)
    {
      numMessages, sessions := n, {};
      view := View(Arrivals(0, n), n);
      this.uid := uid;
    }

    /** The new session starts with the mailbox as it is. */
    method NewSession() returns (st: SessionTracker)
      requires Valid()
      modifies this`sessions
      ensures Valid() && fresh(st) && sessions == old(sessions) + {st}
      ensures st.mailbox == this && st.queue == [] && st.client == view
    {
      st := new SessionTracker(this, numMessages, view, uid);
      sessions := sessions + {st};
    }

    /** Every session but the source has the update appended to its queue. */
    twostate predicate Queued(u: Update, source: SessionTracker?)
      reads this, sessions
    {
      forall st :: st in sessions && st in old(sessions) ==>
        st.queue == if st == source then old(st.queue) else old(st.queue) + [u]
    }

    /** The message has this UID, if it names a message at all. */
    ghost predicate HasUID(seqNum: uint32, u: uint32)
      reads this
    {
      1 <= seqNum <= |view.msgs| ==> uid(view.msgs[seqNum - 1]) == u
    }

    /** Hands every session the update and the count after it. */
    method FanOut(u: Update, source: SessionTracker?, ghost before: View)
      requires Legal(before, u) && Truthful(before, u, uid) && numMessages == |Apply(before, u).msgs|
      requires source != null ==> Apply(before, u) == before
      requires forall st :: st in sessions ==> st.Valid() && st.Server() == before && st.uid == uid
      modifies sessions`numMessages, sessions`queue
      ensures forall st :: st in sessions ==> st.Valid() && st.Server() == Apply(before, u)
      ensures Queued(u, source)
    {
      var todo := sessions;
      while todo != {}
        invariant todo <= sessions
        invariant forall st :: st in todo ==> st.queue == old(st.queue) && st.Valid() && st.Server() == before
        invariant forall st :: st in sessions - todo ==>
          && st.Valid() && st.Server() == Apply(before, u)
          && st.queue == if st == source then old(st.queue) else old(st.queue) + [u]
      {
        var st :| st in todo;
        st.QueueUpdate(u, numMessages, source != null && st == source);
        todo := todo - {st};
      }
    }

    /** Applies an update and fans it out. Out-of-range expunges and shrinking
        counts are refused and change nothing. */
    method QueueUpdate(update: Update, source: SessionTracker?) returns (ok: bool)
      requires Valid()
      requires update.Expunge? ==> update.expunge != 0
      requires update.Expunge? && update.expungeUID != 0 ==> HasUID(update.expunge, update.expungeUID)
      requires update.Exists? ==> update.numMessages != 0
      requires source != null ==> update.Fetch?
      modifies this`numMessages, this`view, sessions`numMessages, sessions`queue
      ensures Valid() && sessions == old(sessions)
      ensures ok <==>
                && (update.Expunge? ==> update.expunge <= old(numMessages))
                && (update.Exists? ==> old(numMessages) <= update.numMessages)
      ensures ok ==> var u := Stamped(update, old(numMessages));
                Legal(old(view), u) && view == Apply(old(view), u) && Queued(u, source)
      ensures !ok ==> view == old(view) && forall st :: st in sessions ==> st.queue == old(st.queue)
      ensures forall st :: st in sessions ==> st.client == old(st.client)
    {
      if update.Expunge? && update.expunge > numMessages {
        return false;
      }
      if update.Exists? && update.numMessages < numMessages {
        return false;
      }
      var u := Stamped(update, numMessages);
      ghost var before := view;
      ApplySound(view, u);
      if update.Expunge? {
        numMessages := numMessages - 1;
      } else if update.Exists? {
        numMessages := update.numMessages;
      }
      view := Apply(view, u);
      FanOut(u, source, before);
      ok := true;
    }

    /** The UID is the message's, or 0 when it is not known. */
    method QueueExpunge(seqNum: uint32, u: uint32) returns (ok: bool)
      requires Valid() && (u != 0 ==> HasUID(seqNum, u))
      modifies this`numMessages, this`view, sessions`numMessages, sessions`queue
      ensures Valid() && sessions == old(sessions)
      ensures ok <==> 1 <= seqNum <= old(numMessages)
      ensures ok ==> view == Apply(old(view), Expunge(seqNum, u)) && Queued(Expunge(seqNum, u), null)
      ensures !ok ==> view == old(view) && forall st :: st in sessions ==> st.queue == old(st.queue)
      ensures forall st :: st in sessions ==> st.client == old(st.client)
    {
      if seqNum == 0 {
        return false;
      }
      ok := QueueUpdate(Expunge(seqNum, u), null);
    }

    /** Zero is never queued: it is a decrease unless the mailbox is empty. */
    method QueueNumMessages(n: uint32) returns (ok: bool)
      requires Valid()
      modifies this`numMessages, this`view, sessions`numMessages, sessions`queue
      ensures Valid() && sessions == old(sessions)
      ensures ok <==> old(numMessages) <= n
      ensures numMessages == if ok then n else old(numMessages)
      ensures ok && n != 0 ==>
                var u := Exists(n, old(numMessages));
                view == Apply(old(view), u) && old(view.msgs) <= view.msgs && Queued(u, null)
      ensures !ok || n == 0 ==> view == old(view) && forall st :: st in sessions ==> st.queue == old(st.queue)
      ensures forall st :: st in sessions ==> st.client == old(st.client)
    {
      if n == 0 {
        return numMessages == 0;
      }
      ok := QueueUpdate(Exists(n, 0), null);
    }

    method QueueMailboxFlags(flags: Flags) returns (ok: bool)
      requires Valid()
      modifies this`numMessages, this`view, sessions`numMessages, sessions`queue
      ensures Valid() && sessions == old(sessions) && view == old(view) && ok
      ensures Queued(MailboxFlags(flags), null)
      ensures forall st :: st in sessions ==> st.client == old(st.client)
    {
      ok := QueueUpdate(MailboxFlags(flags), null);
    }

    /** The source is spared its own change. */
    method QueueMessageFlags(seqNum: uint32, u: uint32, flags: Flags, modSeq: nat, source: SessionTracker?)
      returns (ok: bool)
      requires Valid()
      modifies this`numMessages, this`view, sessions`numMessages, sessions`queue
      ensures Valid() && sessions == old(sessions) && view == old(view) && ok
      ensures Queued(Fetch(seqNum, u, flags, modSeq), source)
      ensures forall st :: st in sessions ==> st.client == old(st.client)
    {
      ok := QueueUpdate(Fetch(seqNum, u, flags, modSeq), source);
    }
  }

  /** The update as queued: an EXISTS remembers the count before it. */
  function Stamped(u: Update, count: uint32): Update {
    if u.Exists? then Exists(u.numMessages, count) else u
  }
}

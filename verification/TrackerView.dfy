/** Mailbox views and the updates that move them (imapserver/tracker.go). */
module TrackerView {
  import opened Prelude

  /** What one side believes the mailbox holds. Messages are told apart by
      their arrival number; message n of the view is msgs[n - 1]. `arrived`
      counts every message that ever arrived, as far as this side knows. */
  datatype View = View(msgs: seq<nat>, arrived: nat)

  type Flags = seq<bytes>

  /** One entry of a session's queue. */
  datatype Update =
    | Expunge(expunge: uint32, expungeUID: uint32)
    | Exists(numMessages: uint32, prevNumMessages: uint32)
    | MailboxFlags(mailboxFlags: Flags)
    | Fetch(seqNum: uint32, uid: uint32, flags: Flags, modSeq: nat)

  ghost predicate Ascending(s: seq<nat>) {
    forall i, j :: 0 <= i < j < |s| ==> s[i] < s[j]
  }

  /** Messages keep their arrival order and a count fits in a uint32. */
  ghost predicate Sound(v: View) {
    && |v.msgs| <= MAX_UINT32
    && Ascending(v.msgs)
    && forall i :: 0 <= i < |v.msgs| ==> v.msgs[i] < v.arrived
  }

  /** The update makes sense on this view. What a FETCH names is the caller's
      business: it changes no view. */
  ghost predicate Legal(v: View, u: Update) {
    match u
    case Expunge(n, _) => 1 <= n <= |v.msgs|
    case Exists(n, prev) => 0 < n && prev == |v.msgs| <= n
    case MailboxFlags(_) => true
    case Fetch(_, _, _, _) => true
  }

  ghost function Remove(s: seq<nat>, i: nat): seq<nat>
    requires i < |s|
  {
    s[..i] + s[i + 1..]
  }

  /** The next `k` arrivals. */
  ghost function Arrivals(from: nat, k: nat): (s: seq<nat>)
    ensures |s| == k && forall i :: 0 <= i < k ==> s[i] == from + i
  {
    seq(k, i requires 0 <= i < k => from + i)
  }

  ghost function Apply(v: View, u: Update): (w: View)
    requires Legal(v, u)
    ensures v.arrived <= w.arrived
  {
    match u
    case Expunge(n, _) => View(Remove(v.msgs, n - 1), v.arrived)
    case Exists(n, prev) => View(v.msgs + Arrivals(v.arrived, n - prev), v.arrived + (n - prev))
    case MailboxFlags(_) => v
    case Fetch(_, _, _, _) => v
  }

  lemma ApplySound(v: View, u: Update)
    requires Sound(v) && Legal(v, u)
    ensures Sound(Apply(v, u))
  {
    if u.Expunge? {
      RemoveAscending(v.msgs, u.expunge - 1);
    }
  }

  lemma RemoveAscending(s: seq<nat>, k: nat)
    requires Ascending(s) && k < |s|
    ensures Ascending(Remove(s, k))
    ensures forall i :: 0 <= i < |s| - 1 ==> Remove(s, k)[i] == s[if i < k then i else i + 1]
  {
  }

  // ---------------------------------------------------------------------
  // Queues of updates
  // ---------------------------------------------------------------------

  ghost predicate LegalAll(v: View, us: seq<Update>)
    decreases |us|
  {
    us == [] || (Legal(v, us[0]) && LegalAll(Apply(v, us[0]), us[1..]))
  }

  ghost function Replay(v: View, us: seq<Update>): (w: View)
    requires LegalAll(v, us)
    ensures v.arrived <= w.arrived
    decreases |us|
  {
    if us == [] then v else Replay(Apply(v, us[0]), us[1..])
  }

  lemma {:induction false} ReplaySound(v: View, us: seq<Update>)
    requires Sound(v) && LegalAll(v, us)
    ensures Sound(Replay(v, us))
    decreases |us|
  {
    if us != [] {
      ApplySound(v, us[0]);
      ReplaySound(Apply(v, us[0]), us[1..]);
    }
  }

  lemma {:induction false} ReplayConcat(v: View, a: seq<Update>, b: seq<Update>)
    ensures LegalAll(v, a + b) <==> LegalAll(v, a) && LegalAll(Replay(v, a), b)
    ensures LegalAll(v, a + b) ==> Replay(v, a + b) == Replay(Replay(v, a), b)
    decreases |a|
  {
    if a == [] {
      assert a + b == b;
    } else {
      assert (a + b)[0] == a[0] && (a + b)[1..] == a[1..] + b;
      if Legal(v, a[0]) {
        ReplayConcat(Apply(v, a[0]), a[1..], b);
      }
    }
  }

  lemma ReplayOne(v: View, u: Update)
    ensures LegalAll(v, [u]) <==> Legal(v, u)
    ensures Legal(v, u) ==> Replay(v, [u]) == Apply(v, u)
  {
    assert [u][1..] == [];
  }

  /** One more update at the end. */
  lemma ReplaySnoc(v: View, us: seq<Update>, u: Update)
    requires LegalAll(v, us) && Legal(Replay(v, us), u)
    ensures LegalAll(v, us + [u]) && Replay(v, us + [u]) == Apply(Replay(v, us), u)
  {
    ReplayConcat(v, us, [u]);
    ReplayOne(Replay(v, us), u);
  }

  /** The view in the middle of a queue. */
  lemma ReplayAt(v: View, us: seq<Update>, i: nat)
    requires LegalAll(v, us) && i <= |us|
    ensures LegalAll(v, us[..i]) && LegalAll(Replay(v, us[..i]), us[i..])
    ensures Replay(Replay(v, us[..i]), us[i..]) == Replay(v, us)
    ensures i < |us| ==>
              && Legal(Replay(v, us[..i]), us[i])
              && LegalAll(v, us[..i + 1])
              && Replay(v, us[..i + 1]) == Apply(Replay(v, us[..i]), us[i])
  {
    assert us == us[..i] + us[i..];
    ReplayConcat(v, us[..i], us[i..]);
    if i < |us| {
      assert us[i..][0] == us[i];
      assert us[..i + 1] == us[..i] + [us[i]];
      ReplaySnoc(v, us[..i], us[i]);
    }
  }

  /** Once gone, a message does not come back: new ones get new numbers. */
  lemma {:induction false} GoneForGood(v: View, us: seq<Update>, x: nat)
    requires LegalAll(v, us) && x < v.arrived && x !in v.msgs
    ensures x !in Replay(v, us).msgs
    decreases |us|
  {
    if us != [] {
      var w := Apply(v, us[0]);
      assert x !in w.msgs;
      GoneForGood(w, us[1..], x);
    }
  }

  /** A message that has not arrived yet is in no view. */
  lemma NotArrived(v: View, x: nat)
    requires Sound(v) && v.arrived <= x
    ensures x !in v.msgs
  {
  }
}

/** Every interleaving of the tracker: updates that fan out session by session
    under the mailbox mutex, pollers that take batches under the session mutex
    and write them under the delivery mutex, sessions that come and go. */
module TrackerProtocol {
  import opened Prelude
  import opened TrackerView
  import opened TrackerNumbers
  import opened TrackerDelivery
  import NumSet

  /** A queued update together with the server's view when it was queued. */
  datatype Entry = Entry(update: Update, before: View)

  datatype Session = Session(
    open: bool,
    count: nat,               // SessionTracker.numMessages
    queue: seq<Entry>,        // SessionTracker.queue
    holder: Option<nat>,      // the poller that holds deliverMutex
    batch: seq<Entry>,        // taken off the queue, not written yet
    qresync: bool,
    held: UIDSet,             // the pending VANISHED
    client: View,             // what the client has read so far
    known: Known,             // what it has been told about flags
    back: seq<Entry>,         // history: the entries the pending VANISHED stands for
    taken: seq<Entry>,        // history: the last batch as it was taken
    log: seq<Response>)       // history: what has been written of it

  /** An update being fanned out: the mailbox mutex is held. */
  datatype Fan = Fan(entry: Entry, source: Option<nat>, todo: set<nat>)

  datatype System = System(server: View, sessions: map<nat, Session>, registered: set<nat>, fan: Option<Fan>)

  datatype Step =
    | Change(u: Update, source: Option<nat>)
    | FanTo(sid: nat)
    | FanDone
    | Open(sid: nat)
    | Lock(sid: nat, poller: nat)
    | Take(sid: nat, n: nat, qresync: bool)
    | HoldBack(sid: nat)
    | Flush(sid: nat)
    | Write(sid: nat)
    | Unlock(sid: nat)
    | Shut(sid: nat)
    | Unregister(sid: nat)

  // ---------------------------------------------------------------------
  // Steps
  // ---------------------------------------------------------------------

  /** The view the client has once the pending VANISHED is written. */
  ghost function Settled(s: Session, uid: nat -> nat): View {
    View(Without(s.client.msgs, Denoted(s.held), uid), s.client.arrived)
  }

  ghost function Enqueue(s: Session, e: Entry, skip: bool): Session
    requires Legal(e.before, e.update)
  {
    s.(count := |Apply(e.before, e.update).msgs|, queue := if skip then s.queue else s.queue + [e])
  }

  ghost function NewSession(server: View): Session {
    Session(true, |server.msgs|, [], None, [], false, [], server, Known(None, map[]), [], [], [])
  }

  /** A poll takes the whole queue, or with expunges withheld what precedes the
      first one. */
  ghost predicate MayTake(s: Session, n: nat) {
    && s.holder.Some? && s.batch == [] && s.held == []
    && n <= |s.queue|
    && (n == |s.queue| || (s.queue[n].update.Expunge? && forall i :: 0 <= i < n ==> !s.queue[i].update.Expunge?))
  }

  ghost predicate NextCoalesced(s: Session) {
    s.batch != [] && Coalesced(s.batch[0].update, s.qresync)
  }

  /** The response is written and the client reads it. */
  ghost function Read(s: Session, r: Response, uid: nat -> nat): Session {
    s.(client := Receive(s.client, r, uid), known := Learn(s.known, s.client, r), log := s.log + [r])
  }

  /** What a step does to one session. */
  ghost predicate SessionStep(s: Session, t: Session, step: Step, uid: nat -> nat) {
    match step
    case Lock(_, p) => s.holder.None? && t == s.(holder := Some(p))
    case Take(_, n, q) =>
      && MayTake(s, n)
      && t == s.(batch := s.queue[..n], queue := s.queue[n..], qresync := q, taken := s.queue[..n], log := [])
    case HoldBack(_) =>
      && s.holder.Some? && NextCoalesced(s)
      && var e := s.batch[0];
         t == s.(batch := s.batch[1..], held := AddUID(s.held, e.update.expungeUID), back := s.back + [e])
    case Flush(_) =>
      && s.holder.Some? && s.held != [] && !NextCoalesced(s)
      && var r := RespVanished(s.held);
         t == Read(s.(held := [], back := []), r, uid)
    case Write(_) =>
      && s.holder.Some? && s.held == [] && s.batch != [] && !NextCoalesced(s)
      && var r := Image(s.batch[0].update);
         t == Read(s.(batch := s.batch[1..]), r, uid)
    case Unlock(_) => s.holder.Some? && s.batch == [] && s.held == [] && t == s.(holder := None)
    case Shut(_) => t == s.(open := false)
    case _ => false
  }

  ghost function AddUID(held: UIDSet, u: uint32): UIDSet {
    if NumSet.Canonical(held) then NumSet.Inserted(held, One(u)) else held
  }

  /** The steps of one session on its own. */
  ghost predicate IsLocal(step: Step) {
    !step.Change? && !step.FanTo? && !step.FanDone? && !step.Open? && !step.Unregister?
  }

  ghost predicate SessionMoves(a: System, b: System, step: Step, uid: nat -> nat)
    requires IsLocal(step)
  {
    && step.sid in a.sessions && step.sid in b.sessions
    && SessionStep(a.sessions[step.sid], b.sessions[step.sid], step, uid)
    && b == a.(sessions := a.sessions[step.sid := b.sessions[step.sid]])
  }

  /** The steps under the mailbox mutex. */
  ghost predicate MailboxMoves(a: System, b: System, step: Step, uid: nat -> nat)
    requires !IsLocal(step)
  {
    match step
    case Change(u, source) =>
      && a.fan.None? && Legal(a.server, u) && Truthful(a.server, u, uid) && (source.Some? ==> u.Fetch?)
      && b == a.(server := Apply(a.server, u), fan := Some(Fan(Entry(u, a.server), source, a.registered)))
    case FanTo(sid) =>
      && a.fan.Some? && sid in a.fan.value.todo && sid in a.sessions
      && var f := a.fan.value;
         && Legal(f.entry.before, f.entry.update)
         && b == a.(fan := Some(f.(todo := f.todo - {sid})),
                    sessions := a.sessions[sid := Enqueue(a.sessions[sid], f.entry, f.source == Some(sid))])
    case FanDone => a.fan.Some? && a.fan.value.todo == {} && b == a.(fan := None)
    case Open(sid) =>
      && a.fan.None? && sid !in a.sessions
      && b == a.(registered := a.registered + {sid},
                 sessions := a.sessions[sid := NewSession(a.server)])
    case Unregister(sid) =>
      && a.fan.None? && sid in a.sessions && !a.sessions[sid].open
      && b == a.(registered := a.registered - {sid})
  }

  ghost predicate Next(a: System, b: System, step: Step, uid: nat -> nat) {
    if IsLocal(step) then SessionMoves(a, b, step, uid) else MailboxMoves(a, b, step, uid)
  }

  ghost predicate Init(s: System) {
    Sound(s.server) && s.sessions == map[] && s.registered == {} && s.fan.None?
  }

  ghost function Updates(es: seq<Entry>): seq<Update> {
    seq(|es|, i requires 0 <= i < |es| => es[i].update)
  }

  // ---------------------------------------------------------------------
  // The invariant
  // ---------------------------------------------------------------------

  /** Each entry was queued in the view the entries before it lead to. */
  ghost predicate Chain(v: View, es: seq<Entry>, uid: nat -> nat)
    decreases |es|
  {
    es == [] || (es[0].before == v && Legal(v, es[0].update) && Truthful(v, es[0].update, uid)
                 && Chain(Apply(v, es[0].update), es[1..], uid))
  }

  ghost function End(v: View, es: seq<Entry>, uid: nat -> nat): View
    requires Chain(v, es, uid)
    decreases |es|
  {
    if es == [] then v else End(Apply(v, es[0].update), es[1..], uid)
  }

  ghost predicate SessionOK(s: Session, uid: nat -> nat) {
    && Sound(s.client) && Sound(Settled(s, uid)) && NumSet.Canonical(s.held)
    && Chain(Settled(s, uid), s.batch + s.queue, uid)
    && |End(Settled(s, uid), s.batch + s.queue, uid).msgs| == s.count
    && (s.holder.None? ==> s.batch == [] && s.held == [])
  }

  /** Where a session's batch and queue lead. */
  ghost function EndOf(s: Session, uid: nat -> nat): View
    requires SessionOK(s, uid)
  {
    End(Settled(s, uid), s.batch + s.queue, uid)
  }

  /** The server's view as far as session sid has been handed it. */
  ghost function Handed(a: System, sid: nat): View {
    if a.fan.Some? && sid in a.fan.value.todo then a.fan.value.entry.before else a.server
  }

  ghost predicate FanOK(a: System, uid: nat -> nat) {
    a.fan.Some? ==>
      var f := a.fan.value;
      && Sound(f.entry.before) && Legal(f.entry.before, f.entry.update) && Truthful(f.entry.before, f.entry.update, uid)
      && a.server == Apply(f.entry.before, f.entry.update)
      && (f.source.Some? ==> f.entry.update.Fetch?)
      && f.todo <= a.registered
  }

  /** In every reachable state: what the client has read, then the pending
      VANISHED, then the batch, then the queue, replays to the server's view. */
  ghost predicate Inv(a: System, uid: nat -> nat) {
    && Sound(a.server) && FanOK(a, uid) && a.registered <= a.sessions.Keys
    && (forall sid :: sid in a.sessions ==> SessionOK(a.sessions[sid], uid))
    && (forall sid :: sid in a.registered ==> EndOf(a.sessions[sid], uid) == Handed(a, sid))
  }

  // ---------------------------------------------------------------------
  // Sessions keep it
  // ---------------------------------------------------------------------

  lemma {:induction false} ChainSnoc(v: View, es: seq<Entry>, e: Entry, uid: nat -> nat)
    requires Chain(v, es, uid) && e.before == End(v, es, uid)
    requires Legal(e.before, e.update) && Truthful(e.before, e.update, uid)
    ensures Chain(v, es + [e], uid) && End(v, es + [e], uid) == Apply(e.before, e.update)
    decreases |es|
  {
    if es == [] {
      assert (es + [e])[1..] == [];
    } else {
      ChainSnoc(Apply(v, es[0].update), es[1..], e, uid);
      assert (es + [e])[1..] == es[1..] + [e];
    }
  }

  lemma EnqueueKeeps(s: Session, e: Entry, skip: bool, uid: nat -> nat)
    requires SessionOK(s, uid) && e.before == EndOf(s, uid)
    requires Legal(e.before, e.update) && Truthful(e.before, e.update, uid)
    requires skip ==> e.update.Fetch?
    ensures SessionOK(Enqueue(s, e, skip), uid) && EndOf(Enqueue(s, e, skip), uid) == Apply(e.before, e.update)
  {
    ChainSnoc(Settled(s, uid), s.batch + s.queue, e, uid);
    assert s.batch + (s.queue + [e]) == s.batch + s.queue + [e];
    assert Settled(Enqueue(s, e, skip), uid) == Settled(s, uid);
  }

  lemma TakeKeeps(s: Session, t: Session, step: Step, uid: nat -> nat)
    requires SessionOK(s, uid) && step.Take? && SessionStep(s, t, step, uid)
    ensures SessionOK(t, uid) && EndOf(t, uid) == EndOf(s, uid)
  {
    assert t.batch + t.queue == s.batch + s.queue;
    assert Settled(t, uid) == Settled(s, uid);
  }

  /** The first entry of the batch is due in the settled view. */
  lemma NextDue(s: Session, uid: nat -> nat)
    requires SessionOK(s, uid) && s.batch != []
    ensures var e := s.batch[0];
            && e.before == Settled(s, uid) && Legal(e.before, e.update) && Truthful(e.before, e.update, uid)
            && Sound(Apply(e.before, e.update))
            && Chain(Apply(e.before, e.update), s.batch[1..] + s.queue, uid)
            && End(Apply(e.before, e.update), s.batch[1..] + s.queue, uid) == EndOf(s, uid)
  {
    var all := s.batch + s.queue;
    assert all[0] == s.batch[0] && all[1..] == s.batch[1..] + s.queue;
    ApplySound(Settled(s, uid), s.batch[0].update);
  }

  lemma HoldBackKeeps(s: Session, t: Session, step: Step, uid: nat -> nat)
    requires UniqueUIDs(uid) && SessionOK(s, uid) && step.HoldBack? && SessionStep(s, t, step, uid)
    ensures SessionOK(t, uid) && EndOf(t, uid) == EndOf(s, uid)
    ensures s.batch[0].before == Settled(s, uid) && Settled(t, uid) == Apply(Settled(s, uid), s.batch[0].update)
  {
    NextDue(s, uid);
    var u := s.batch[0].update;
    DenotedOneMore(s.held, u.expungeUID);
    WithoutOneMore(s.client.msgs, Denoted(s.held), uid, u.expunge);
    assert Settled(t, uid) == Apply(Settled(s, uid), u);
  }

  lemma FlushKeeps(s: Session, t: Session, step: Step, uid: nat -> nat)
    requires SessionOK(s, uid) && step.Flush? && SessionStep(s, t, step, uid)
    ensures SessionOK(t, uid) && EndOf(t, uid) == EndOf(s, uid)
  {
    DenotedNone();
    WithoutNone(t.client.msgs, uid);
    assert Settled(t, uid) == Settled(s, uid);
  }

  /** A response is written to a client whose view is the one the server had
      when it queued the update. */
  lemma WriteInStep(s: Session, uid: nat -> nat)
    requires SessionOK(s, uid) && s.held == [] && s.batch != []
    ensures s.client == s.batch[0].before
  {
    NextDue(s, uid);
    DenotedNone();
    WithoutNone(s.client.msgs, uid);
  }

  lemma WriteKeeps(s: Session, t: Session, step: Step, uid: nat -> nat)
    requires SessionOK(s, uid) && step.Write? && SessionStep(s, t, step, uid)
    ensures SessionOK(t, uid) && EndOf(t, uid) == EndOf(s, uid)
  {
    WriteInStep(s, uid);
    NextDue(s, uid);
    ReceiveImage(s.client, s.batch[0].update, uid, s.known);
    DenotedNone();
    WithoutNone(t.client.msgs, uid);
    assert Settled(t, uid) == Apply(s.client, s.batch[0].update);
  }

  lemma SessionKeeps(s: Session, t: Session, step: Step, uid: nat -> nat)
    requires UniqueUIDs(uid) && SessionOK(s, uid) && SessionStep(s, t, step, uid)
    ensures SessionOK(t, uid) && EndOf(t, uid) == EndOf(s, uid)
  {
    match step
    case Take(_, _, _) => TakeKeeps(s, t, step, uid);
    case HoldBack(_) => HoldBackKeeps(s, t, step, uid);
    case Flush(_) => FlushKeeps(s, t, step, uid);
    case Write(_) => WriteKeeps(s, t, step, uid);
    case Lock(_, _) => assert Settled(t, uid) == Settled(s, uid);
    case Unlock(_) => assert Settled(t, uid) == Settled(s, uid);
    case Shut(_) => assert Settled(t, uid) == Settled(s, uid);
    case _ =>
  }

  // ---------------------------------------------------------------------
  // Systems keep it
  // ---------------------------------------------------------------------

  lemma ChangeKeeps(a: System, b: System, step: Step, uid: nat -> nat)
    requires Inv(a, uid) && step.Change? && MailboxMoves(a, b, step, uid)
    ensures Inv(b, uid)
  {
    ApplySound(a.server, step.u);
  }

  lemma FanToKeeps(a: System, b: System, step: Step, uid: nat -> nat)
    requires Inv(a, uid) && step.FanTo? && MailboxMoves(a, b, step, uid)
    ensures Inv(b, uid)
  {
    var f := a.fan.value;
    assert step.sid in a.registered;
    EnqueueKeeps(a.sessions[step.sid], f.entry, f.source == Some(step.sid), uid);
    forall sid | sid in b.registered ensures EndOf(b.sessions[sid], uid) == Handed(b, sid) {
      assert EndOf(a.sessions[sid], uid) == Handed(a, sid);
    }
  }

  lemma NewSessionOK(server: View, uid: nat -> nat)
    requires Sound(server)
    ensures SessionOK(NewSession(server), uid) && EndOf(NewSession(server), uid) == server
  {
    var s := NewSession(server);
    DenotedNone();
    WithoutNone(server.msgs, uid);
    assert Settled(s, uid) == server && s.batch + s.queue == [];
  }

  lemma OpenKeeps(a: System, b: System, step: Step, uid: nat -> nat)
    requires Inv(a, uid) && step.Open? && MailboxMoves(a, b, step, uid)
    ensures Inv(b, uid)
  {
    NewSessionOK(a.server, uid);
    assert step.sid !in a.registered;
    forall sid | sid in b.registered && sid != step.sid ensures EndOf(b.sessions[sid], uid) == Handed(b, sid) {
      assert EndOf(a.sessions[sid], uid) == Handed(a, sid);
    }
  }

  /** A session may be replaced by one that leads to the same view. */
  lemma ReplacedKeeps(a: System, sid: nat, t: Session, uid: nat -> nat)
    requires Inv(a, uid) && sid in a.sessions && SessionOK(t, uid) && EndOf(t, uid) == EndOf(a.sessions[sid], uid)
    ensures Inv(a.(sessions := a.sessions[sid := t]), uid)
  {
    var b := a.(sessions := a.sessions[sid := t]);
    assert FanOK(b, uid) by {
      assert b.fan == a.fan && b.server == a.server && b.registered == a.registered;
    }
    forall x | x in b.registered
      ensures x in b.sessions && SessionOK(b.sessions[x], uid) && EndOf(b.sessions[x], uid) == Handed(b, x)
    {
      ReplacedEnd(a, sid, t, uid, x);
    }
  }

  lemma ReplacedEnd(a: System, sid: nat, t: Session, uid: nat -> nat, x: nat)
    requires Inv(a, uid) && sid in a.sessions && SessionOK(t, uid) && EndOf(t, uid) == EndOf(a.sessions[sid], uid)
    requires x in a.registered
    ensures var b := a.(sessions := a.sessions[sid := t]);
            && x in b.sessions && SessionOK(b.sessions[x], uid) && EndOf(b.sessions[x], uid) == Handed(b, x)
  {
    assert EndOf(a.sessions[x], uid) == Handed(a, x);
  }

  lemma LocalKeeps(a: System, b: System, step: Step, uid: nat -> nat)
    requires UniqueUIDs(uid) && Inv(a, uid) && IsLocal(step) && SessionMoves(a, b, step, uid)
    ensures Inv(b, uid)
  {
    SessionKeeps(a.sessions[step.sid], b.sessions[step.sid], step, uid);
    ReplacedKeeps(a, step.sid, b.sessions[step.sid], uid);
  }

  lemma FanDoneKeeps(a: System, b: System, step: Step, uid: nat -> nat)
    requires Inv(a, uid) && step.FanDone? && MailboxMoves(a, b, step, uid)
    ensures Inv(b, uid)
  {
  }

  lemma UnregisterKeeps(a: System, b: System, step: Step, uid: nat -> nat)
    requires Inv(a, uid) && step.Unregister? && MailboxMoves(a, b, step, uid)
    ensures Inv(b, uid)
  {
  }

  lemma MailboxKeeps(a: System, b: System, step: Step, uid: nat -> nat)
    requires Inv(a, uid) && !IsLocal(step) && MailboxMoves(a, b, step, uid)
    ensures Inv(b, uid)
  {
    match step
    case Change(_, _) => ChangeKeeps(a, b, step, uid);
    case FanTo(_) => FanToKeeps(a, b, step, uid);
    case FanDone => FanDoneKeeps(a, b, step, uid);
    case Open(_) => OpenKeeps(a, b, step, uid);
    case Unregister(_) => UnregisterKeeps(a, b, step, uid);
  }

  lemma NextKeeps(a: System, b: System, step: Step, uid: nat -> nat)
    requires UniqueUIDs(uid) && Inv(a, uid) && Next(a, b, step, uid)
    ensures Inv(b, uid)
  {
    if IsLocal(step) {
      LocalKeeps(a, b, step, uid);
    } else {
      MailboxKeeps(a, b, step, uid);
    }
  }

  // ---------------------------------------------------------------------
  // Whole runs
  // ---------------------------------------------------------------------

  /** states[0] is initial and steps[i] leads from states[i] to states[i + 1]. */
  ghost predicate Run(states: seq<System>, steps: seq<Step>, uid: nat -> nat) {
    && |states| == |steps| + 1
    && Init(states[0])
    && forall i :: 0 <= i < |steps| ==> Next(states[i], states[i + 1], steps[i], uid)
  }

  lemma {:induction false} RunInv(states: seq<System>, steps: seq<Step>, uid: nat -> nat, i: nat)
    requires UniqueUIDs(uid) && Run(states, steps, uid) && i < |states|
    ensures Inv(states[i], uid)
    decreases i
  {
    if i > 0 {
      RunInv(states, steps, uid, i - 1);
      NextKeeps(states[i - 1], states[i], steps[i - 1], uid);
    }
  }

  /** Before state i, the server queued this entry, in the view it records. */
  ghost predicate Queued(states: seq<System>, steps: seq<Step>, i: nat, e: Entry)
    requires |states| == |steps| + 1 && i < |states|
  {
    exists j :: 0 <= j < i && steps[j].Change? && steps[j].u == e.update && states[j].server == e.before
  }

  /** What a session holds of the updates queued for it. */
  ghost function Entries(s: Session): seq<Entry> {
    s.back + s.batch + s.queue
  }

  /** No entry of a session comes from anywhere else. */
  lemma {:induction false} Provenance(states: seq<System>, steps: seq<Step>, uid: nat -> nat, i: nat)
    requires Run(states, steps, uid) && i < |states|
    ensures states[i].fan.Some? ==> Queued(states, steps, i, states[i].fan.value.entry)
    ensures forall sid, e :: sid in states[i].sessions && e in Entries(states[i].sessions[sid]) ==>
              Queued(states, steps, i, e)
    decreases i
  {
    if i > 0 {
      Provenance(states, steps, uid, i - 1);
      var a, b, step := states[i - 1], states[i], steps[i - 1];
      assert Next(a, b, step, uid);
      forall e | Queued(states, steps, i - 1, e) ensures Queued(states, steps, i, e) {
      }
      assert step.Change? ==> Queued(states, steps, i, Entry(step.u, a.server));
      forall sid, e | sid in b.sessions && e in Entries(b.sessions[sid])
        ensures Queued(states, steps, i, e)
      {
        if sid in a.sessions {
          EntriesFrom(a, b, step, uid, sid, e);
        }
      }
    }
  }

  /** A step gives a session no entry but the one being fanned out. */
  lemma EntriesFrom(a: System, b: System, step: Step, uid: nat -> nat, sid: nat, e: Entry)
    requires Next(a, b, step, uid) && sid in a.sessions && sid in b.sessions
    requires e in Entries(b.sessions[sid])
    ensures e in Entries(a.sessions[sid]) || (a.fan.Some? && e == a.fan.value.entry)
  {
    if IsLocal(step) && step.sid == sid {
      EntriesKept(a.sessions[sid], b.sessions[sid], step, uid, e);
    }
  }

  lemma EntriesKept(s: Session, t: Session, step: Step, uid: nat -> nat, e: Entry)
    requires SessionStep(s, t, step, uid) && e in Entries(t)
    ensures e in Entries(s)
  {
  }

  /** In every run, whoever polls and whatever is queued meanwhile: a response
      carries what its update says and reaches a client whose view is the server's
      view at the time the update was queued. So its numbers name the messages the
      server meant, and the client learns about their flags what it meant. */
  lemma DeliveredAsMeant(states: seq<System>, steps: seq<Step>, uid: nat -> nat, i: nat)
    requires UniqueUIDs(uid) && Run(states, steps, uid) && i < |steps| && steps[i].Write?
    ensures steps[i].sid in states[i].sessions && steps[i].sid in states[i + 1].sessions
    ensures states[i].sessions[steps[i].sid].batch != []
    ensures var s, t := states[i].sessions[steps[i].sid], states[i + 1].sessions[steps[i].sid];
            && s.client == s.batch[0].before && Legal(s.client, s.batch[0].update)
            && t.client == Apply(s.client, s.batch[0].update)
            && t.known == Intend(s.known, s.batch[0].before, s.batch[0].update)
            && t.log != [] && Says(t.log[|t.log| - 1], s.batch[0].update)
            && Queued(states, steps, i, s.batch[0])
  {
    RunInv(states, steps, uid, i);
    Provenance(states, steps, uid, i);
    assert Next(states[i], states[i + 1], steps[i], uid);
    var s := states[i].sessions[steps[i].sid];
    WriteInStep(s, uid);
    NextDue(s, uid);
    ReceiveImage(s.client, s.batch[0].update, uid, s.known);
    assert s.batch[0] in Entries(s);
  }

  /** A registered session with nothing left to deliver shows its client the
      server's view. */
  lemma CaughtUp(states: seq<System>, steps: seq<Step>, uid: nat -> nat, i: nat, sid: nat)
    requires UniqueUIDs(uid) && Run(states, steps, uid) && i < |states|
    requires sid in states[i].registered && states[i].fan.None?
    requires sid in states[i].sessions && states[i].sessions[sid].holder.None? && states[i].sessions[sid].queue == []
    ensures states[i].sessions[sid].client == states[i].server
  {
    RunInv(states, steps, uid, i);
    var s := states[i].sessions[sid];
    DenotedNone();
    WithoutNone(s.client.msgs, uid);
    assert s.batch + s.queue == [];
    assert EndOf(s, uid) == Handed(states[i], sid);
  }

  lemma {:induction false} ChainReplays(v: View, es: seq<Entry>, uid: nat -> nat)
    requires Chain(v, es, uid)
    ensures LegalAll(v, Updates(es)) && Replay(v, Updates(es)) == End(v, es, uid)
    ensures TruthfulAll(v, Updates(es), uid)
    decreases |es|
  {
    if es != [] {
      ChainReplays(Apply(v, es[0].update), es[1..], uid);
      assert Updates(es)[1..] == Updates(es[1..]);
    }
  }

  lemma {:induction false} ChainSplit(v: View, a: seq<Entry>, b: seq<Entry>, uid: nat -> nat)
    requires Chain(v, a + b, uid)
    ensures Chain(v, a, uid) && Chain(End(v, a, uid), b, uid) && End(v, a + b, uid) == End(End(v, a, uid), b, uid)
    decreases |a|
  {
    if a == [] {
      assert a + b == b;
    } else {
      assert (a + b)[0] == a[0] && (a + b)[1..] == a[1..] + b;
      ChainSplit(Apply(v, a[0].update), a[1..], b, uid);
    }
  }

  /** In every run the readers of a session find a count and a queue that agree
      with the view its client has once the batch in flight is written. */
  lemma ReadersConsistent(states: seq<System>, steps: seq<Step>, uid: nat -> nat, i: nat, sid: nat)
    requires UniqueUIDs(uid) && Run(states, steps, uid) && i < |states| && sid in states[i].sessions
    ensures var s := states[i].sessions[sid];
            && Sound(Settled(s, uid)) && LegalAll(Settled(s, uid), Updates(s.batch))
            && s.count <= MAX_UINT32
            && Consistent(Replay(Settled(s, uid), Updates(s.batch)), Updates(s.queue), s.count)
  {
    RunInv(states, steps, uid, i);
    var s := states[i].sessions[sid];
    var v := Settled(s, uid);
    ChainSplit(v, s.batch, s.queue, uid);
    ChainReplays(v, s.batch, uid);
    ReplaySound(v, Updates(s.batch));
    ChainReplays(End(v, s.batch, uid), s.queue, uid);
    ReplaySound(End(v, s.batch, uid), Updates(s.queue));
  }

  /** While the delivery lock is held after a poll, the count and the queue agree
      with the client's actual view: numbers encoded there name for the client
      what they name for the server. */
  lemma AfterPoll(states: seq<System>, steps: seq<Step>, uid: nat -> nat, i: nat, sid: nat)
    requires UniqueUIDs(uid) && Run(states, steps, uid) && i < |states| && sid in states[i].sessions
    requires states[i].sessions[sid].batch == [] && states[i].sessions[sid].held == []
    ensures var s := states[i].sessions[sid];
            s.count <= MAX_UINT32 && Consistent(s.client, Updates(s.queue), s.count)
  {
    ReadersConsistent(states, steps, uid, i, sid);
    var s := states[i].sessions[sid];
    DenotedNone();
    WithoutNone(s.client.msgs, uid);
    assert Updates(s.batch) == [];
    assert Settled(s, uid) == s.client;
  }

  // ---------------------------------------------------------------------
  // What a batch writes
  // ---------------------------------------------------------------------

  ghost function UIDsOf(es: seq<Entry>): iset<nat> {
    iset e | e in es && e.update.Expunge? :: e.update.expungeUID as nat
  }

  /** The pending VANISHED stands for the entries held back: the expunges that
      lead from the client's view to the settled one. */
  ghost predicate BackOK(s: Session, uid: nat -> nat) {
    && NumSet.Canonical(s.held) && Denoted(s.held) == UIDsOf(s.back) && (s.held == [] <==> s.back == [])
    && (forall e :: e in s.back ==> Coalesced(e.update, s.qresync))
    && Chain(s.client, s.back, uid) && End(s.client, s.back, uid) == Settled(s, uid)
  }

  /** What has been written and what is still to come are the responses to the
      batch as it was taken. */
  ghost predicate LogOK(s: Session) {
    && NumSet.Canonical(s.held)
    && s.log + Written(Updates(s.batch), s.held, s.qresync) == Written(Updates(s.taken), [], s.qresync)
  }

  lemma UIDsOfSnoc(es: seq<Entry>, e: Entry)
    requires e.update.Expunge?
    ensures UIDsOf(es + [e]) == UIDsOf(es) + iset{e.update.expungeUID as nat}
  {
  }

  lemma BackNone(s: Session, uid: nat -> nat)
    requires s.held == [] && s.back == []
    ensures BackOK(s, uid)
  {
    DenotedNone();
    WithoutNone(s.client.msgs, uid);
  }

  lemma BackKept(s: Session, t: Session, step: Step, uid: nat -> nat)
    requires UniqueUIDs(uid) && SessionOK(s, uid) && BackOK(s, uid) && SessionStep(s, t, step, uid)
    ensures BackOK(t, uid)
  {
    if step.HoldBack? {
      BackGrows(s, t, step, uid);
    } else if step.Take? || step.Flush? || step.Write? {
      BackNone(t, uid);
    } else {
      assert Settled(t, uid) == Settled(s, uid);
    }
  }

  lemma BackGrows(s: Session, t: Session, step: Step, uid: nat -> nat)
    requires UniqueUIDs(uid) && SessionOK(s, uid) && BackOK(s, uid) && step.HoldBack? && SessionStep(s, t, step, uid)
    ensures BackOK(t, uid)
  {
    var e := s.batch[0];
    NextDue(s, uid);
    HoldBackKeeps(s, t, step, uid);
    ChainSnoc(s.client, s.back, e, uid);
    UIDsOfSnoc(s.back, e);
    DenotedOneMore(s.held, e.update.expungeUID);
    NumSet.InsertedCanonical(s.held, One(e.update.expungeUID));
  }

  lemma UpdatesTail(es: seq<Entry>)
    requires es != []
    ensures Updates(es)[0] == es[0].update && Updates(es)[1..] == Updates(es[1..])
    ensures Updates(es)[0..] == Updates(es)
  {
  }

  lemma LogKept(s: Session, t: Session, step: Step, uid: nat -> nat)
    requires LogOK(s) && SessionStep(s, t, step, uid)
    ensures LogOK(t)
  {
    match step
    case Take(_, _, _) => NothingBefore(Written(Updates(t.taken), [], t.qresync));
    case HoldBack(_) => LogHeldBack(s, t, step, uid);
    case Flush(_) => LogFlushed(s, t, step, uid);
    case Write(_) => LogWritten(s, t, step, uid);
    case _ =>
  }

  lemma LogHeldBack(s: Session, t: Session, step: Step, uid: nat -> nat)
    requires LogOK(s) && step.HoldBack? && SessionStep(s, t, step, uid)
    ensures LogOK(t)
  {
    UpdatesTail(s.batch);
    WrittenNext(Updates(s.batch), 0, s.held, s.qresync);
  }

  lemma LogFlushed(s: Session, t: Session, step: Step, uid: nat -> nat)
    requires LogOK(s) && step.Flush? && SessionStep(s, t, step, uid)
    ensures LogOK(t)
  {
    var left := Written(Updates(s.batch), [], s.qresync);
    assert Written(Updates(s.batch), s.held, s.qresync) == [RespVanished(s.held)] + left by {
      if s.batch != [] {
        UpdatesTail(s.batch);
        WrittenNext(Updates(s.batch), 0, s.held, s.qresync);
        WrittenNext(Updates(s.batch), 0, [], s.qresync);
      }
    }
    AppendAll(s.log, [RespVanished(s.held)], left);
  }

  lemma LogWritten(s: Session, t: Session, step: Step, uid: nat -> nat)
    requires LogOK(s) && step.Write? && SessionStep(s, t, step, uid)
    ensures LogOK(t)
  {
    var r, left := Image(s.batch[0].update), Written(Updates(t.batch), [], s.qresync);
    UpdatesTail(s.batch);
    WrittenNext(Updates(s.batch), 0, [], s.qresync);
    assert Written(Updates(s.batch), [], s.qresync) == [r] + left;
    AppendAll(s.log, [r], left);
  }

  ghost predicate History(a: System, uid: nat -> nat) {
    forall sid :: sid in a.sessions ==> BackOK(a.sessions[sid], uid) && LogOK(a.sessions[sid])
  }

  lemma EnqueueHistory(s: Session, e: Entry, skip: bool, uid: nat -> nat)
    requires BackOK(s, uid) && LogOK(s) && Legal(e.before, e.update)
    ensures BackOK(Enqueue(s, e, skip), uid) && LogOK(Enqueue(s, e, skip))
  {
    assert Settled(Enqueue(s, e, skip), uid) == Settled(s, uid);
  }

  lemma NewHistory(server: View, uid: nat -> nat)
    ensures BackOK(NewSession(server), uid) && LogOK(NewSession(server))
  {
    BackNone(NewSession(server), uid);
  }

  lemma HistoryReplaced(a: System, b: System, sid: nat, t: Session, uid: nat -> nat)
    requires History(a, uid) && BackOK(t, uid) && LogOK(t) && b.sessions == a.sessions[sid := t]
    ensures History(b, uid)
  {
  }

  lemma LocalHistory(a: System, b: System, step: Step, uid: nat -> nat)
    requires UniqueUIDs(uid) && Inv(a, uid) && History(a, uid) && IsLocal(step) && SessionMoves(a, b, step, uid)
    ensures History(b, uid)
  {
    BackKept(a.sessions[step.sid], b.sessions[step.sid], step, uid);
    LogKept(a.sessions[step.sid], b.sessions[step.sid], step, uid);
    HistoryReplaced(a, b, step.sid, b.sessions[step.sid], uid);
  }

  lemma MailboxHistory(a: System, b: System, step: Step, uid: nat -> nat)
    requires History(a, uid) && !IsLocal(step) && MailboxMoves(a, b, step, uid)
    ensures History(b, uid)
  {
    if step.FanTo? {
      var f := a.fan.value;
      var t := Enqueue(a.sessions[step.sid], f.entry, f.source == Some(step.sid));
      EnqueueHistory(a.sessions[step.sid], f.entry, f.source == Some(step.sid), uid);
      HistoryReplaced(a, b, step.sid, t, uid);
    } else if step.Open? {
      NewHistory(a.server, uid);
      HistoryReplaced(a, b, step.sid, NewSession(a.server), uid);
    }
  }

  lemma {:induction false} RunHistory(states: seq<System>, steps: seq<Step>, uid: nat -> nat, i: nat)
    requires UniqueUIDs(uid) && Run(states, steps, uid) && i < |states|
    ensures History(states[i], uid)
    decreases i
  {
    if i > 0 {
      RunInv(states, steps, uid, i - 1);
      RunHistory(states, steps, uid, i - 1);
      assert Next(states[i - 1], states[i], steps[i - 1], uid);
      if IsLocal(steps[i - 1]) {
        LocalHistory(states[i - 1], states[i], steps[i - 1], uid);
      } else {
        MailboxHistory(states[i - 1], states[i], steps[i - 1], uid);
      }
    }
  }

  /** In every run, however the steps of the pollers are interleaved with the
      rest, a finished batch has been written exactly as Deliver writes it. */
  lemma WrittenAsDelivered(states: seq<System>, steps: seq<Step>, uid: nat -> nat, i: nat)
    requires UniqueUIDs(uid) && Run(states, steps, uid) && i < |steps| && steps[i].Unlock?
    ensures steps[i].sid in states[i].sessions
    ensures var s := states[i].sessions[steps[i].sid];
            s.log == Written(Updates(s.taken), [], s.qresync)
  {
    RunHistory(states, steps, uid, i);
    assert Next(states[i], states[i + 1], steps[i], uid);
    var s := states[i].sessions[steps[i].sid];
    assert Updates(s.batch) == [] && s.log + [] == s.log;
  }

  /** Expunges with a UID remove messages of the view they start from. */
  lemma {:induction false} ExpungedWereThere(v: View, es: seq<Entry>, uid: nat -> nat, e: Entry)
    requires Chain(v, es, uid) && e in es && (forall x :: x in es ==> x.update.Expunge? && x.update.expungeUID != 0)
    ensures exists m :: m in v.msgs && uid(m) == e.update.expungeUID
    decreases |es|
  {
    if e == es[0] {
      assert v.msgs[e.update.expunge - 1] in v.msgs;
    } else {
      var w := Apply(v, es[0].update);
      assert forall x :: x in es[1..] ==> x in es;
      ExpungedWereThere(w, es[1..], uid, e);
      var m :| m in w.msgs && uid(m) == e.update.expungeUID;
      assert m in v.msgs;
    }
  }

  lemma FlushMeant(s: Session, t: Session, step: Step, uid: nat -> nat)
    requires SessionOK(s, uid) && BackOK(s, uid) && step.Flush? && SessionStep(s, t, step, uid)
    ensures t.client == End(s.client, s.back, uid) && (s.batch != [] ==> t.client == s.batch[0].before)
  {
    if s.batch != [] {
      NextDue(s, uid);
    }
  }

  /** The entry was queued by the server, and its message is one the client has. */
  ghost predicate Meant(states: seq<System>, steps: seq<Step>, i: nat, c: View, e: Entry, uid: nat -> nat)
    requires |states| == |steps| + 1 && i < |states|
  {
    e.update.Expunge? && Queued(states, steps, i, e) && exists m :: m in c.msgs && uid(m) == e.update.expungeUID
  }

  lemma BackMeant(states: seq<System>, steps: seq<Step>, uid: nat -> nat, i: nat, s: Session)
    requires |states| == |steps| + 1 && i < |states| && BackOK(s, uid)
    requires forall e :: e in Entries(s) ==> Queued(states, steps, i, e)
    ensures forall e :: e in s.back ==> Meant(states, steps, i, s.client, e, uid)
  {
    forall e | e in s.back ensures Meant(states, steps, i, s.client, e, uid) {
      assert e in Entries(s);
      ExpungedWereThere(s.client, s.back, uid, e);
    }
  }

  /** In every run a VANISHED names exactly the UIDs of the expunges held back for
      it. The server queued each of them, and each is still in the client's view;
      without them the client has the view the next entry was queued in. */
  lemma VanishedAsMeant(states: seq<System>, steps: seq<Step>, uid: nat -> nat, i: nat)
    requires UniqueUIDs(uid) && Run(states, steps, uid) && i < |steps| && steps[i].Flush?
    ensures steps[i].sid in states[i].sessions && steps[i].sid in states[i + 1].sessions
    ensures var s, t := states[i].sessions[steps[i].sid], states[i + 1].sessions[steps[i].sid];
            && s.back != [] && Denoted(s.held) == UIDsOf(s.back)
            && (forall e :: e in s.back ==> Meant(states, steps, i, s.client, e, uid))
            && Chain(s.client, s.back, uid) && t.client == End(s.client, s.back, uid)
            && (s.batch != [] ==> t.client == s.batch[0].before)
  {
    RunInv(states, steps, uid, i);
    RunHistory(states, steps, uid, i);
    Provenance(states, steps, uid, i);
    assert Next(states[i], states[i + 1], steps[i], uid);
    var sid := steps[i].sid;
    BackMeant(states, steps, uid, i, states[i].sessions[sid]);
    FlushMeant(states[i].sessions[sid], states[i + 1].sessions[sid], steps[i], uid);
  }
}

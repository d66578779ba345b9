/** The budget for buffered FETCH data (imapclient/fetch.go): one reader that
    reserves bytes while it reads a response and may have to wait, and consumers
    that give back the bytes of messages handed over to them. */
module FetchBuffer {
  import opened Prelude

  // ---------------------------------------------------------------------
  // The shared counter
  // ---------------------------------------------------------------------

  /** `fetchBufInUse` and `fetchBufFreed`. Channels are numbered as they are
      made; those below `made` other than `freed` have been closed. */
  datatype Budget = Budget(inUse: int, freed: Option<nat>, made: nat)

  ghost predicate Closed(b: Budget, ch: nat) {
    ch < b.made && b.freed != Some(ch)
  }

  /** The bytes are taken if they fit. Otherwise nothing is taken and there is an
      open channel to wait on: the one others wait on, or a new one. */
  ghost predicate Asked(b: Budget, c: Budget, size: nat, limit: nat, wait: Option<nat>) {
    && (wait.None? <==> b.inUse + size <= limit)
    && c.inUse == (if wait.None? then b.inUse + size else b.inUse)
    && (wait.Some? ==> c.freed == wait)
    && (if wait.None? || b.freed.Some? then c.freed == b.freed && c.made == b.made
        else wait == Some(b.made) && c.made == b.made + 1)
  }

  /** The bytes are back, and no channel anyone could wait on is open. */
  ghost predicate GivenBack(b: Budget, c: Budget, size: nat) {
    c.inUse == b.inUse - size && c.made == b.made && c.freed.None?
  }

  /** The counter as the client keeps it: each method is one critical section. */
  class Shared {
    var inUse: int
    var freed: Option<nat>
    var made: nat

    function Value(): Budget
      reads this
    {
      Budget(inUse, freed, made)
    }

    /** One round of acquireFetchBuffer. */
    method Acquire(size: nat, limit: nat) returns (wait: Option<nat>)
      modifies this
      ensures Asked(old(Value()), Value(), size, limit, wait)
      ensures old(inUse) <= limit ==> inUse <= limit
      ensures wait.Some? && old(freed.Some? ==> freed.value < made) ==>
                wait.value < made && !Closed(Value(), wait.value)
    {
      if inUse + size <= limit {
        inUse := inUse + size;
        return None;
      }
      if freed.None? {
        freed := Some(made);
        made := made + 1;
      }
      wait := freed;
    }

    method GiveBack(size: nat)
      modifies this
      ensures GivenBack(old(Value()), Value(), size)
      ensures forall ch: nat :: ch < made ==> Closed(Value(), ch)
    {
      inUse := inUse - size;
      if freed.Some? {
        freed := None;
      }
    }
  }

  // ---------------------------------------------------------------------
  // Reader and consumers
  // ---------------------------------------------------------------------

  /** A message: what its `release` would give back, whether that is still set,
      and whether anybody was given the message. */
  datatype Message = Message(bytes: nat, release: bool, delivered: bool)

  /** The response being read: its message, `bufferedBytes`, `released` and
      `handled`. */
  datatype Response = Response(id: nat, buffered: nat, released: bool, handled: bool)

  datatype Reader =
    | Between
    | Reading(resp: Response)
    | Trying(resp: Response, size: nat)
    | Waiting(resp: Response, size: nat, ch: nat)
    | Failing(resp: Response)

  /** Message n belongs to the n-th response. `closed` is `closeCh`. */
  datatype State = State(limit: nat, closed: bool, budget: Budget, reader: Reader, messages: seq<Message>)

  datatype Step =
    | Begin
    | Reserve(size: nat)       // the per-response check passes
    | TooLarge(size: nat)      // it does not
    | Acquire                  // one round under the mutex
    | Woken                    // the channel waited on is closed
    | GiveUp                   // the client is closed while waiting
    | HandOver
    | HandOverFails            // the client is closed before anybody takes the message
    | End                      // the response ends, or has failed
    | AtEnd(id: nat)           // a call of next that finds no item left, by whoever makes it
    | Close

  /** handleMsg arms the message's release before it looks for a taker. */
  function Armed(s: State, delivered: bool): State
    requires s.reader.Reading? && s.reader.resp.id < |s.messages|
  {
    var r := s.reader.resp;
    var resp := r.(released := r.released || r.buffered > 0, handled := delivered);
    s.(reader := if delivered then Reading(resp) else Failing(resp),
       messages := s.messages[r.id := Message(r.buffered, r.buffered > 0, delivered)])
  }

  /** The items of the message have ended and somebody has it to find out. */
  ghost predicate Complete(s: State, id: nat) {
    id < |s.messages| && s.messages[id].delivered && (s.reader.Between? || s.reader.resp.id != id)
  }

  /** The bytes the reader itself owes back when the response ends. */
  ghost function Held(r: Reader): nat {
    if r.Between? || r.resp.released then 0 else r.resp.buffered
  }

  /** The step gives back the bytes of message id: the reader's deferred clean-up
      or the message's own release. */
  ghost predicate GivesBack(s: State, step: Step, id: nat) {
    || (step.End? && !s.reader.Between? && s.reader.resp.id == id && Held(s.reader) > 0)
    || (step == AtEnd(id) && id < |s.messages| && s.messages[id].release)
  }

  ghost predicate Next(s: State, t: State, step: Step) {
    match step
    case Begin =>
      && s.reader.Between?
      && t == s.(reader := Reading(Response(|s.messages|, 0, false, false)),
                 messages := s.messages + [Message(0, false, false)])
    case Reserve(size) =>
      && s.reader.Reading? && !s.reader.resp.handled && size <= s.limit - s.reader.resp.buffered
      && t == s.(reader := Trying(s.reader.resp, size))
    case TooLarge(size) =>
      && s.reader.Reading? && !s.reader.resp.handled && size > s.limit - s.reader.resp.buffered
      && t == s.(reader := Failing(s.reader.resp))
    case Acquire =>
      && s.reader.Trying?
      && var wait := if t.reader.Waiting? then Some(t.reader.ch) else None;
         var r := s.reader.resp;
         Asked(s.budget, t.budget, s.reader.size, s.limit, wait)
         && t == s.(budget := t.budget,
                    reader := if wait.None? then Reading(r.(buffered := r.buffered + s.reader.size))
                              else Waiting(r, s.reader.size, wait.value))
    case Woken =>
      s.reader.Waiting? && Closed(s.budget, s.reader.ch) && t == s.(reader := Trying(s.reader.resp, s.reader.size))
    case GiveUp => s.reader.Waiting? && s.closed && t == s.(reader := Failing(s.reader.resp))
    case HandOver =>
      s.reader.Reading? && !s.reader.resp.handled && s.reader.resp.id < |s.messages| && t == Armed(s, true)
    case HandOverFails =>
      s.reader.Reading? && !s.reader.resp.handled && s.reader.resp.id < |s.messages| && s.closed && t == Armed(s, false)
    case End =>
      && (s.reader.Reading? || s.reader.Failing?)
      && (if Held(s.reader) > 0 then GivenBack(s.budget, t.budget, Held(s.reader)) else t.budget == s.budget)
      && t == s.(budget := t.budget, reader := Between)
    case AtEnd(id) =>
      && Complete(s, id)
      && (if s.messages[id].release then GivenBack(s.budget, t.budget, s.messages[id].bytes) else t.budget == s.budget)
      && t == s.(budget := t.budget, messages := s.messages[id := s.messages[id].(release := false)])
    case Close => t == s.(closed := true)
  }

  ghost predicate Init(s: State) {
    s.reader.Between? && s.messages == [] && s.budget.inUse == 0 && s.budget.freed.None? && !s.closed
  }

  // ---------------------------------------------------------------------
  // The invariant
  // ---------------------------------------------------------------------

  /** The bytes whose release is still to come from the messages. */
  ghost function Sum(ms: seq<Message>): nat {
    if ms == [] then 0 else Sum(ms[..|ms| - 1]) + (if ms[|ms| - 1].release then ms[|ms| - 1].bytes else 0)
  }

  ghost predicate BudgetOK(s: State) {
    && s.budget.inUse == Held(s.reader) + Sum(s.messages)
    && s.budget.inUse <= s.limit
    && (s.budget.freed.Some? ==> s.budget.freed.value < s.budget.made)
  }

  /** Either the reader answers for the bytes or the message does. */
  ghost predicate ReaderOK(s: State) {
    !s.reader.Between? ==>
      var r := s.reader.resp;
      && r.id < |s.messages| && s.messages[r.id].release == r.released
      && (r.handled ==> r.released || r.buffered == 0)
      && (!r.handled && !s.reader.Failing? ==> !r.released)
  }

  ghost predicate WaitOK(s: State) {
    && (s.reader.Trying? || s.reader.Waiting? ==>
          !s.reader.resp.handled && s.reader.size <= s.limit - s.reader.resp.buffered)
    && (s.reader.Waiting? ==> s.reader.ch < s.budget.made)
    && (s.reader.Waiting? && !Closed(s.budget, s.reader.ch) ==> s.budget.inUse + s.reader.size > s.limit)
  }

  /** Only a closed client leaves bytes with a message nobody was given. */
  ghost predicate LostOnlyWhenClosed(s: State) {
    forall k :: 0 <= k < |s.messages| && s.messages[k].release && !s.messages[k].delivered ==> s.closed
  }

  ghost predicate Inv(s: State) {
    BudgetOK(s) && ReaderOK(s) && WaitOK(s) && LostOnlyWhenClosed(s)
  }

  ghost function HeldBy(m: Message): nat {
    if m.release then m.bytes else 0
  }

  lemma SumSnoc(ms: seq<Message>, m: Message)
    ensures Sum(ms + [m]) == Sum(ms) + HeldBy(m)
  {
    assert (ms + [m])[..|ms|] == ms;
  }

  lemma {:induction false} SumUpdate(ms: seq<Message>, k: nat, m: Message)
    requires k < |ms|
    ensures Sum(ms[k := m]) == Sum(ms) - HeldBy(ms[k]) + HeldBy(m)
    decreases |ms|
  {
    var n := |ms| - 1;
    if k == n {
      assert ms[k := m][..n] == ms[..n];
    } else {
      assert ms[k := m][..n] == ms[..n][k := m];
      SumUpdate(ms[..n], k, m);
    }
  }

  lemma {:induction false} SumNone(ms: seq<Message>)
    requires forall k :: 0 <= k < |ms| ==> !ms[k].release
    ensures Sum(ms) == 0
  {
    if ms != [] {
      SumNone(ms[..|ms| - 1]);
    }
  }

  lemma BeginKeeps(s: State, t: State)
    requires Inv(s) && Next(s, t, Begin)
    ensures Inv(t)
  {
    SumSnoc(s.messages, Message(0, false, false));
  }

  lemma ArmedKeeps(s: State, delivered: bool)
    requires Inv(s) && s.reader.Reading? && !s.reader.resp.handled && (delivered || s.closed)
    ensures Inv(Armed(s, delivered))
  {
    var r := s.reader.resp;
    SumUpdate(s.messages, r.id, Message(r.buffered, r.buffered > 0, delivered));
  }

  lemma AtEndKeeps(s: State, t: State, id: nat)
    requires Inv(s) && Next(s, t, AtEnd(id))
    ensures Inv(t)
  {
    SumUpdate(s.messages, id, s.messages[id].(release := false));
  }

  lemma ReaderKeeps(s: State, t: State, step: Step)
    requires Inv(s) && Next(s, t, step)
    requires !step.Begin? && !step.HandOver? && !step.HandOverFails? && !step.AtEnd?
    ensures Inv(t)
  {
  }

  lemma NextKeeps(s: State, t: State, step: Step)
    requires Inv(s) && Next(s, t, step)
    ensures Inv(t)
  {
    match step
    case Begin => BeginKeeps(s, t);
    case HandOver => ArmedKeeps(s, true);
    case HandOverFails => ArmedKeeps(s, false);
    case AtEnd(id) => AtEndKeeps(s, t, id);
    case _ => ReaderKeeps(s, t, step);
  }

  ghost predicate Run(states: seq<State>, steps: seq<Step>) {
    && |states| == |steps| + 1
    && Init(states[0])
    && forall i :: 0 <= i < |steps| ==> Next(states[i], states[i + 1], steps[i])
  }

  /** In every run the counter is the bytes of the response being read plus
      those of the messages not consumed yet, and never exceeds the limit; as
      long as the client is open, somebody has each of these messages. */
  lemma {:induction false} Conserved(states: seq<State>, steps: seq<Step>, i: nat)
    requires Run(states, steps) && i < |states|
    ensures Inv(states[i])
    ensures states[i].budget.inUse == Held(states[i].reader) + Sum(states[i].messages)
    ensures 0 <= states[i].budget.inUse <= states[i].limit
    ensures !states[i].closed ==>
              forall m :: m in states[i].messages && m.release ==> m.delivered
    decreases i
  {
    if i > 0 {
      Conserved(states, steps, i - 1);
      NextKeeps(states[i - 1], states[i], steps[i - 1]);
    }
  }

  // ---------------------------------------------------------------------
  // Waiting
  // ---------------------------------------------------------------------

  /** A reader never waits for its own bytes: once every message has given its
      bytes back, the next round of acquiring succeeds. */
  lemma NeverWaitsOnItself(s: State, t: State)
    requires Inv(s) && s.reader.Trying? && Next(s, t, Acquire)
    requires forall k :: 0 <= k < |s.messages| ==> !s.messages[k].release
    ensures t.reader.Reading? && t.reader.resp.buffered == s.reader.resp.buffered + s.reader.size
  {
    SumNone(s.messages);
  }

  /** Nor does it miss being woken: while its channel is open the bytes do not
      fit and some message still holds bytes. Unless the client is closed, which
      ends the wait, each such message can be read to its end, and that wakes
      the reader. */
  lemma WaitingIsJustified(s: State)
    requires Inv(s) && s.reader.Waiting? && !Closed(s.budget, s.reader.ch)
    ensures s.budget.inUse + s.reader.size > s.limit
    ensures exists id: nat :: id < |s.messages| && s.messages[id].release
    ensures forall id: nat :: id < |s.messages| && s.messages[id].release ==> s.closed || Complete(s, id)
    ensures forall id, t :: GivesBack(s, AtEnd(id), id) && Next(s, t, AtEnd(id)) ==> Closed(t.budget, t.reader.ch)
  {
    if forall id: nat :: id < |s.messages| ==> !s.messages[id].release {
      SumNone(s.messages);
      assert false;
    }
  }

  // ---------------------------------------------------------------------
  // Once only
  // ---------------------------------------------------------------------

  /** Nobody holds the bytes of the message, nor ever will again. */
  ghost predicate Spent(s: State, id: nat) {
    id < |s.messages| && !s.messages[id].release && (s.reader.Between? || s.reader.resp.id != id)
  }

  lemma SpentStays(s: State, t: State, step: Step, id: nat)
    requires Spent(s, id) && Next(s, t, step)
    ensures Spent(t, id)
  {
  }

  lemma {:induction false} SpentInRun(states: seq<State>, steps: seq<Step>, i: nat, j: nat, id: nat)
    requires Run(states, steps) && i <= j < |states| && Spent(states[i], id)
    ensures Spent(states[j], id)
    decreases j
  {
    if i < j {
      SpentInRun(states, steps, i, j - 1, id);
      SpentStays(states[j - 1], states[j], steps[j - 1], id);
    }
  }

  /** In every run at most one step gives back the bytes of a message: its
      release runs once however often the end of the message is found, and never
      as well as the reader's own clean-up. */
  lemma ReleasedOnce(states: seq<State>, steps: seq<Step>, i: nat, j: nat, id: nat)
    requires Run(states, steps) && i < j < |steps| && GivesBack(states[i], steps[i], id)
    ensures !GivesBack(states[j], steps[j], id)
  {
    Conserved(states, steps, i);
    assert Next(states[i], states[i + 1], steps[i]);
    assert Spent(states[i + 1], id);
    SpentInRun(states, steps, i + 1, j, id);
  }

  /** Giving back is the only way the counter goes down, and by what was held. */
  lemma OnlyGivenBack(s: State, t: State, step: Step)
    requires Inv(s) && Next(s, t, step) && t.budget.inUse < s.budget.inUse
    ensures exists id: nat ::
              && GivesBack(s, step, id)
              && s.budget.inUse - t.budget.inUse == if step.End? then Held(s.reader) else HeldBy(s.messages[id])
  {
    if step.End? {
      assert GivesBack(s, step, s.reader.resp.id);
    } else {
      assert step.AtEnd? && GivesBack(s, step, step.id);
    }
  }
}

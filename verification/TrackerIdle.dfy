/** How IDLE is woken (SessionTracker.queueUpdate and SessionTracker.Idle): a
    buffered channel, sends that are dropped when it is full, and one poll after
    the channel is registered. */
module TrackerIdle {
  import opened Prelude

  const CAPACITY: nat := 64

  /** Where an Idle call is. Draining: about to poll. Writing: the queue has been
      taken, the batch is being written. Waiting: in its select. */
  datatype Pc = Out | Draining | Writing | Waiting

  datatype State = State(
    queue: nat,                // how many updates are queued
    updates: Option<nat>,      // the registered channel
    pc: Pc,
    channel: nat,              // the channel of the current or last Idle call
    tokens: nat,               // what is buffered in it
    owed: multiset<nat>)       // channels that enqueuers have yet to signal

  datatype Step =
    | Append                   // an update is queued; the channel is read in the same critical section
    | Signal(channel: nat)     // the non-blocking send that follows it
    | OtherPoll(n: nat)        // another goroutine takes n updates
    | Begin                    // Idle registers a new channel
    | Refused                  // Idle finds another call registered
    | Poll                     // Idle takes the whole queue
    | Written
    | Wake                     // Idle receives a token
    | Stop

  ghost predicate Next(a: State, b: State, step: Step) {
    match step
    case Append =>
      b == a.(queue := a.queue + 1, owed := if a.updates.Some? then a.owed + multiset{a.updates.value} else a.owed)
    case Signal(ch) =>
      && a.owed[ch] > 0
      && b == a.(owed := a.owed - multiset{ch},
                 tokens := if ch == a.channel && a.tokens < CAPACITY then a.tokens + 1 else a.tokens)
    case OtherPoll(n) => n <= a.queue && b == a.(queue := a.queue - n)
    case Begin =>
      && a.pc.Out? && a.updates.None?
      && b == a.(updates := Some(a.channel + 1), channel := a.channel + 1, tokens := 0, pc := Draining)
    case Refused => a.updates.Some? && b == a
    case Poll => a.pc.Draining? && b == a.(queue := 0, pc := Writing)
    case Written => a.pc.Writing? && b == a.(pc := Waiting)
    case Wake => a.pc.Waiting? && a.tokens > 0 && b == a.(tokens := a.tokens - 1, pc := Draining)
    case Stop => a.pc.Waiting? && b == a.(updates := None, pc := Out)
  }

  ghost predicate Init(s: State) {
    s.updates.None? && s.pc.Out? && s.owed == multiset{} && s.tokens == 0
  }

  ghost predicate Inv(s: State) {
    && (s.pc.Out? <==> s.updates.None?)
    && (s.updates.Some? ==> s.updates.value == s.channel)
    && (forall ch :: ch in s.owed ==> ch <= s.channel)
    && s.tokens <= CAPACITY
    && ((s.pc.Waiting? || s.pc.Writing?) && s.queue > 0 ==> s.tokens > 0 || s.owed[s.channel] > 0)
  }

  lemma NextKeeps(a: State, b: State, step: Step)
    requires Inv(a) && Next(a, b, step)
    ensures Inv(b)
  {
  }

  ghost predicate Run(states: seq<State>, steps: seq<Step>) {
    && |states| == |steps| + 1
    && Init(states[0])
    && forall i :: 0 <= i < |steps| ==> Next(states[i], states[i + 1], steps[i])
  }

  /** In every run, an Idle that waits while updates are queued has a token in
      its channel, or an enqueuer is about to send one: no wake-up is lost to a
      full buffer, to an earlier Idle's channel or to an update queued before
      the channel was registered. */
  lemma {:induction false} NoLostWakeUp(states: seq<State>, steps: seq<Step>, i: nat)
    requires Run(states, steps) && i < |states|
    ensures Inv(states[i])
    ensures states[i].pc.Waiting? && states[i].queue > 0 ==>
              states[i].tokens > 0 || states[i].owed[states[i].channel] > 0
    decreases i
  {
    if i > 0 {
      NoLostWakeUp(states, steps, i - 1);
      NextKeeps(states[i - 1], states[i], steps[i - 1]);
    }
  }

  /** So it can always be woken: at most one pending send, one receive and one
      poll away from an empty queue, and back in its select. */
  lemma WakesUp(s: State) returns (steps: seq<Step>, states: seq<State>)
    requires Inv(s) && s.pc.Waiting? && s.queue > 0
    ensures |steps| <= 4 && |states| == |steps| + 1 && states[0] == s
    ensures forall i :: 0 <= i < |steps| ==> Next(states[i], states[i + 1], steps[i])
    ensures states[|steps|].pc.Waiting? && states[|steps|].queue == 0
  {
    var a := s;
    steps, states := [], [s];
    if s.tokens == 0 {
      a := s.(owed := s.owed - multiset{s.channel}, tokens := 1);
      steps, states := [Signal(s.channel)], [s, a];
    }
    var b := a.(tokens := a.tokens - 1, pc := Draining);
    var c := b.(queue := 0, pc := Writing);
    var d := c.(pc := Waiting);
    assert Next(a, b, Wake) && Next(b, c, Poll) && Next(c, d, Written);
    steps, states := steps + [Wake, Poll, Written], states + [b, c, d];
  }
}

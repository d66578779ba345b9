/** The graceful shutdown handshake between Server.Shutdown and the serve
    goroutine of each connection (imapserver/conn.go, imapserver/server.go). */
module Shutdown {
  import opened Prelude

  // ---------------------------------------------------------------------
  // The fields under the connection's mutex
  // ---------------------------------------------------------------------

  /** `idle`, `shuttingDown`, and whether the armed read deadline has passed. */
  datatype Gate = Gate(idle: bool, shuttingDown: bool, expired: bool)

  /** A connection that is waiting and has been asked to finish is woken. */
  ghost predicate Woken(g: Gate) {
    g.idle && g.shuttingDown ==> g.expired
  }

  /** Waiting begins unless the request is there already. */
  ghost predicate EntersIdle(g: Gate, h: Gate, ok: bool) {
    && (ok <==> !g.shuttingDown)
    && (h.idle <==> g.idle || ok)
    && h.shuttingDown == g.shuttingDown && h.expired == g.expired
  }

  /** Waiting is over; the input counts unless the request came meanwhile. */
  ghost predicate LeavesIdle(g: Gate, h: Gate, ok: bool) {
    && (ok <==> !g.shuttingDown)
    && !h.idle
    && h.shuttingDown == g.shuttingDown && h.expired == g.expired
  }

  /** The request is recorded, and ends the wait of a waiting connection only. */
  ghost predicate Requested(g: Gate, h: Gate) {
    && h.shuttingDown && h.idle == g.idle
    && (h.expired <==> g.expired || g.idle)
  }

  class Conn {
    var idle: bool
    var shuttingDown: bool
    var expired: bool

    ghost function Value(): Gate
      reads this
    {
      Gate(idle, shuttingDown, expired)
    }

    constructor ()
      ensures Value() == Gate(false, false, false)
    {
      idle, shuttingDown, expired := false, false, false;
    }

    method SetIdle() returns (ok: bool)
      modifies this
      ensures EntersIdle(old(Value()), Value(), ok)
      ensures ok ==> idle && !shuttingDown
      ensures old(Woken(Value())) ==> Woken(Value())
    {
      if shuttingDown {
        return false;
      }
      idle := true;
      ok := true;
    }

    method SetActive() returns (ok: bool)
      modifies this
      ensures LeavesIdle(old(Value()), Value(), ok)
      ensures Woken(Value())
    {
      idle := false;
      ok := !shuttingDown;
    }

    method RequestShutdown()
      modifies this
      ensures Requested(old(Value()), Value())
      ensures Woken(Value()) && idle == old(idle)
    {
      shuttingDown := true;
      if idle {
        expired := true;
      }
    }
  }

  // ---------------------------------------------------------------------
  // The serve goroutine
  // ---------------------------------------------------------------------

  /** Where a serve goroutine is. The second half of each pair of read states is
      the read having returned, before setActive. */
  datatype Pc =
    | Accepted                 // not registered yet
    | Greet                    // registered: creates the session and greets
    | Arm                      // top of the loop: arms the deadline
    | ToIdle                   // about to call setIdle
    | Read                     // blocked on the first byte of a command
    | ReadDone(eof: bool)
    | ArmCommand               // past setActive: arms the command's deadline
    | Command                  // processing one command
    | ArmIdle                  // an IDLE command: arms its deadline
    | ToIdleWait               // about to call setIdle
    | IdleRead                 // parked in IDLE, waiting for DONE
    | IdleReadDone
    | IdleEnd                  // DONE arrived: completes the IDLE command
    | SayBye                   // leaves the loop to send BYE
    | Exit                     // leaves the loop without one
    | Refused                  // found the server closed when registering

  /** A connection: `after` counts the commands completed after the request. */
  datatype Serving = Serving(pc: Pc, gate: Gate, after: nat)

  datatype Local =
    | DoGreet(ok: bool) | DoArm | DoLogout | DoSetIdle | DoRead(eof: bool) | DoSetActive | DoArmCommand
    | DoFinish | DoFail | DoStartIdle | DoArmIdle | DoInterrupt

  ghost function Finished(c: Serving, pc: Pc): Serving {
    c.(pc := pc, after := if c.gate.shuttingDown then c.after + 1 else c.after)
  }

  /** One step of a serve goroutine. */
  ghost predicate Advance(c: Serving, d: Serving, step: Local) {
    match step
    case DoGreet(ok) => c.pc.Greet? && d == c.(pc := if ok then Arm else Exit)
    case DoArm => c.pc.Arm? && d == c.(pc := ToIdle, gate := c.gate.(expired := false))
    case DoLogout => c.pc.ToIdle? && d == c.(pc := Exit)
    case DoSetIdle =>
      && (c.pc.ToIdle? || c.pc.ToIdleWait?)
      && var ok := !d.pc.SayBye?;
         EntersIdle(c.gate, d.gate, ok)
         && d == c.(gate := d.gate, pc := if !ok then SayBye else if c.pc.ToIdle? then Read else IdleRead)
    case DoRead(eof) =>
      (c.pc.Read? && d == c.(pc := ReadDone(eof))) || (c.pc.IdleRead? && d == c.(pc := IdleReadDone))
    case DoSetActive =>
      && (c.pc.ReadDone? || c.pc.IdleReadDone?)
      && exists ok ::
           && LeavesIdle(c.gate, d.gate, ok)
           && d == c.(gate := d.gate,
                      pc := if c.pc.IdleReadDone? then (if ok then IdleEnd else SayBye)
                            else if !ok then (if c.pc.eof then Exit else SayBye)
                            else if c.pc.eof then Exit
                            else ArmCommand)
    case DoArmCommand => c.pc.ArmCommand? && d == c.(pc := Command, gate := c.gate.(expired := false))
    case DoStartIdle => c.pc.Command? && d == c.(pc := ArmIdle)
    case DoArmIdle => c.pc.ArmIdle? && d == c.(pc := ToIdleWait, gate := c.gate.(expired := false))
    case DoInterrupt =>
      (c.pc.ToIdleWait? || c.pc.IdleRead? || c.pc.IdleReadDone?) && d == c.(gate := c.gate.(expired := true))
    case DoFinish =>
      || (c.pc.Command? && d == Finished(c, Arm))
      || (c.pc.IdleEnd? && d == Finished(c.(gate := c.gate.(expired := false)), Arm))
    case DoFail => (c.pc.Command? || c.pc.IdleEnd?) && d == Finished(c, Exit)
  }

  /** Past the loop. */
  ghost predicate Over(pc: Pc) {
    pc.SayBye? || pc.Exit? || pc.Refused?
  }

  ghost predicate ConnInv(c: Serving) {
    && (c.gate.idle <==> c.pc.Read? || c.pc.ReadDone? || c.pc.IdleRead? || c.pc.IdleReadDone?)
    && Woken(c.gate)
    && (!c.gate.shuttingDown ==> c.after == 0)
    && c.after <= 1
    && (c.after == 1 ==> c.pc.Arm? || c.pc.ToIdle? || Over(c.pc))
  }

  lemma AdvanceKeeps(c: Serving, d: Serving, step: Local)
    requires ConnInv(c) && Advance(c, d, step)
    ensures ConnInv(d)
  {
  }

  /** Only a registered connection takes steps, and none undoes the request. */
  lemma AdvanceServing(c: Serving, d: Serving, step: Local)
    requires Advance(c, d, step)
    ensures !c.pc.Accepted? && !Over(c.pc) && d.gate.shuttingDown == c.gate.shuttingDown
  {
  }

  lemma RequestKeeps(c: Serving, g: Gate)
    requires ConnInv(c) && Requested(c.gate, g)
    ensures ConnInv(c.(gate := g))
  {
  }

  /** How far a connection that has been asked to finish still is from the end
      of its loop. */
  ghost function Distance(pc: Pc): nat {
    match pc
    case ArmCommand => 10
    case Command => 9
    case ArmIdle => 8
    case ToIdleWait => 7
    case IdleRead => 6
    case IdleReadDone => 5
    case IdleEnd => 4
    case Greet => 4
    case Arm => 3
    case ToIdle => 2
    case Read => 2
    case ReadDone(_) => 1
    case _ => 0
  }

  lemma DistanceBound(pc: Pc)
    ensures Distance(pc) <= 10
  {
  }

  /** Once asked, every step a connection takes (other than an interrupted read)
      brings it closer to its end, and it starts no further command. */
  lemma AskedFinishes(c: Serving, d: Serving, step: Local)
    requires c.gate.shuttingDown && Advance(c, d, step) && !step.DoInterrupt?
    ensures d.gate.shuttingDown && Distance(d.pc) < Distance(c.pc) && !d.pc.ArmCommand?
  {
  }

  // ---------------------------------------------------------------------
  // The server
  // ---------------------------------------------------------------------

  /** `closed` and `conns`; `asking` is Shutdown's critical section, with the
      connections it has yet to ask. */
  datatype Server = Server(closed: bool, conns: set<nat>, all: map<nat, Serving>, asking: Option<set<nat>>, asked: bool)

  datatype Step =
    | Accept(id: nat)
    | Register(id: nat)
    | Unregister(id: nat)
    | Serve(id: nat, local: Local)
    | BeginShutdown
    | Ask(id: nat)
    | EndShutdown
    | Close

  ghost predicate Next(a: Server, b: Server, step: Step) {
    match step
    case Accept(id) => id !in a.all && b == a.(all := a.all[id := Serving(Accepted, Gate(false, false, false), 0)])
    case Register(id) =>
      && a.asking.None? && id in a.all && a.all[id].pc.Accepted?
      && (if a.closed then b == a.(all := a.all[id := a.all[id].(pc := Refused)])
          else b == a.(conns := a.conns + {id}, all := a.all[id := a.all[id].(pc := Greet)]))
    case Unregister(id) =>
      a.asking.None? && id in a.conns && id in a.all && Over(a.all[id].pc) && b == a.(conns := a.conns - {id})
    case Serve(id, local) =>
      id in a.all && id in b.all && Advance(a.all[id], b.all[id], local) && b == a.(all := a.all[id := b.all[id]])
    case BeginShutdown => a.asking.None? && !a.closed && b == a.(closed := true, asking := Some(a.conns))
    case Ask(id) =>
      && a.asking.Some? && id in a.asking.value && id in a.all && id in b.all
      && Requested(a.all[id].gate, b.all[id].gate)
      && b == a.(asking := Some(a.asking.value - {id}), all := a.all[id := a.all[id].(gate := b.all[id].gate)])
    case EndShutdown => a.asking.Some? && a.asking.value == {} && b == a.(asking := None, asked := true)
    case Close => a.asking.None? && !a.closed && b == a.(closed := true)
  }

  ghost predicate Init(s: Server) {
    s == Server(false, {}, map[], None, false)
  }

  ghost predicate Inv(s: Server) {
    && s.conns <= s.all.Keys
    && (forall id :: id in s.all ==> ConnInv(s.all[id]))
    && (forall id :: id in s.all && id !in s.conns ==> s.all[id].pc.Accepted? || Over(s.all[id].pc))
    && (s.asked || s.asking.Some? ==> s.closed)
    && !(s.asked && s.asking.Some?)
    && (s.asking.Some? ==> s.asking.value <= s.conns)
    && (s.asking.Some? ==> forall id :: id in s.conns - s.asking.value ==> s.all[id].gate.shuttingDown)
    && (s.asked ==> forall id :: id in s.conns ==> s.all[id].gate.shuttingDown)
  }

  lemma ServeKeeps(a: Server, b: Server, step: Step)
    requires Inv(a) && Next(a, b, step) && step.Serve?
    ensures Inv(b)
  {
    var id, c, d := step.id, a.all[step.id], b.all[step.id];
    AdvanceKeeps(c, d, step.local);
    AdvanceServing(c, d, step.local);
    ReplacedKeeps(a, id, d);
  }

  lemma ReplacedKeeps(a: Server, id: nat, d: Serving)
    requires Inv(a) && id in a.conns && ConnInv(d) && d.gate.shuttingDown == a.all[id].gate.shuttingDown
    ensures Inv(a.(all := a.all[id := d]))
  {
  }

  lemma RegistryKeeps(a: Server, b: Server, step: Step)
    requires Inv(a) && Next(a, b, step) && (step.Accept? || step.Register? || step.Unregister?)
    ensures Inv(b)
  {
  }

  lemma ShutdownKeeps(a: Server, b: Server, step: Step)
    requires Inv(a) && Next(a, b, step) && (step.BeginShutdown? || step.Ask? || step.EndShutdown? || step.Close?)
    ensures Inv(b)
  {
    if step.Ask? {
      RequestKeeps(a.all[step.id], b.all[step.id].gate);
    }
  }

  lemma NextKeeps(a: Server, b: Server, step: Step)
    requires Inv(a) && Next(a, b, step)
    ensures Inv(b)
  {
    match step
    case Serve(_, _) => ServeKeeps(a, b, step);
    case Accept(_) => RegistryKeeps(a, b, step);
    case Register(_) => RegistryKeeps(a, b, step);
    case Unregister(_) => RegistryKeeps(a, b, step);
    case _ => ShutdownKeeps(a, b, step);
  }

  ghost predicate Run(states: seq<Server>, steps: seq<Step>) {
    && |states| == |steps| + 1
    && Init(states[0])
    && forall i :: 0 <= i < |steps| ==> Next(states[i], states[i + 1], steps[i])
  }

  /** In every run: an idle connection that has been asked to finish is blocked
      on an expired deadline; at most one command completes after the request;
      and once Shutdown's critical section is over, every registered connection
      has been asked and none can register. */
  lemma {:induction false} GracefulInRun(states: seq<Server>, steps: seq<Step>, i: nat)
    requires Run(states, steps) && i < |states|
    ensures Inv(states[i])
    ensures forall id :: id in states[i].all ==> Woken(states[i].all[id].gate) && states[i].all[id].after <= 1
    ensures states[i].asked ==>
              states[i].closed && forall id :: id in states[i].conns ==> states[i].all[id].gate.shuttingDown
    decreases i
  {
    if i > 0 {
      GracefulInRun(states, steps, i - 1);
      NextKeeps(states[i - 1], states[i], steps[i - 1]);
    }
  }

  /** From then on the set of registered connections only shrinks. */
  lemma NoneRegisterLater(a: Server, b: Server, step: Step)
    requires Inv(a) && a.closed && Next(a, b, step)
    ensures b.closed && b.conns <= a.conns
  {
  }

  lemma {:induction false} ClosedForGood(states: seq<Server>, steps: seq<Step>, i: nat, j: nat)
    requires Run(states, steps) && i <= j < |states| && states[i].closed
    ensures states[j].closed && states[j].conns <= states[i].conns
    decreases j
  {
    if i < j {
      ClosedForGood(states, steps, i, j - 1);
      GracefulInRun(states, steps, j - 1);
      NoneRegisterLater(states[j - 1], states[j], steps[j - 1]);
    }
  }

  ghost predicate OwnStep(step: Step, id: nat) {
    step.Serve? && step.id == id && !step.local.DoInterrupt?
  }

  /** How many steps connection id itself takes between two states. */
  ghost function OwnSteps(steps: seq<Step>, id: nat, i: nat, j: nat): nat
    requires i <= j <= |steps|
    decreases j
  {
    if i == j then 0
    else OwnSteps(steps, id, i, j - 1) + (if OwnStep(steps[j - 1], id) then 1 else 0)
  }

  lemma StepCloser(a: Server, b: Server, step: Step, id: nat)
    requires Next(a, b, step) && id in a.all && a.all[id].gate.shuttingDown && !a.all[id].pc.Accepted?
    ensures id in b.all && b.all[id].gate.shuttingDown && !b.all[id].pc.Accepted?
    ensures Distance(b.all[id].pc) + (if OwnStep(step, id) then 1 else 0) <= Distance(a.all[id].pc)
  {
    if OwnStep(step, id) {
      AskedFinishes(a.all[id], b.all[id], step.local);
    }
  }

  /** A registered connection is past registration. */
  lemma {:induction false} AskedAreServing(states: seq<Server>, steps: seq<Step>, i: nat, id: nat)
    requires Run(states, steps) && i < |states| && id in states[i].conns
    ensures id in states[i].all && !states[i].all[id].pc.Accepted?
    decreases i
  {
    if i > 0 {
      assert Next(states[i - 1], states[i], steps[i - 1]);
      if id in states[i - 1].conns {
        AskedAreServing(states, steps, i - 1, id);
      }
    }
  }

  /** In every run, a connection that has been asked to finish is out of its
      loop after at most ten more steps of its own. */
  lemma {:induction false} FinishesSoon(states: seq<Server>, steps: seq<Step>, i: nat, j: nat, id: nat)
    requires Run(states, steps) && i <= j < |states|
    requires id in states[i].all && id in states[i].conns && states[i].all[id].gate.shuttingDown
    ensures id in states[j].all && states[j].all[id].gate.shuttingDown
    ensures !states[j].all[id].pc.Accepted?
    ensures Distance(states[j].all[id].pc) + OwnSteps(steps, id, i, j) <= 10
    decreases j
  {
    if i == j {
      AskedAreServing(states, steps, i, id);
      DistanceBound(states[i].all[id].pc);
    } else {
      FinishesSoon(states, steps, i, j - 1, id);
      assert Next(states[j - 1], states[j], steps[j - 1]);
      StepCloser(states[j - 1], states[j], steps[j - 1], id);
    }
  }
}

/**
 The debugger component's loop over packets and its fault handler
 (examples/microkit_sddf_serial/apps/debugger/debugger.c), between the points where
 it waits for input: when do registered threads run?
 */
module EventLoop {
  import opened Options
  import opened Kernel
  import opened Debugger
  import HD = HardwareDebug
  import VC = Vcont
  import opened Runs

  /** Packets by what gdb_handle_packet does. */
  datatype Packet =
    | Interrupt                             // the ctrl-C character
    | VCont(actions: seq<VC.Action>)
    | Detach
    | ReadRegs
    | WriteRegs
    | WriteMemory(spaces: Spaces)
    | Breakpoint(op: Op)                    // Z and z packets
    | SelectThread(slot: Slot)
    | Query                                 // changes nothing

  datatype Phase = AwaitPacket | AwaitAck(resume: bool)

  /** `stopped`: suspended since the last vCont or D. `faulted`: a stop reply is
      waiting for its acknowledgement, and the loop gets no input. */
  datatype Loop = Loop(s: State, detached: bool, phase: Phase, faulted: bool, stopped: bool)

  datatype Event =
    | Receive(packet: Packet)
    | Ack(plus: bool)
    | Fault(i: nat, j: nat)
    | FaultAck(plus: bool)

  ghost predicate NoneRunning(s: State) {
    forall i, j :: Live(s.inferiors, i, j) && TcbAt(s.inferiors, i, j) in s.machine.tcbs ==>
      !s.machine.tcbs[TcbAt(s.inferiors, i, j)].running
  }

  ghost predicate AllRunning(s: State) {
    forall i, j :: Live(s.inferiors, i, j) ==>
      TcbAt(s.inferiors, i, j) in s.machine.tcbs && s.machine.tcbs[TcbAt(s.inferiors, i, j)].running
  }

  predicate IsBreakpointOp(op: Op) {
    op.SetBreak? || op.UnsetBreak? || op.SetWatch? || op.UnsetWatch? || op.SetSoft? || op.UnsetSoft?
  }

  /** The thread packets act on. */
  predicate HasTarget(s: State) {
    s.target.Some? && s.target.value.i < |s.inferiors| && s.target.value.j < |s.inferiors[s.target.value.i].threads|
  }

  function TargetTcb(s: State): nat
    requires HasTarget(s)
  {
    s.inferiors[s.target.value.i].threads[s.target.value.j].tcb
  }

  ghost predicate PacketOk(s: State, p: Packet, nb: nat, nw: nat) {
    match p
    case Breakpoint(op) => IsBreakpointOp(op) && Allowed(s, op, nb, nw)
    case WriteMemory(spaces) => ValidSpaces(spaces)
    case SelectThread(slot) => slot.i < |s.inferiors| && slot.j < |s.inferiors[slot.i].threads|
    case ReadRegs => HasTarget(s)
    case WriteRegs => HasTarget(s)
    case _ => true
  }

  /** seL4_TCB_ReadRegisters suspends its thread, seL4_TCB_WriteRegisters resumes it. */
  function CallTarget(s: State, call: Call): State
    requires HasTarget(s)
  {
    s.(machine := s.machine.(tcbs := OnAll(s.machine.tcbs, {TargetTcb(s)}, call)))
  }

  function HandlePacket(s: State, p: Packet, nb: nat, nw: nat): State
    requires Good(s, nb, nw) && PacketOk(s, p, nb, nw)
  {
    match p
    case VCont(actions) => VC.Apply(s, actions)
    case Detach => Debugger.Detach(s)
    case ReadRegs => CallTarget(s, Suspend)
    case WriteRegs => CallTarget(s, Resume)
    case WriteMemory(spaces) => s.(machine := s.machine.(spaces := spaces))
    case Breakpoint(op) => After(s, op, nb, nw)
    case SelectThread(slot) => s.(target := Some(slot))
    case Interrupt => s
    case Query => s
  }

  /** The state in which a packet is handled: suspended first after a detach or on ctrl-C. */
  function Prepared(l: Loop, p: Packet): State {
    if l.detached || p.Interrupt? then SuspendSystem(l.s) else l.s
  }

  lemma PreparedGood(l: Loop, p: Packet, nb: nat, nw: nat)
    requires Good(l.s, nb, nw)
    ensures Good(Prepared(l, p), nb, nw)
  {
  }

  ghost predicate Enabled(l: Loop, e: Event, nb: nat, nw: nat) {
    Good(l.s, nb, nw) &&
    match e
    case Receive(p) => l.phase.AwaitPacket? && !l.faulted && PacketOk(Prepared(l, p), p, nb, nw)
    case Ack(_) => l.phase.AwaitAck? && !l.faulted
    // Only a running thread can fault.
    case Fault(i, j) =>
      && Live(l.s.inferiors, i, j)
      && TcbAt(l.s.inferiors, i, j) in l.s.machine.tcbs && l.s.machine.tcbs[TcbAt(l.s.inferiors, i, j)].running
    case FaultAck(_) => l.faulted
  }

  ghost function Step(l: Loop, e: Event, nb: nat, nw: nat): Loop
    requires Enabled(l, e, nb, nw)
  {
    match e
    case Receive(p) =>
      PreparedGood(l, p, nb, nw);
      var s := Prepared(l, p);
      var r := HandlePacket(s, p, nb, nw);
      var stopped := (l.stopped || l.detached || p.Interrupt?) && !p.VCont? && !p.Detach?;
      if p.VCont? then Loop(ResumeSystem(r), false, AwaitPacket, l.faulted, stopped)
      else Loop(r, p.Detach?, AwaitAck(p.Detach?), l.faulted, stopped)
    case Ack(plus) =>
      // Without a plus the reply is sent again.
      if !plus then l
      else l.(s := if l.phase.resume then ResumeSystem(l.s) else l.s, phase := AwaitPacket)
    case Fault(i, j) =>
      l.(s := SuspendSystem(l.s).(target := Some(Slot(i, j))), faulted := true, stopped := true)
    case FaultAck(plus) =>
      if plus then l.(faulted := false) else l
  }

  /** The promise: since the last suspension no registered thread has started. */
  ghost predicate StopSafe(l: Loop) {
    l.stopped ==> NoneRunning(l.s)
  }

  /** What every step keeps, the ones that break the promise included: while the reply to
      D waits for its acknowledgement, all threads are marked to wake, and a suspension
      can only have come from a live thread's fault. */
  ghost predicate LoopInv(l: Loop, nb: nat, nw: nat) {
    && Good(l.s, nb, nw)
    && (l.phase == AwaitAck(true) ==> AllWaking(l.s))
    && (l.phase == AwaitAck(true) && l.stopped ==> AnyLive(l.s))
  }

  ghost predicate AllWaking(s: State) {
    forall i, j :: Live(s.inferiors, i, j) ==> s.inferiors[i].threads[j].wakeup
  }

  ghost predicate AnyLive(s: State) {
    exists i, j :: Live(s.inferiors, i, j)
  }

  // ---------------------------------------------------------------------------
  // What the steps do to the running bits

  /** Calls that neither start nor stop anything. */
  ghost predicate SameRunning(s: State, r: State) {
    && (forall i, j :: Live(r.inferiors, i, j) ==>
          Live(s.inferiors, i, j) && TcbAt(r.inferiors, i, j) == TcbAt(s.inferiors, i, j))
    && r.machine.tcbs.Keys == s.machine.tcbs.Keys
    && forall t :: t in s.machine.tcbs ==> r.machine.tcbs[t].running == s.machine.tcbs[t].running
  }

  lemma SameRunningStops(s: State, r: State)
    requires SameRunning(s, r) && NoneRunning(s)
    ensures NoneRunning(r)
  {
  }

  lemma BreakpointRunning(s: State, op: Op, nb: nat, nw: nat)
    requires Good(s, nb, nw) && IsBreakpointOp(op) && Allowed(s, op, nb, nw)
    ensures SameRunning(s, After(s, op, nb, nw))
  {
    if op.SetSoft? || op.UnsetSoft? {
      SoftRunning(s, op, nb, nw);
    } else if op.SetBreak? || op.UnsetBreak? {
      BreakRunning(s, op, nb, nw);
    } else {
      WatchRunning(s, op, nb, nw);
    }
  }

  lemma SoftRunning(s: State, op: Op, nb: nat, nw: nat)
    requires Good(s, nb, nw) && (op.SetSoft? || op.UnsetSoft?) && Allowed(s, op, nb, nw)
    ensures SameRunning(s, After(s, op, nb, nw))
  {
  }

  lemma BreakRunning(s: State, op: Op, nb: nat, nw: nat)
    requires Good(s, nb, nw) && (op.SetBreak? || op.UnsetBreak?) && Allowed(s, op, nb, nw)
    ensures SameRunning(s, After(s, op, nb, nw))
  {
    TablesRunning(s, op.i, After(s, op, nb, nw));
  }

  lemma WatchRunning(s: State, op: Op, nb: nat, nw: nat)
    requires Good(s, nb, nw) && (op.SetWatch? || op.UnsetWatch?) && Allowed(s, op, nb, nw)
    ensures SameRunning(s, After(s, op, nb, nw))
  {
    TablesRunning(s, op.i, After(s, op, nb, nw));
  }

  lemma TablesRunning(s: State, i: nat, r: State)
    requires i < |s.inferiors| && |r.inferiors| == |s.inferiors|
    requires forall k :: 0 <= k < |s.inferiors| && k != i ==> r.inferiors[k] == s.inferiors[k]
    requires r.inferiors[i].enabled == s.inferiors[i].enabled && r.inferiors[i].threads == s.inferiors[i].threads
    requires r.machine.tcbs.Keys == s.machine.tcbs.Keys
    requires forall t :: t in s.machine.tcbs ==> r.machine.tcbs[t].running == s.machine.tcbs[t].running
    ensures SameRunning(s, r)
  {
  }

  /** Every packet that is not a resumption leaves a stopped system stopped, except
      writing the registers of a live target. */
  lemma HandlePacketKeeps(s: State, p: Packet, nb: nat, nw: nat)
    requires Good(s, nb, nw) && PacketOk(s, p, nb, nw)
    ensures Good(HandlePacket(s, p, nb, nw), nb, nw)
    ensures NoneRunning(s) && !p.WriteRegs? ==> NoneRunning(HandlePacket(s, p, nb, nw))
  {
    var r := HandlePacket(s, p, nb, nw);
    match p
    case VCont(actions) =>
      AfterGood(s, Continue(actions), nb, nw);
      VContRunning(s, actions, nb, nw);
    case Detach =>
      AfterGood(s, DetachAll, nb, nw);
      DetachRunning(s, nb, nw);
    case Breakpoint(op) =>
      BreakpointCounters(s, op, nb, nw);
      AfterGood(s, op, nb, nw);
      BreakpointRunning(s, op, nb, nw);
    case ReadRegs => CallTargetKeeps(s, Suspend, nb, nw);
    case WriteRegs => CallTargetKeeps(s, Resume, nb, nw);
    case WriteMemory(spaces) => OnlyTcbsMatter(s, r, nb, nw);
    case SelectThread(slot) => OnlyTcbsMatter(s, r, nb, nw);
    case Interrupt =>
    case Query =>
  }

  lemma BreakpointCounters(s: State, op: Op, nb: nat, nw: nat)
    requires Good(s, nb, nw) && IsBreakpointOp(op) && Allowed(s, op, nb, nw)
    ensures CountersFit(After(s, op, nb, nw))
  {
  }

  lemma OnlyTcbsMatter(s: State, r: State, nb: nat, nw: nat)
    requires Good(s, nb, nw) && r == s.(target := r.target, machine := r.machine)
    requires r.machine.tcbs == s.machine.tcbs && ValidSpaces(r.machine.spaces)
    ensures Good(r, nb, nw) && SameRunning(s, r)
  {
  }

  lemma CallTargetKeeps(s: State, call: Call, nb: nat, nw: nat)
    requires Good(s, nb, nw) && HasTarget(s) && (call.Suspend? || call.Resume?)
    ensures Good(CallTarget(s, call), nb, nw)
    ensures call.Suspend? && NoneRunning(s) ==> NoneRunning(CallTarget(s, call))
  {
  }

  lemma VContRunning(s: State, actions: seq<VC.Action>, nb: nat, nw: nat)
    requires Inv(s, nb, nw)
    ensures SameRunning(s, VC.Apply(s, actions))
  {
  }

  lemma DetachRunning(s: State, nb: nat, nw: nat)
    requires Inv(s, nb, nw)
    ensures SameRunning(s, Debugger.Detach(s))
  {
  }

  lemma SuspendStops(s: State, nb: nat, nw: nat)
    requires Good(s, nb, nw)
    ensures Good(SuspendSystem(s), nb, nw) && NoneRunning(SuspendSystem(s))
  {
  }

  // ---------------------------------------------------------------------------
  // Stop safety

  /** The TCB a G packet acts on is that of an enabled thread. */
  predicate TargetLive(s: State) {
    HasTarget(s) && TargetTcb(s) in LiveTcbs(s.inferiors)
  }

  /** The two steps that break the promise: the acknowledgement of a D when a fault has
      suspended the system since, and a G packet for a live thread of a suspended one. */
  predicate Breaks(l: Loop, e: Event) {
    || (e == Ack(true) && l.phase == AwaitAck(true) && l.stopped)
    || (e.Receive? && e.packet.WriteRegs? && (l.stopped || l.detached) && TargetLive(l.s))
  }

  /** The system is suspended while the reply to D waits exactly from a fault in that
      phase on, until the acknowledgement. */
  lemma SuspendedInAck(l: Loop, e: Event, nb: nat, nw: nat)
    requires Enabled(l, e, nb, nw)
    ensures var r := Step(l, e, nb, nw);
            r.phase == AwaitAck(true) && r.stopped <==>
            l.phase == AwaitAck(true) && (e.Fault? || (l.stopped && e != Ack(true)))
  {
  }

  lemma StepKeepsInv(l: Loop, e: Event, nb: nat, nw: nat)
    requires LoopInv(l, nb, nw) && Enabled(l, e, nb, nw)
    ensures LoopInv(Step(l, e, nb, nw), nb, nw)
  {
    match e
    case Receive(p) => ReceiveKeepsInv(l, p, nb, nw);
    case Ack(plus) =>
      AfterGood(l.s, ResumeAll, nb, nw);
    case Fault(i, j) =>
      SuspendStops(l.s, nb, nw);
      OnlyTcbsMatter(SuspendSystem(l.s), Step(l, e, nb, nw).s, nb, nw);
      assert Live(Step(l, e, nb, nw).s.inferiors, i, j);
    case FaultAck(_) =>
  }

  lemma ReceiveKeepsInv(l: Loop, p: Packet, nb: nat, nw: nat)
    requires LoopInv(l, nb, nw) && Enabled(l, Receive(p), nb, nw)
    ensures LoopInv(Step(l, Receive(p), nb, nw), nb, nw)
  {
    var s := Prepared(l, p);
    PreparedGood(l, p, nb, nw);
    HandlePacketKeeps(s, p, nb, nw);
    match p {
      case VCont(_) => AfterGood(HandlePacket(s, p, nb, nw), ResumeAll, nb, nw);
      case Detach => DetachWakes(s, nb, nw);
      case _ =>
    }
  }

  lemma DetachWakes(s: State, nb: nat, nw: nat)
    requires Inv(s, nb, nw)
    ensures AllWaking(Debugger.Detach(s))
  {
    HD.DetachKeeps(s, nb, nw);
  }

  /** A step keeps the promise exactly when it is neither of the two. */
  lemma StepKeepsExactly(l: Loop, e: Event, nb: nat, nw: nat)
    requires LoopInv(l, nb, nw) && StopSafe(l) && Enabled(l, e, nb, nw)
    ensures StopSafe(Step(l, e, nb, nw)) <==> !Breaks(l, e)
  {
    match e
    case Receive(p) => ReceiveKeepsExactly(l, p, nb, nw);
    case Ack(plus) =>
      if Breaks(l, e) {
        AckResumes(l, nb, nw);
      }
    case Fault(i, j) =>
      SuspendStops(l.s, nb, nw);
      OnlyTcbsMatter(SuspendSystem(l.s), Step(l, e, nb, nw).s, nb, nw);
      SameRunningStops(SuspendSystem(l.s), Step(l, e, nb, nw).s);
    case FaultAck(_) =>
  }

  lemma AckResumes(l: Loop, nb: nat, nw: nat)
    requires LoopInv(l, nb, nw) && l.phase == AwaitAck(true) && l.stopped
    ensures !NoneRunning(ResumeSystem(l.s))
  {
    WokenRun(l.s, nb, nw);
    var i, j :| Live(l.s.inferiors, i, j);
    assert Live(ResumeSystem(l.s).inferiors, i, j);
  }

  lemma ReceiveKeepsExactly(l: Loop, p: Packet, nb: nat, nw: nat)
    requires LoopInv(l, nb, nw) && StopSafe(l) && Enabled(l, Receive(p), nb, nw)
    ensures StopSafe(Step(l, Receive(p), nb, nw)) <==> !Breaks(l, Receive(p))
  {
    if !p.VCont? && !p.Detach? && (l.stopped || l.detached || p.Interrupt?) {
      PreparedStops(l, p, nb, nw);
      HandledStops(Prepared(l, p), p, nb, nw);
    }
  }

  /** A packet other than vCont and D in a suspended system. */
  lemma HandledStops(s: State, p: Packet, nb: nat, nw: nat)
    requires Good(s, nb, nw) && PacketOk(s, p, nb, nw) && NoneRunning(s)
    ensures NoneRunning(HandlePacket(s, p, nb, nw)) <==> !(p.WriteRegs? && TargetLive(s))
  {
    if p.WriteRegs? {
      WriteRegsRuns(s, nb, nw);
    } else {
      HandlePacketKeeps(s, p, nb, nw);
    }
  }

  lemma PreparedStops(l: Loop, p: Packet, nb: nat, nw: nat)
    requires Good(l.s, nb, nw) && StopSafe(l) && (l.stopped || l.detached || p.Interrupt?)
    ensures Good(Prepared(l, p), nb, nw) && NoneRunning(Prepared(l, p))
    ensures Prepared(l, p).inferiors == l.s.inferiors && Prepared(l, p).target == l.s.target
  {
    SuspendStops(l.s, nb, nw);
  }

  lemma WriteRegsRuns(s: State, nb: nat, nw: nat)
    requires Good(s, nb, nw) && HasTarget(s) && NoneRunning(s)
    ensures NoneRunning(CallTarget(s, Resume)) <==> !TargetLive(s)
  {
  }

  ghost predicate RunEnabled(l: Loop, events: seq<Event>, nb: nat, nw: nat)
    decreases |events|
  {
    events == [] || (Enabled(l, events[0], nb, nw) && RunEnabled(Step(l, events[0], nb, nw), events[1..], nb, nw))
  }

  ghost predicate NeverBreaks(l: Loop, events: seq<Event>, nb: nat, nw: nat)
    requires RunEnabled(l, events, nb, nw)
    decreases |events|
  {
    events == [] || (!Breaks(l, events[0]) && NeverBreaks(Step(l, events[0], nb, nw), events[1..], nb, nw))
  }

  /** What init leaves: all registered, all suspended, waiting for the first packet. */
  function Initial(s: State): Loop {
    Loop(SuspendSystem(s), false, AwaitPacket, false, true)
  }

  lemma InitialStops(s: State, nb: nat, nw: nat)
    requires Good(s, nb, nw)
    ensures LoopInv(Initial(s), nb, nw) && StopSafe(Initial(s))
  {
    SuspendStops(s, nb, nw);
  }

  /** Every state of a run keeps the promise. */
  ghost predicate AlwaysStopSafe(l: Loop, events: seq<Event>, nb: nat, nw: nat)
    requires RunEnabled(l, events, nb, nw)
    decreases |events|
  {
    StopSafe(l) && (events == [] || AlwaysStopSafe(Step(l, events[0], nb, nw), events[1..], nb, nw))
  }

  /** Stop safety: after each suspension no registered thread runs until the next vCont
      or D, in every state of a run from init, exactly when no step of the run is one of
      the two. */
  lemma {:induction false} StopSafety(l: Loop, events: seq<Event>, nb: nat, nw: nat)
    requires LoopInv(l, nb, nw) && StopSafe(l) && RunEnabled(l, events, nb, nw)
    ensures AlwaysStopSafe(l, events, nb, nw) <==> NeverBreaks(l, events, nb, nw)
    decreases |events|
  {
    if events != [] {
      StepKeepsExactly(l, events[0], nb, nw);
      StepKeepsInv(l, events[0], nb, nw);
      if !Breaks(l, events[0]) {
        StopSafety(Step(l, events[0], nb, nw), events[1..], nb, nw);
      } else {
        NotSafeNow(Step(l, events[0], nb, nw), events[1..], nb, nw);
      }
    }
  }

  lemma NotSafeNow(l: Loop, events: seq<Event>, nb: nat, nw: nat)
    requires RunEnabled(l, events, nb, nw) && !StopSafe(l)
    ensures !AlwaysStopSafe(l, events, nb, nw)
  {
  }

  /** The broken promise, for every state it can happen in: D is handled while threads
      run, one of them faults before GDB has acknowledged the reply, and once both
      replies are acknowledged the suspended threads run without a new vCont or D. */
  lemma FaultDuringDetach(l: Loop, i: nat, j: nat, nb: nat, nw: nat) returns (l1: Loop, l2: Loop, l3: Loop, l4: Loop)
    requires Enabled(l, Receive(Detach), nb, nw) && !l.detached
    requires Enabled(l, Fault(i, j), nb, nw)
    ensures l1 == Step(l, Receive(Detach), nb, nw)
    ensures Enabled(l1, Fault(i, j), nb, nw) && l2 == Step(l1, Fault(i, j), nb, nw)
    ensures Enabled(l2, FaultAck(true), nb, nw) && l3 == Step(l2, FaultAck(true), nb, nw)
    ensures Enabled(l3, Ack(true), nb, nw) && l4 == Step(l3, Ack(true), nb, nw)
    ensures l2.stopped && l3.stopped && l4.stopped && AllRunning(l4.s) && Live(l4.s.inferiors, i, j)
  {
    l1 := DetachStep(l, i, j, nb, nw);
    l2, l3 := FaultStep(l1, i, j, nb, nw);
    WokenRun(l3.s, nb, nw);
    l4 := Step(l3, Ack(true), nb, nw);
  }

  lemma DetachStep(l: Loop, i: nat, j: nat, nb: nat, nw: nat) returns (r: Loop)
    requires Enabled(l, Receive(Detach), nb, nw) && !l.detached && Enabled(l, Fault(i, j), nb, nw)
    ensures r == Step(l, Receive(Detach), nb, nw)
    ensures Enabled(r, Fault(i, j), nb, nw) && r.phase == AwaitAck(true)
    ensures forall a, b :: Live(r.s.inferiors, a, b) ==> r.s.inferiors[a].threads[b].wakeup
  {
    r := Step(l, Receive(Detach), nb, nw);
    HD.DetachKeeps(l.s, nb, nw);
    DetachRunning(l.s, nb, nw);
    AfterGood(l.s, DetachAll, nb, nw);
    assert Live(l.s.inferiors, i, j) && Live(r.s.inferiors, i, j);
  }

  lemma FaultStep(l: Loop, i: nat, j: nat, nb: nat, nw: nat) returns (m: Loop, r: Loop)
    requires Enabled(l, Fault(i, j), nb, nw) && l.phase == AwaitAck(true)
    requires forall a, b :: Live(l.s.inferiors, a, b) ==> l.s.inferiors[a].threads[b].wakeup
    ensures m == Step(l, Fault(i, j), nb, nw) && Enabled(m, FaultAck(true), nb, nw) && m.stopped
    ensures r == Step(m, FaultAck(true), nb, nw)
    ensures Enabled(r, Ack(true), nb, nw) && r.phase == AwaitAck(true) && r.stopped
    ensures r.s.inferiors == l.s.inferiors
  {
    m := Step(l, Fault(i, j), nb, nw);
    SuspendStops(l.s, nb, nw);
    OnlyTcbsMatter(SuspendSystem(l.s), m.s, nb, nw);
    r := Step(m, FaultAck(true), nb, nw);
  }

  /** Resuming runs every thread marked to wake. */
  lemma WokenRun(s: State, nb: nat, nw: nat)
    requires Inv(s, nb, nw)
    requires forall i, j :: Live(s.inferiors, i, j) ==> s.inferiors[i].threads[j].wakeup
    ensures AllRunning(ResumeSystem(s))
  {
  }

  /** After D and its acknowledgement all enabled threads run; and whatever packet
      comes next is handled with all of them suspended again. */
  lemma DetachCycle(l: Loop, p: Packet, nb: nat, nw: nat)
    requires Enabled(l, Receive(Detach), nb, nw)
    ensures Enabled(Step(l, Receive(Detach), nb, nw), Ack(true), nb, nw)
    ensures var r := Step(Step(l, Receive(Detach), nb, nw), Ack(true), nb, nw);
            && AllRunning(r.s) && r.detached && r.phase.AwaitPacket?
            && NoneRunning(Prepared(r, p))
  {
    var s := Prepared(l, Detach);
    AfterGood(s, DetachAll, nb, nw);
    HD.DetachKeeps(s, nb, nw);
    var d := Debugger.Detach(s);
    WokenRun(d, nb, nw);
    AfterGood(d, ResumeAll, nb, nw);
    SuspendStops(ResumeSystem(d), nb, nw);
  }
}

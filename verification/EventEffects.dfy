/**
 What the steps of the debugger component achieve
 (examples/microkit_sddf_serial/apps/debugger/debugger.c): which threads run after a
 packet, an acknowledgement or a fault, and what a packet has done to the tables.
 */
module EventEffects {
  import opened Options
  import opened Kernel
  import opened Memory
  import opened Debugger
  import opened CallEffects
  import opened EventLoop
  import Effects
  import Runs
  import SoftwareRuns
  import HD = HardwareDebug
  import VC = Vcont

  /** Thread (i, j) of a state runs in the kernel. */
  predicate RunsAt(s: State, i: int, j: int) {
    Live(s.inferiors, i, j) && TcbAt(s.inferiors, i, j) in s.machine.tcbs
    && s.machine.tcbs[TcbAt(s.inferiors, i, j)].running
  }

  /** Before the first packet after D, and on ctrl-C, every thread is stopped; before any
      other packet nothing happens. */
  lemma PreparedDone(l: Loop, p: Packet, nb: nat, nw: nat)
    requires Runs.Good(l.s, nb, nw)
    ensures OnlyRunning(l.s, Prepared(l, p))
    ensures if l.detached || p.Interrupt? then NoneRunning(Prepared(l, p)) else Prepared(l, p) == l.s
  {
    SuspendStops(l.s, nb, nw);
    SuspendOnlyRunning(l.s);
  }

  // ---------------------------------------------------------------------------
  // vCont

  /** After a vCont a thread runs exactly if it ran already or the packet wakes it; no reply
      is sent, and the system counts as resumed. */
  lemma ContinueRuns(l: Loop, actions: seq<VC.Action>, nb: nat, nw: nat, i: nat, j: nat)
    requires Enabled(l, Receive(VCont(actions)), nb, nw) && actions != [] && Live(l.s.inferiors, i, j)
    ensures var s := Prepared(l, VCont(actions));
            var r := Step(l, Receive(VCont(actions)), nb, nw);
            && Live(r.s.inferiors, i, j)
            && (RunsAt(r.s, i, j) <==> RunsAt(s, i, j) || VC.Wakes(actions, i, j))
            && r.phase == AwaitPacket && !r.detached && !r.stopped && r.faulted == l.faulted
  {
    var s := Prepared(l, VCont(actions));
    PreparedGood(l, VCont(actions), nb, nw);
    AppliedRuns(s, actions, nb, nw, i, j);
  }

  lemma AppliedRuns(s: State, actions: seq<VC.Action>, nb: nat, nw: nat, i: nat, j: nat)
    requires Inv(s, nb, nw) && actions != [] && Live(s.inferiors, i, j)
    ensures var r := ResumeSystem(VC.Apply(s, actions));
            Live(r.inferiors, i, j) && (RunsAt(r, i, j) <==> RunsAt(s, i, j) || VC.Wakes(actions, i, j))
  {
    var m := VC.Apply(s, actions);
    VC.ApplyKeeps(s, actions, nb, nw);
    VC.ApplyThread(s, actions, i, j);
    HD.ResumeSystemKeeps(m, nb, nw);
    assert m.inferiors[i].threads[j].wakeup == VC.Wakes(actions, i, j);
  }

  // ---------------------------------------------------------------------------
  // Z and z packets

  /** What a breakpoint call achieves. */
  ghost predicate Done(s: State, r: State, op: Runs.Op, nb: nat, nw: nat)
    requires Runs.Good(s, nb, nw) && Runs.Allowed(s, op, nb, nw) && IsBreakpointOp(op)
  {
    match op
    case SetBreak(i, a) =>
      var table := s.inferiors[i].hwBreaks;
      if exists n :: 0 <= n < |table| && table[n] == 0
      then exists n :: 0 <= n < |table| && table[n] == 0 && BreakChanged(s, r, i, n, a, Some(a))
      else r == s
    case UnsetBreak(i, a) =>
      var table := s.inferiors[i].hwBreaks;
      if a in table then exists n :: 0 <= n < |table| && table[n] == a && BreakChanged(s, r, i, n, 0, None) else r == s
    case SetWatch(i, w) =>
      var table := s.inferiors[i].hwWatches;
      if exists n :: 0 <= n < |table| && table[n].addr == 0
      then exists n :: 0 <= n < |table| && table[n].addr == 0 && WatchChanged(s, r, i, n, w, Some(w))
      else r == s
    case UnsetWatch(i, w) =>
      var table := s.inferiors[i].hwWatches;
      if w in table
      then exists n :: 0 <= n < |table| && table[n] == w && WatchChanged(s, r, i, n, Watch(0, w.size, w.access), None)
      else r == s
    case SetSoft(i, a) => s.inferiors[i].vspace in s.machine.spaces ==> SoftSet(s, r, i, a)
    case UnsetSoft(i, a) => s.inferiors[i].vspace in s.machine.spaces ==> SoftUnset(s, r, i, a)
  }

  ghost predicate SoftSet(s: State, r: State, i: nat, a: nat)
    requires i < |s.inferiors| && s.inferiors[i].vspace in s.machine.spaces && ValidSpaces(s.machine.spaces)
  {
    var v := s.inferiors[i].vspace;
    var table := s.inferiors[i].swBreaks;
    var was := s.machine.spaces[v];
    if a in was.readable && a in was.writable && exists k :: 0 <= k < |table| && table[k].addr == 0 then
      && SoftwareRuns.OnlySoftware(s, r, i)
      && Effects.Entered(table, r.inferiors[i].swBreaks, SoftwareRuns.SW.SwBreak(a, LoadWord(was.bytes, a)))
      && SoftwareRuns.SW.HasBreak(r.machine.spaces[v].bytes, a)
    else r == s
  }

  ghost predicate SoftUnset(s: State, r: State, i: nat, a: nat)
    requires i < |s.inferiors| && s.inferiors[i].vspace in s.machine.spaces
  {
    var v := s.inferiors[i].vspace;
    var table := s.inferiors[i].swBreaks;
    var n := SoftwareRuns.SW.FirstAt(table, a);
    if n < |table| && a in s.machine.spaces[v].writable then
      && SoftwareRuns.OnlySoftware(s, r, i)
      && r.inferiors[i].swBreaks == table[n := table[n].(addr := 0)]
      && HasWord(r.machine.spaces[v].bytes, a) && LoadWord(r.machine.spaces[v].bytes, a) == table[n].word
    else r == s
  }

  lemma OpDone(s: State, op: Runs.Op, nb: nat, nw: nat)
    requires Runs.Good(s, nb, nw) && Runs.Allowed(s, op, nb, nw) && IsBreakpointOp(op)
    ensures Done(s, Runs.After(s, op, nb, nw), op, nb, nw)
  {
    match op
    case SetBreak(i, a) => SetBreakExactly(s, i, a);
    case UnsetBreak(i, a) => UnsetBreakExactly(s, i, a);
    case SetWatch(i, w) => SetWatchExactly(s, i, w);
    case UnsetWatch(i, w) => UnsetWatchExactly(s, i, w);
    case SetSoft(i, a) => if s.inferiors[i].vspace in s.machine.spaces { SoftwareRuns.SetExactly(s, i, a); }
    case UnsetSoft(i, a) => if s.inferiors[i].vspace in s.machine.spaces { SoftwareRuns.UnsetExactly(s, i, a); }
  }

  /** A breakpoint packet is carried out on the state it is handled in, and answered. */
  lemma BreakpointDone(l: Loop, op: Runs.Op, nb: nat, nw: nat)
    requires Enabled(l, Receive(Breakpoint(op)), nb, nw)
    ensures var s := Prepared(l, Breakpoint(op));
            var r := Step(l, Receive(Breakpoint(op)), nb, nw);
            && Runs.Good(s, nb, nw) && Done(s, r.s, op, nb, nw)
            && r.phase == AwaitAck(false) && !r.detached
  {
    PreparedGood(l, Breakpoint(op), nb, nw);
    OpDone(Prepared(l, Breakpoint(op)), op, nb, nw);
  }

  // ---------------------------------------------------------------------------
  // The other packets

  /** D empties all tables and marks all threads to wake; its reply is awaited before they
      do, and the next packet will suspend them again. */
  lemma DetachDone(l: Loop, nb: nat, nw: nat)
    requires Enabled(l, Receive(Packet.Detach), nb, nw)
    ensures var s := Prepared(l, Packet.Detach);
            var r := Step(l, Receive(Packet.Detach), nb, nw);
            && |r.s.inferiors| == |s.inferiors|
            && (forall i :: 0 <= i < |s.inferiors| && s.inferiors[i].enabled ==>
                  Emptied(s.inferiors[i], r.s.inferiors[i]))
            && (forall i, j :: Live(s.inferiors, i, j) ==>
                  && HD.Released(r.s, i, j) && (RunsAt(r.s, i, j) <==> RunsAt(s, i, j)))
            && r.phase == AwaitAck(true) && r.detached && !r.stopped
  {
    var s := Prepared(l, Packet.Detach);
    PreparedGood(l, Packet.Detach, nb, nw);
    DetachExactly(s);
    HD.DetachKeeps(s, nb, nw);
  }

  /** ctrl-C stops every thread and is answered. */
  lemma InterruptDone(l: Loop, nb: nat, nw: nat)
    requires Enabled(l, Receive(Interrupt), nb, nw)
    ensures var r := Step(l, Receive(Interrupt), nb, nw);
            && NoneRunning(r.s) && OnlyRunning(l.s, r.s)
            && r.phase == AwaitAck(false) && !r.detached && r.stopped
  {
    SuspendStops(l.s, nb, nw);
    SuspendOnlyRunning(l.s);
  }

  /** Reading registers stops the target thread and writing them starts it; no other TCB
      changes. */
  lemma ReadRegsDone(l: Loop, nb: nat, nw: nat)
    requires Enabled(l, Receive(ReadRegs), nb, nw)
    ensures var s := Prepared(l, ReadRegs);
            var r := Step(l, Receive(ReadRegs), nb, nw);
            TargetCalled(s, r.s, false) && r.phase == AwaitAck(false) && !r.detached
  {
  }

  lemma WriteRegsDone(l: Loop, nb: nat, nw: nat)
    requires Enabled(l, Receive(WriteRegs), nb, nw)
    ensures var s := Prepared(l, WriteRegs);
            var r := Step(l, Receive(WriteRegs), nb, nw);
            TargetCalled(s, r.s, true) && r.phase == AwaitAck(false) && !r.detached
  {
  }

  ghost predicate TargetCalled(s: State, r: State, run: bool)
    requires HasTarget(s)
  {
    && OnlyRunning(s, r)
    && forall t :: t in s.machine.tcbs ==>
         r.machine.tcbs[t].running == if t == TargetTcb(s) then run else s.machine.tcbs[t].running
  }

  /** The remaining packets. */
  lemma OthersDone(l: Loop, p: Packet, nb: nat, nw: nat)
    requires Enabled(l, Receive(p), nb, nw) && (p.SelectThread? || p.WriteMemory? || p.Query?)
    ensures var s := Prepared(l, p);
            var r := Step(l, Receive(p), nb, nw);
            && (p.SelectThread? ==> r.s == s.(target := Some(p.slot)))
            && (p.WriteMemory? ==> r.s == s.(machine := s.machine.(spaces := p.spaces)))
            && (p.Query? ==> r.s == s)
            && r.phase == AwaitAck(false) && !r.detached
  {
  }

  // ---------------------------------------------------------------------------
  // Acknowledgements and faults

  /** A plus ends the wait, and after D it starts the threads marked to wake; any other
      answer leaves everything as it was. */
  lemma AckDone(l: Loop, plus: bool, nb: nat, nw: nat, i: nat, j: nat)
    requires Enabled(l, Ack(plus), nb, nw)
    ensures var r := Step(l, Ack(plus), nb, nw);
            && (!plus ==> r == l)
            && (plus ==> r == l.(s := r.s, phase := AwaitPacket) && OnlyRunning(l.s, r.s))
    ensures var r := Step(l, Ack(plus), nb, nw);
            Live(l.s.inferiors, i, j) ==>
            && Live(r.s.inferiors, i, j)
            && (RunsAt(r.s, i, j) <==>
                  || RunsAt(l.s, i, j)
                  || (plus && l.phase == AwaitAck(true) && l.s.inferiors[i].threads[j].wakeup))
  {
    HD.ResumeSystemKeeps(l.s, nb, nw);
    ResumeOnlyRunning(l.s);
  }

  /** A fault stops every thread, makes the faulting one the target and waits for its own
      acknowledgement; what the loop was waiting for stays. */
  lemma FaultDone(l: Loop, i: nat, j: nat, nb: nat, nw: nat)
    requires Enabled(l, Fault(i, j), nb, nw)
    ensures var r := Step(l, Fault(i, j), nb, nw);
            && NoneRunning(r.s) && OnlyRunning(l.s.(target := Some(Slot(i, j))), r.s)
            && r.faulted && r.stopped && r.phase == l.phase && r.detached == l.detached
    ensures var r := Step(l, Fault(i, j), nb, nw);
            forall plus ::
              && Enabled(r, FaultAck(plus), nb, nw)
              && Step(r, FaultAck(plus), nb, nw) == r.(faulted := !plus)
  {
    SuspendStops(l.s, nb, nw);
    SuspendOnlyRunning(l.s);
    var r := Step(l, Fault(i, j), nb, nw);
    OnlyTcbsMatter(SuspendSystem(l.s), r.s, nb, nw);
    SameRunningStops(SuspendSystem(l.s), r.s);
  }
}

/**
 Runs of library calls: the invariants of the tables, the ids and the kernel state
 hold together after any number of them.
 */
module Runs {
  import opened Kernel
  import opened Debugger
  import opened Registry
  import HD = HardwareDebug
  import SW = SoftwareBreakpoints
  import VC = Vcont

  datatype Op =
    | AddInferior(id: nat, vspace: nat)
    | AddThread(id: nat, threadId: nat, tcb: nat)
    | ExitThread(id: nat, threadId: nat)
    | SetBreak(i: nat, addr: nat)
    | UnsetBreak(i: nat, addr: nat)
    | SetWatch(i: nat, watch: Watch)
    | UnsetWatch(i: nat, watch: Watch)
    | SetSoft(i: nat, addr: nat)
    | UnsetSoft(i: nat, addr: nat)
    | Continue(actions: seq<VC.Action>)
    | DetachAll
    | SuspendAll
    | ResumeAll

  ghost predicate Good(s: State, nb: nat, nw: nat) {
    Inv(s, nb, nw) && RegInv(s)
  }

  /** What the environment owes the library: new threads come with TCBs no enabled
      thread has, their registers clean, and breakpoints are not put at address 0. */
  ghost predicate Allowed(s: State, op: Op, nb: nat, nw: nat) {
    match op
    case AddThread(id, _, tcb) =>
      && HD.FreshTcb(s, tcb)
      && (var i := LookupInferior(s.inferiors, id); i.Some? ==> HD.CleanFor(s.machine.tcbs[tcb], s.inferiors[i.value]))
    case SetBreak(i, a) => i < MAX_PDS && a != 0
    case UnsetBreak(i, _) => i < MAX_PDS
    case SetWatch(i, w) => i < MAX_PDS && w.addr != 0
    case UnsetWatch(i, _) => i < MAX_PDS
    case SetSoft(i, _) => i < MAX_PDS
    case UnsetSoft(i, _) => i < MAX_PDS
    case _ => true
  }

  function After(s: State, op: Op, nb: nat, nw: nat): State
    requires Good(s, nb, nw) && Allowed(s, op, nb, nw)
  {
    match op
    case AddInferior(id, v) => RegisterInferior(s, id, v).1
    case AddThread(id, t, tcb) => RegisterThread(s, id, t, tcb).1
    case ExitThread(id, t) => ThreadExit(s, id, t).1
    case SetBreak(i, a) => SetHwBreak(s, i, a).1
    case UnsetBreak(i, a) => UnsetHwBreak(s, i, a).1
    case SetWatch(i, w) => SetHwWatch(s, i, w).1
    case UnsetWatch(i, w) => UnsetHwWatch(s, i, w).1
    case SetSoft(i, a) => SetSwBreak(s, i, a).1
    case UnsetSoft(i, a) => UnsetSwBreak(s, i, a).1
    case Continue(actions) => VC.Apply(s, actions)
    case DetachAll => Detach(s)
    case SuspendAll => SuspendSystem(s)
    case ResumeAll => ResumeSystem(s)
  }

  /** The id counters have not outgrown the 16-bit ids. */
  ghost predicate CountersFit(s: State) {
    s.currInferiorIdx <= MAX_ID && forall i :: 0 <= i < |s.inferiors| ==> s.inferiors[i].currThreadIdx <= MAX_ID
  }

  /** Zeroed tables satisfy everything. */
  lemma FreshIsGood(s: State, nb: nat, nw: nat)
    requires Fresh(s) && Shape(s, nb, nw)
    ensures Good(s, nb, nw)
  {
  }

  lemma AfterKeeps(s: State, op: Op, nb: nat, nw: nat)
    requires Good(s, nb, nw) && Allowed(s, op, nb, nw)
    ensures Inv(After(s, op, nb, nw), nb, nw)
  {
    match op
    case AddInferior(id, v) => HD.RegisterInferiorKeeps(s, id, v, nb, nw);
    case AddThread(id, t, tcb) => HD.RegisterThreadExactly(s, id, t, tcb, nb, nw);
    case ExitThread(id, t) => HD.ThreadExitKeeps(s, id, t, nb, nw);
    case SetBreak(i, a) => HD.SetHwBreakKeeps(s, i, a, nb, nw);
    case UnsetBreak(i, a) => HD.UnsetHwBreakKeeps(s, i, a, nb, nw);
    case SetWatch(i, w) => HD.SetHwWatchKeeps(s, i, w, nb, nw);
    case UnsetWatch(i, w) => HD.UnsetHwWatchKeeps(s, i, w, nb, nw);
    case SetSoft(i, a) =>
      var p := PatchedBy(s.machine.spaces, s.inferiors[i]);
      HD.WithPatchedKeeps(s, i, SW.SetBreak(p, a).state, nb, nw);
    case UnsetSoft(i, a) =>
      var p := PatchedBy(s.machine.spaces, s.inferiors[i]);
      HD.WithPatchedKeeps(s, i, SW.UnsetBreak(p, a).state, nb, nw);
    case Continue(actions) => VC.ApplyKeeps(s, actions, nb, nw);
    case DetachAll => HD.DetachKeeps(s, nb, nw);
    case SuspendAll => HD.SuspendSystemKeeps(s, nb, nw);
    case ResumeAll => HD.ResumeSystemKeeps(s, nb, nw);
  }

  lemma TablesSameIds(s: State, i: nat, r: State)
    requires i < |s.inferiors| && |r.inferiors| == |s.inferiors| && r.currInferiorIdx == s.currInferiorIdx
    requires forall k :: 0 <= k < |s.inferiors| && k != i ==> r.inferiors[k] == s.inferiors[k]
    requires r.inferiors[i] == s.inferiors[i].(swBreaks := r.inferiors[i].swBreaks, hwBreaks := r.inferiors[i].hwBreaks,
                                               hwWatches := r.inferiors[i].hwWatches)
    ensures SameIds(s, r)
  {
  }

  lemma SweepsSameIds(s: State, actions: seq<VC.Action>)
    requires ValidSpaces(s.machine.spaces)
    ensures SameIds(s, VC.Apply(s, actions)) && SameIds(s, Detach(s))
    ensures SameIds(s, SuspendSystem(s)) && SameIds(s, ResumeSystem(s))
  {
  }

  lemma AddThreadIds(s: State, id: nat, threadId: nat, tcb: nat)
    requires RegInv(s) && tcb in s.machine.tcbs && CountersFit(RegisterThread(s, id, threadId, tcb).1)
    ensures var r := RegisterThread(s, id, threadId, tcb).1; RegInv(r) && Evolves(s, r)
  {
    RegisterThreadIds(s, id, threadId, tcb);
    RegisterThreadEvolves(s, id, threadId, tcb);
  }

  lemma AfterIds(s: State, op: Op, nb: nat, nw: nat)
    requires Good(s, nb, nw) && Allowed(s, op, nb, nw) && CountersFit(After(s, op, nb, nw))
    ensures RegInv(After(s, op, nb, nw)) && Evolves(s, After(s, op, nb, nw))
  {
    match op
    case AddInferior(id, v) => RegisterInferiorIds(s, id, v); RegisterInferiorEvolves(s, id, v);
    case AddThread(id, t, tcb) => AddThreadIds(s, id, t, tcb);
    case ExitThread(id, t) => ThreadExitIds(s, id, t);
    case _ => AfterSameIds(s, op, nb, nw);
  }

  lemma AfterSameIds(s: State, op: Op, nb: nat, nw: nat)
    requires Good(s, nb, nw) && Allowed(s, op, nb, nw)
    requires !op.AddInferior? && !op.AddThread? && !op.ExitThread?
    ensures RegInv(After(s, op, nb, nw)) && Evolves(s, After(s, op, nb, nw))
  {
    var r := After(s, op, nb, nw);
    assert SameIds(s, r) by {
      match op
      case Continue(actions) => SweepsSameIds(s, actions);
      case DetachAll => SweepsSameIds(s, []);
      case SuspendAll => SweepsSameIds(s, []);
      case ResumeAll => SweepsSameIds(s, []);
      case SetBreak(i, a) => TablesSameIds(s, i, r);
      case UnsetBreak(i, a) => TablesSameIds(s, i, r);
      case SetWatch(i, w) => TablesSameIds(s, i, r);
      case UnsetWatch(i, w) => TablesSameIds(s, i, r);
      case SetSoft(i, a) => TablesSameIds(s, i, r);
      case UnsetSoft(i, a) => TablesSameIds(s, i, r);
    }
    SameIdsKeep(s, r);
    SameIdsEvolve(s, r);
  }

  lemma AfterGood(s: State, op: Op, nb: nat, nw: nat)
    requires Good(s, nb, nw) && Allowed(s, op, nb, nw) && CountersFit(After(s, op, nb, nw))
    ensures Good(After(s, op, nb, nw), nb, nw)
  {
    AfterKeeps(s, op, nb, nw);
    AfterIds(s, op, nb, nw);
  }

  /** Each call is one the environment may make, and no id counter overflows. */
  ghost predicate RunAllowed(s: State, ops: seq<Op>, nb: nat, nw: nat)
    requires Good(s, nb, nw)
    decreases |ops|
  {
    ops == [] ||
    (&& Allowed(s, ops[0], nb, nw)
     && CountersFit(After(s, ops[0], nb, nw))
     && (AfterGood(s, ops[0], nb, nw); RunAllowed(After(s, ops[0], nb, nw), ops[1..], nb, nw)))
  }

  ghost function Run(s: State, ops: seq<Op>, nb: nat, nw: nat): State
    requires Good(s, nb, nw) && RunAllowed(s, ops, nb, nw)
    decreases |ops|
  {
    if ops == [] then s else
    AfterGood(s, ops[0], nb, nw);
    Run(After(s, ops[0], nb, nw), ops[1..], nb, nw)
  }

  /** Over every run of calls the environment may make, registers and tables agree,
      stepping threads are flagged, ids lead back to their slots, and no id issued
      at the start comes to name another thread. */
  lemma {:induction false} RunKeeps(s: State, ops: seq<Op>, nb: nat, nw: nat)
    requires Good(s, nb, nw) && RunAllowed(s, ops, nb, nw)
    ensures Good(Run(s, ops, nb, nw), nb, nw)
    ensures Evolves(s, Run(s, ops, nb, nw))
    decreases |ops|
  {
    if ops == [] {
      SameIdsEvolve(s, s);
    } else {
      var m := After(s, ops[0], nb, nw);
      AfterGood(s, ops[0], nb, nw);
      AfterIds(s, ops[0], nb, nw);
      RunKeeps(m, ops[1..], nb, nw);
      EvolvesTransitive(s, m, Run(m, ops[1..], nb, nw));
    }
  }

  /** The whole story of a stale id: issued by the middle of a run, it never names
      another thread at its end. */
  lemma StaleIdsOverRuns(s: State, ops: seq<Op>, nb: nat, nw: nat, procId: nat, threadId: nat)
    requires Good(s, nb, nw) && RunAllowed(s, ops, nb, nw)
    requires 0 < procId <= s.currInferiorIdx && 0 < threadId <= s.inferiors[(procId - 1) % MAX_PDS].currThreadIdx
    ensures RegInv(Run(s, ops, nb, nw))
    ensures var before := LookupThreadByGdbId(s.inferiors, procId, threadId);
            var now := LookupThreadByGdbId(Run(s, ops, nb, nw).inferiors, procId, threadId);
            now.Some? ==>
              && now == before
              && SameThread(s.inferiors[now.value.i].threads[now.value.j],
                            Run(s, ops, nb, nw).inferiors[now.value.i].threads[now.value.j])
  {
    RunKeeps(s, ops, nb, nw);
    var r := Run(s, ops, nb, nw);
    if LookupThreadByGdbId(r.inferiors, procId, threadId).Some? {
      StaleIds(s, r, procId, threadId);
    }
  }
}

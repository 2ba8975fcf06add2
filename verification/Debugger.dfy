/**
 The state of the library (src/gdb.c): the inferior and thread tables with their
 breakpoint tables, next to the kernel state they must agree with.
 */
module Debugger {
  import opened Options
  import opened Words
  import opened Memory
  import opened Kernel
  import SW = SoftwareBreakpoints

  const MAX_PDS := 64
  const MAX_THREADS := 256
  const MAX_SW_BREAKS := 32

  datatype Thread = Thread(enabled: bool, wakeup: bool, ssEnabled: bool, id: nat, gdbId: nat, tcb: nat)

  const NO_THREAD := Thread(false, false, false, 0, 0, 0)

  datatype Inferior = Inferior(
    enabled: bool, id: nat, gdbId: nat, vspace: nat, currThreadIdx: nat, threads: seq<Thread>,
    swBreaks: seq<SW.SwBreak>, hwBreaks: seq<nat>, hwWatches: seq<Watch>)

  /** A position in the tables; the library's pointers to threads. */
  datatype Slot = Slot(i: nat, j: nat)

  datatype State = State(
    inferiors: seq<Inferior>, currInferiorIdx: nat, target: Option<Slot>, machine: Machine)

  predicate Live(infs: seq<Inferior>, i: int, j: int) {
    && 0 <= i < |infs| && infs[i].enabled
    && 0 <= j < |infs[i].threads| && infs[i].threads[j].enabled
  }

  function TcbAt(infs: seq<Inferior>, i: int, j: int): nat
    requires Live(infs, i, j)
  {
    infs[i].threads[j].tcb
  }

  function EnabledTcbs(threads: seq<Thread>): (r: set<nat>)
  {
    set j | 0 <= j < |threads| && threads[j].enabled :: threads[j].tcb
  }

  /** TCBs of the enabled threads of the first `n` inferiors. */
  function LiveTcbsUpTo(infs: seq<Inferior>, n: nat): (r: set<nat>)
    requires n <= |infs|
  {
    set i, j | 0 <= i < n && 0 <= j < |infs[i].threads| && Live(infs, i, j) :: infs[i].threads[j].tcb
  }

  function LiveTcbs(infs: seq<Inferior>): set<nat> {
    LiveTcbsUpTo(infs, |infs|)
  }

  // ---------------------------------------------------------------------------
  // Invariants

  /** Table sizes; `nb` and `nw` are seL4_NumExclusiveBreakpoints and -Watchpoints. */
  ghost predicate Shape(s: State, nb: nat, nw: nat) {
    && |s.inferiors| == MAX_PDS
    && (forall i :: 0 <= i < MAX_PDS ==> TableSizes(s.inferiors[i], nb, nw))
    && (forall t :: t in s.machine.tcbs ==>
          |s.machine.tcbs[t].breaks| == nb && |s.machine.tcbs[t].watches| == nw)
    && ValidSpaces(s.machine.spaces)
  }

  predicate TableSizes(inf: Inferior, nb: nat, nw: nat) {
    && |inf.threads| == MAX_THREADS && |inf.swBreaks| == MAX_SW_BREAKS
    && |inf.hwBreaks| == nb && |inf.hwWatches| == nw
  }

  /** Threads are only enabled inside enabled inferiors, have a TCB each, and share none. */
  ghost predicate OwnTcbs(s: State) {
    && (forall i, j :: 0 <= i < |s.inferiors| && 0 <= j < |s.inferiors[i].threads| ==>
          (s.inferiors[i].threads[j].enabled ==> s.inferiors[i].enabled))
    && (forall i, j :: Live(s.inferiors, i, j) ==> TcbAt(s.inferiors, i, j) in s.machine.tcbs)
    && DistinctTcbs(s.inferiors)
  }

  ghost predicate DistinctTcbs(infs: seq<Inferior>) {
    forall i, j, i', j' :: Live(infs, i, j) && Live(infs, i', j') && TcbAt(infs, i, j) == TcbAt(infs, i', j') ==>
      i == i' && j == j'
  }

  /** What a thread's registers hold when they mirror the inferior's tables. */
  function BreakRegs(table: seq<nat>): seq<Option<nat>> {
    seq(|table|, n requires 0 <= n < |table| => if table[n] == 0 then None else Some(table[n]))
  }

  function WatchRegs(table: seq<Watch>): seq<Option<Watch>> {
    seq(|table|, n requires 0 <= n < |table| => if table[n].addr == 0 then None else Some(table[n]))
  }

  predicate Mirrors(t: Kernel.Tcb, inf: Inferior) {
    t.breaks == BreakRegs(inf.hwBreaks) && t.watches == WatchRegs(inf.hwWatches)
  }

  /** Every enabled thread's debug registers hold exactly its inferior's tables. */
  ghost predicate Agreement(s: State) {
    forall i, j :: Live(s.inferiors, i, j) && TcbAt(s.inferiors, i, j) in s.machine.tcbs ==>
      Mirrors(s.machine.tcbs[TcbAt(s.inferiors, i, j)], s.inferiors[i])
  }

  /** A thread single-steps in the kernel only if its flag says so. */
  ghost predicate StepFlags(s: State) {
    forall i, j :: Live(s.inferiors, i, j) && TcbAt(s.inferiors, i, j) in s.machine.tcbs ==>
      (s.machine.tcbs[TcbAt(s.inferiors, i, j)].stepping ==> s.inferiors[i].threads[j].ssEnabled)
  }

  ghost predicate Inv(s: State, nb: nat, nw: nat) {
    Shape(s, nb, nw) && OwnTcbs(s) && Agreement(s) && StepFlags(s)
  }

  // ---------------------------------------------------------------------------
  // Table searches

  function FirstBreak(table: seq<nat>, a: nat): (n: nat)
    ensures n <= |table|
    ensures n < |table| ==> table[n] == a
    ensures forall k :: 0 <= k < n ==> table[k] != a
  {
    if table == [] || table[0] == a then 0 else 1 + FirstBreak(table[1..], a)
  }

  function FirstWatch(table: seq<Watch>, w: Watch): (n: nat)
    ensures n <= |table|
    ensures n < |table| ==> table[n] == w
    ensures forall k :: 0 <= k < n ==> table[k] != w
  {
    if table == [] || table[0] == w then 0 else 1 + FirstWatch(table[1..], w)
  }

  function FirstFreeWatch(table: seq<Watch>): (n: nat)
    ensures n <= |table|
    ensures n < |table| ==> table[n].addr == 0
    ensures forall k :: 0 <= k < n ==> table[k].addr != 0
  {
    if table == [] || table[0].addr == 0 then 0 else 1 + FirstFreeWatch(table[1..])
  }

  // ---------------------------------------------------------------------------
  // Hardware breakpoints and watchpoints of inferior `i`

  function WithCalls(s: State, i: nat, inf: Inferior, call: Call): State
    requires i < |s.inferiors|
  {
    s.(inferiors := s.inferiors[i := inf],
       machine := s.machine.(tcbs := OnAll(s.machine.tcbs, EnabledTcbs(inf.threads), call)))
  }

  function SetHwBreak(s: State, i: nat, addr: nat): (r: (bool, State))
    requires i < |s.inferiors|
  {
    var inf := s.inferiors[i];
    var n := FirstBreak(inf.hwBreaks, 0);
    if n == |inf.hwBreaks| then (false, s)
    else (true, WithCalls(s, i, inf.(hwBreaks := inf.hwBreaks[n := addr]), Call.SetBreak(n, addr)))
  }

  function UnsetHwBreak(s: State, i: nat, addr: nat): (r: (bool, State))
    requires i < |s.inferiors|
  {
    var inf := s.inferiors[i];
    var n := FirstBreak(inf.hwBreaks, addr);
    if n == |inf.hwBreaks| then (false, s)
    else (true, WithCalls(s, i, inf.(hwBreaks := inf.hwBreaks[n := 0]), Call.UnsetBreak(n)))
  }

  function SetHwWatch(s: State, i: nat, w: Watch): (r: (bool, State))
    requires i < |s.inferiors|
  {
    var inf := s.inferiors[i];
    var n := FirstFreeWatch(inf.hwWatches);
    if n == |inf.hwWatches| then (false, s)
    else (true, WithCalls(s, i, inf.(hwWatches := inf.hwWatches[n := w]), Call.SetWatch(n, w)))
  }

  function UnsetHwWatch(s: State, i: nat, w: Watch): (r: (bool, State))
    requires i < |s.inferiors|
  {
    var inf := s.inferiors[i];
    var n := FirstWatch(inf.hwWatches, w);
    if n == |inf.hwWatches| then (false, s)
    else (true, WithCalls(s, i, inf.(hwWatches := inf.hwWatches[n := inf.hwWatches[n].(addr := 0)]),
                          Call.UnsetWatch(n)))
  }

  // ---------------------------------------------------------------------------
  // Suspending and resuming

  function SuspendSystem(s: State): State {
    s.(machine := s.machine.(tcbs := OnAll(s.machine.tcbs, LiveTcbs(s.inferiors), Suspend)))
  }

  function WakingIn(threads: seq<Thread>): (r: set<nat>) {
    set j | 0 <= j < |threads| && threads[j].enabled && threads[j].wakeup :: threads[j].tcb
  }

  function WakingTcbsUpTo(infs: seq<Inferior>, n: nat): (r: set<nat>)
    requires n <= |infs|
  {
    set i, j | 0 <= i < n && 0 <= j < |infs[i].threads| && Live(infs, i, j) && infs[i].threads[j].wakeup
      :: infs[i].threads[j].tcb
  }

  function WakingTcbs(infs: seq<Inferior>): set<nat> {
    WakingTcbsUpTo(infs, |infs|)
  }

  function ResumeSystem(s: State): State {
    s.(machine := s.machine.(tcbs := OnAll(s.machine.tcbs, WakingTcbs(s.inferiors), Resume)))
  }

  // ---------------------------------------------------------------------------
  // Registration

  datatype DebuggerError = NoError | AlreadyRegistered | InsufficientResources | InvalidArguments

  /** Index of the enabled inferior with a remote id. */
  function LookupInferior(infs: seq<Inferior>, id: nat): (r: Option<nat>)
    ensures r.Some? ==> r.value < |infs| && infs[r.value].enabled && infs[r.value].id == id
    ensures r.None? ==> forall k :: 0 <= k < |infs| ==> !(infs[k].enabled && infs[k].id == id)
  {
    if infs == [] then None
    else if infs[0].enabled && infs[0].id == id then Some(0)
    else match LookupInferior(infs[1..], id) case None => None case Some(k) => Some(k + 1)
  }

  function LookupThread(threads: seq<Thread>, id: nat): (r: Option<nat>)
    ensures r.Some? ==> r.value < |threads| && threads[r.value].enabled && threads[r.value].id == id
    ensures r.None? ==> forall k :: 0 <= k < |threads| ==> !(threads[k].enabled && threads[k].id == id)
  {
    if threads == [] then None
    else if threads[0].enabled && threads[0].id == id then Some(0)
    else match LookupThread(threads[1..], id) case None => None case Some(k) => Some(k + 1)
  }

  /** The first counter value from `c` to `end` whose slot is free, or `end`. */
  function NextFree(used: seq<bool>, c: nat, end: nat): (n: nat)
    requires |used| > 0 && c <= end
    ensures c <= n <= end
    ensures n < end ==> !used[n % |used|]
    ensures forall k :: c <= k < n ==> used[k % |used|]
    decreases end - c
  {
    if c == end || !used[c % |used|] then c else NextFree(used, c + 1, end)
  }

  function UsedInferiors(infs: seq<Inferior>): seq<bool> {
    seq(|infs|, i requires 0 <= i < |infs| => infs[i].enabled)
  }

  function UsedThreads(threads: seq<Thread>): seq<bool> {
    seq(|threads|, j requires 0 <= j < |threads| => threads[j].enabled)
  }

  /** A slot's inferior with cleared tables. */
  function NewInferior(prior: Inferior, id: nat, gdbId: nat, vspace: nat): Inferior {
    Inferior(true, id, gdbId, vspace, 0,
             seq(|prior.threads|, _ => NO_THREAD),
             seq(|prior.swBreaks|, _ => SW.SwBreak(0, ZERO_WORD)),
             seq(|prior.hwBreaks|, _ => 0),
             seq(|prior.hwWatches|, _ => NO_WATCH))
  }

  function RegisterInferior(s: State, id: nat, vspace: nat): (r: (DebuggerError, State))
    requires |s.inferiors| == MAX_PDS
  {
    match LookupInferior(s.inferiors, id)
    case Some(k) =>
      (if s.inferiors[k].vspace == vspace then AlreadyRegistered else InvalidArguments, s)
    case None =>
      var end := s.currInferiorIdx + MAX_PDS;
      var c := NextFree(UsedInferiors(s.inferiors), s.currInferiorIdx, end);
      if c == end then (InsufficientResources, s.(currInferiorIdx := end))
      else
        var prior := s.inferiors[c % MAX_PDS];
        var inf := NewInferior(prior, id, (c + 1) % 0x1_0000, vspace);
        (NoError, s.(inferiors := s.inferiors[c % MAX_PDS := inf], currInferiorIdx := c + 1))
  }

  /** The registers of a thread that joins an inferior: entries are copied in, and
      registers of free entries are left as they are. */
  function JoinRegs(t: Kernel.Tcb, inf: Inferior): Kernel.Tcb {
    t.(breaks := seq(|t.breaks|, n requires 0 <= n < |t.breaks| =>
                       if n < |inf.hwBreaks| && inf.hwBreaks[n] != 0 then Some(inf.hwBreaks[n]) else t.breaks[n]),
       watches := seq(|t.watches|, n requires 0 <= n < |t.watches| =>
                        if n < |inf.hwWatches| && inf.hwWatches[n].addr != 0 then Some(inf.hwWatches[n])
                        else t.watches[n]))
  }

  function RegisterThread(s: State, id: nat, threadId: nat, tcb: nat): (r: (DebuggerError, State))
    requires |s.inferiors| == MAX_PDS
    requires forall i :: 0 <= i < MAX_PDS ==> |s.inferiors[i].threads| == MAX_THREADS
    requires tcb in s.machine.tcbs
  {
    match LookupInferior(s.inferiors, id)
    case None => (InvalidArguments, s)
    case Some(i) =>
      var inf := s.inferiors[i];
      match LookupThread(inf.threads, threadId)
      case Some(j) =>
        (if inf.threads[j].tcb == tcb then AlreadyRegistered else InvalidArguments, s)
      case None =>
        var end := inf.currThreadIdx + MAX_THREADS;
        var c := NextFree(UsedThreads(inf.threads), inf.currThreadIdx, end);
        if c == end then
          (InsufficientResources, s.(inferiors := s.inferiors[i := inf.(currThreadIdx := end)]))
        else
          var th := Thread(true, false, false, threadId, (c + 1) % 0x1_0000, tcb);
          var inf' := inf.(threads := inf.threads[c % MAX_THREADS := th], currThreadIdx := c + 1);
          (NoError,
           s.(inferiors := s.inferiors[i := inf'],
              target := if s.target.None? then Some(Slot(i, c % MAX_THREADS)) else s.target,
              machine := s.machine.(tcbs := s.machine.tcbs[tcb := JoinRegs(s.machine.tcbs[tcb], inf)])))
  }

  function ThreadExit(s: State, id: nat, threadId: nat): (r: (DebuggerError, State)) {
    match LookupInferior(s.inferiors, id)
    case None => (InvalidArguments, s)
    case Some(i) =>
      var inf := s.inferiors[i];
      match LookupThread(inf.threads, threadId)
      case None => (InvalidArguments, s)
      case Some(j) =>
        (NoError,
         s.(inferiors := s.inferiors[i := inf.(threads := inf.threads[j := inf.threads[j].(enabled := false)])]))
  }

  // ---------------------------------------------------------------------------
  // Detaching

  function DetachThread(th: Thread): Thread {
    if th.enabled then th.(ssEnabled := false, wakeup := true) else th
  }

  function DetachInferior(inf: Inferior): Inferior {
    if !inf.enabled then inf else
    inf.(swBreaks := seq(|inf.swBreaks|, _ => SW.SwBreak(0, ZERO_WORD)),
         hwBreaks := seq(|inf.hwBreaks|, _ => 0),
         hwWatches := seq(|inf.hwWatches|, _ => NO_WATCH),
         threads := seq(|inf.threads|, j requires 0 <= j < |inf.threads| => DetachThread(inf.threads[j])))
  }

  function DetachTcb(t: Kernel.Tcb): Kernel.Tcb {
    t.(breaks := seq(|t.breaks|, _ => None), watches := seq(|t.watches|, _ => None), stepping := false)
  }

  type Spaces = map<nat, VSpace>

  ghost predicate ValidSpaces(spaces: Spaces) {
    forall v :: v in spaces ==> spaces[v].Valid()
  }

  /** An inferior's memory and table; an unknown vspace has no memory. */
  function PatchedBy(spaces: Spaces, inf: Inferior): SW.Patched {
    SW.Patched(if inf.vspace in spaces then spaces[inf.vspace] else VSpace(map[], {}, {}), inf.swBreaks)
  }

  function WithSpace(spaces: Spaces, v: nat, space: VSpace): Spaces {
    if v in spaces then spaces[v := space] else spaces
  }

  /** The memories once the software breakpoints of the first `n` inferiors are cleared. */
  function DetachSpaces(spaces: Spaces, infs: seq<Inferior>, n: nat): (r: Spaces)
    requires n <= |infs| && ValidSpaces(spaces)
    ensures ValidSpaces(r)
  {
    if n == 0 then spaces else
    var prior := DetachSpaces(spaces, infs, n - 1);
    var inf := infs[n - 1];
    if inf.enabled then WithSpace(prior, inf.vspace, SW.DetachFrom(PatchedBy(prior, inf), 0).vs) else prior
  }

  /** What handle_detach has done after `n` inferiors, registers and tables agreeing. */
  function DetachUpTo(s: State, n: nat): State
    requires n <= |s.inferiors| && ValidSpaces(s.machine.spaces)
  {
    s.(inferiors := seq(|s.inferiors|, i requires 0 <= i < |s.inferiors| =>
                          if i < n then DetachInferior(s.inferiors[i]) else s.inferiors[i]),
       machine := Machine(map t | t in s.machine.tcbs ::
                            if t in LiveTcbsUpTo(s.inferiors, n) then DetachTcb(s.machine.tcbs[t])
                                else s.machine.tcbs[t],
                          DetachSpaces(s.machine.spaces, s.inferiors, n)))
  }

  function Detach(s: State): State
    requires ValidSpaces(s.machine.spaces)
  {
    DetachUpTo(s, |s.inferiors|)
  }

  // ---------------------------------------------------------------------------
  // Software breakpoints of inferior `i`

  function SetSwBreak(s: State, i: nat, a: nat): (r: (bool, State))
    requires i < |s.inferiors| && ValidSpaces(s.machine.spaces)
  {
    var inf := s.inferiors[i];
    var o := SW.SetBreak(PatchedBy(s.machine.spaces, inf), a);
    (o.ok, WithPatched(s, i, o.state))
  }

  function UnsetSwBreak(s: State, i: nat, a: nat): (r: (bool, State))
    requires i < |s.inferiors| && ValidSpaces(s.machine.spaces)
  {
    var inf := s.inferiors[i];
    var o := SW.UnsetBreak(PatchedBy(s.machine.spaces, inf), a);
    (o.ok, WithPatched(s, i, o.state))
  }

  function WithPatched(s: State, i: nat, p: SW.Patched): State
    requires i < |s.inferiors|
  {
    var inf := s.inferiors[i];
    s.(inferiors := s.inferiors[i := inf.(swBreaks := p.table)],
       machine := s.machine.(spaces := WithSpace(s.machine.spaces, inf.vspace, p.vs)))
  }
}

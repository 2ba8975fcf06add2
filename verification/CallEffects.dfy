/**
 What the calls on debug registers, running threads and tables do, entry by entry and
 thread by thread, and what they leave alone (src/gdb.c, src/arch/arm/64/gdb.c).
 */
module CallEffects {
  import opened Options
  import opened Words
  import opened Kernel
  import opened Debugger
  import SW = SoftwareBreakpoints

  // ---------------------------------------------------------------------------
  // Hardware breakpoints and watchpoints

  /** Breakpoint entry `n` of inferior `i` and register `n` of its enabled threads have become
      `addr` and `reg`; nothing else has changed. */
  ghost predicate BreakChanged(s: State, r: State, i: nat, n: int, addr: nat, reg: Option<nat>) {
    && i < |s.inferiors| && 0 <= n < |s.inferiors[i].hwBreaks|
    && r == s.(inferiors := s.inferiors[i := s.inferiors[i].(hwBreaks := s.inferiors[i].hwBreaks[n := addr])],
               machine := s.machine.(tcbs := r.machine.tcbs))
    && r.machine.tcbs.Keys == s.machine.tcbs.Keys
    && forall t :: t in s.machine.tcbs ==>
         if t in EnabledTcbs(s.inferiors[i].threads) && n < |s.machine.tcbs[t].breaks|
         then r.machine.tcbs[t] == s.machine.tcbs[t].(breaks := s.machine.tcbs[t].breaks[n := reg])
         else r.machine.tcbs[t] == s.machine.tcbs[t]
  }

  /** Setting succeeds exactly if an entry is free, and puts the address there. */
  lemma SetBreakExactly(s: State, i: nat, addr: nat)
    requires i < |s.inferiors|
    ensures var (ok, r) := SetHwBreak(s, i, addr);
            && (ok <==> exists n :: 0 <= n < |s.inferiors[i].hwBreaks| && s.inferiors[i].hwBreaks[n] == 0)
            && (ok ==> exists n :: 0 <= n < |s.inferiors[i].hwBreaks| && s.inferiors[i].hwBreaks[n] == 0
                                   && BreakChanged(s, r, i, n, addr, Some(addr)))
            && (!ok ==> r == s)
  {
    var n := FirstBreak(s.inferiors[i].hwBreaks, 0);
    if n < |s.inferiors[i].hwBreaks| {
      assert BreakChanged(s, SetHwBreak(s, i, addr).1, i, n, addr, Some(addr));
    }
  }

  /** Clearing succeeds exactly if the address is tabled, and frees one such entry. */
  lemma UnsetBreakExactly(s: State, i: nat, addr: nat)
    requires i < |s.inferiors|
    ensures var (ok, r) := UnsetHwBreak(s, i, addr);
            && (ok <==> addr in s.inferiors[i].hwBreaks)
            && (ok ==> exists n :: 0 <= n < |s.inferiors[i].hwBreaks| && s.inferiors[i].hwBreaks[n] == addr
                                   && BreakChanged(s, r, i, n, 0, None))
            && (!ok ==> r == s)
  {
    var n := FirstBreak(s.inferiors[i].hwBreaks, addr);
    if n < |s.inferiors[i].hwBreaks| {
      assert BreakChanged(s, UnsetHwBreak(s, i, addr).1, i, n, 0, None);
    }
  }

  ghost predicate WatchChanged(s: State, r: State, i: nat, n: int, w: Watch, reg: Option<Watch>) {
    && i < |s.inferiors| && 0 <= n < |s.inferiors[i].hwWatches|
    && r == s.(inferiors := s.inferiors[i := s.inferiors[i].(hwWatches := s.inferiors[i].hwWatches[n := w])],
               machine := s.machine.(tcbs := r.machine.tcbs))
    && r.machine.tcbs.Keys == s.machine.tcbs.Keys
    && forall t :: t in s.machine.tcbs ==>
         if t in EnabledTcbs(s.inferiors[i].threads) && n < |s.machine.tcbs[t].watches|
         then r.machine.tcbs[t] == s.machine.tcbs[t].(watches := s.machine.tcbs[t].watches[n := reg])
         else r.machine.tcbs[t] == s.machine.tcbs[t]
  }

  lemma SetWatchExactly(s: State, i: nat, w: Watch)
    requires i < |s.inferiors|
    ensures var (ok, r) := SetHwWatch(s, i, w);
            && (ok <==> exists n :: 0 <= n < |s.inferiors[i].hwWatches| && s.inferiors[i].hwWatches[n].addr == 0)
            && (ok ==> exists n :: 0 <= n < |s.inferiors[i].hwWatches| && s.inferiors[i].hwWatches[n].addr == 0
                                   && WatchChanged(s, r, i, n, w, Some(w)))
            && (!ok ==> r == s)
  {
    var n := FirstFreeWatch(s.inferiors[i].hwWatches);
    if n < |s.inferiors[i].hwWatches| {
      assert WatchChanged(s, SetHwWatch(s, i, w).1, i, n, w, Some(w));
    }
  }

  /** A watchpoint is cleared only with its address, size and access all as set. */
  lemma UnsetWatchExactly(s: State, i: nat, w: Watch)
    requires i < |s.inferiors|
    ensures var (ok, r) := UnsetHwWatch(s, i, w);
            && (ok <==> w in s.inferiors[i].hwWatches)
            && (ok ==> exists n :: 0 <= n < |s.inferiors[i].hwWatches| && s.inferiors[i].hwWatches[n] == w
                                   && WatchChanged(s, r, i, n, Watch(0, w.size, w.access), None))
            && (!ok ==> r == s)
  {
    var n := FirstWatch(s.inferiors[i].hwWatches, w);
    if n < |s.inferiors[i].hwWatches| {
      assert WatchChanged(s, UnsetHwWatch(s, i, w).1, i, n, Watch(0, w.size, w.access), None);
    }
  }

  // ---------------------------------------------------------------------------
  // Suspending, resuming, exiting

  /** Nothing but running bits differs. */
  ghost predicate OnlyRunning(s: State, r: State) {
    && r == s.(machine := s.machine.(tcbs := r.machine.tcbs)) && r.machine.tcbs.Keys == s.machine.tcbs.Keys
    && forall t :: t in s.machine.tcbs ==>
         r.machine.tcbs[t] == s.machine.tcbs[t].(running := r.machine.tcbs[t].running)
  }

  lemma SuspendOnlyRunning(s: State)
    ensures OnlyRunning(s, SuspendSystem(s))
  {
  }

  lemma ResumeOnlyRunning(s: State)
    ensures OnlyRunning(s, ResumeSystem(s))
  {
  }

  /** Suspending stops exactly the live threads. */
  lemma SuspendExactly(s: State, t: nat)
    requires t in s.machine.tcbs
    ensures SuspendSystem(s).machine.tcbs[t].running <==>
            s.machine.tcbs[t].running
            && !exists i, j :: Live(s.inferiors, i, j) && TcbAt(s.inferiors, i, j) == t
  {
    if i, j :| Live(s.inferiors, i, j) && TcbAt(s.inferiors, i, j) == t {
      assert s.inferiors[i].threads[j].tcb == t;
    }
  }

  /** Resuming starts exactly the live threads marked to wake. */
  lemma ResumeExactly(s: State, t: nat)
    requires t in s.machine.tcbs
    ensures ResumeSystem(s).machine.tcbs[t].running <==>
            || s.machine.tcbs[t].running
            || exists i, j ::
                 Live(s.inferiors, i, j) && TcbAt(s.inferiors, i, j) == t && s.inferiors[i].threads[j].wakeup
  {
    if i, j :| Live(s.inferiors, i, j) && TcbAt(s.inferiors, i, j) == t && s.inferiors[i].threads[j].wakeup {
      assert s.inferiors[i].threads[j].tcb == t;
    }
  }

  /** An exit clears one enabled flag and nothing else; ids, marks and registers stay. */
  lemma ExitExactly(s: State, id: nat, threadId: nat)
    ensures var (e, r) := ThreadExit(s, id, threadId);
            e == NoError ==> exists i, j ::
              && Live(s.inferiors, i, j) && s.inferiors[i].id == id && s.inferiors[i].threads[j].id == threadId
              && r == s.(inferiors := s.inferiors[i := s.inferiors[i].(
                           threads := s.inferiors[i].threads[j := s.inferiors[i].threads[j].(enabled := false)])])
  {
    var at := LookupInferior(s.inferiors, id);
    if at.Some? {
      var j := LookupThread(s.inferiors[at.value].threads, threadId);
      if j.Some? {
        assert Live(s.inferiors, at.value, j.value);
      }
    }
  }

  // ---------------------------------------------------------------------------
  // Registration

  /** A thread that joins gets every tabled breakpoint and watchpoint in its registers and
      keeps what its other registers held, its single-step bit and its running bit. */
  lemma JoinExactly(s: State, id: nat, threadId: nat, tcb: nat, n: nat)
    requires |s.inferiors| == MAX_PDS && tcb in s.machine.tcbs
    requires forall i :: 0 <= i < MAX_PDS ==> |s.inferiors[i].threads| == MAX_THREADS
    requires RegisterThread(s, id, threadId, tcb).0 == NoError
    ensures LookupInferior(s.inferiors, id).Some?
    ensures var inf := s.inferiors[LookupInferior(s.inferiors, id).value];
            var t, t' := s.machine.tcbs[tcb], RegisterThread(s, id, threadId, tcb).1.machine.tcbs[tcb];
            && t' == t.(breaks := t'.breaks, watches := t'.watches)
            && |t'.breaks| == |t.breaks| && |t'.watches| == |t.watches|
            && (n < |t.breaks| && n < |inf.hwBreaks| ==>
                  t'.breaks[n] == if inf.hwBreaks[n] != 0 then Some(inf.hwBreaks[n]) else t.breaks[n])
            && (n < |t.watches| && n < |inf.hwWatches| ==>
                  t'.watches[n] == if inf.hwWatches[n].addr != 0 then Some(inf.hwWatches[n]) else t.watches[n])
  {
  }

  /** A registration that finds no slot moves its counter once round the table. */
  lemma FullExactly(s: State, id: nat, threadId: nat, tcb: nat, vspace: nat)
    requires |s.inferiors| == MAX_PDS && tcb in s.machine.tcbs
    requires forall i :: 0 <= i < MAX_PDS ==> |s.inferiors[i].threads| == MAX_THREADS
    ensures var (e, r) := RegisterInferior(s, id, vspace);
            e == InsufficientResources ==> r == s.(currInferiorIdx := s.currInferiorIdx + 64)
    ensures var (e, r) := RegisterThread(s, id, threadId, tcb);
            e == InsufficientResources ==>
              && LookupInferior(s.inferiors, id).Some?
              && var i := LookupInferior(s.inferiors, id).value;
              r == s.(inferiors := s.inferiors[i := s.inferiors[i].(
                          currThreadIdx := s.inferiors[i].currThreadIdx + 256)])
  {
  }

  // ---------------------------------------------------------------------------
  // Detaching

  /** Detaching empties all tables of enabled inferiors and touches no others; threads keep
      ids, places and TCBs, and kernel state other than debug registers, single-step bits
      and memory stays. */
  lemma DetachExactly(s: State)
    requires ValidSpaces(s.machine.spaces)
    ensures var r := Detach(s);
            && |r.inferiors| == |s.inferiors| && r.currInferiorIdx == s.currInferiorIdx && r.target == s.target
            && (forall i :: 0 <= i < |s.inferiors| && !s.inferiors[i].enabled ==> r.inferiors[i] == s.inferiors[i])
            && (forall i :: 0 <= i < |s.inferiors| && s.inferiors[i].enabled ==>
                  Emptied(s.inferiors[i], r.inferiors[i]))
    ensures var r := Detach(s);
            && r.machine.tcbs.Keys == s.machine.tcbs.Keys
            && forall t :: t in s.machine.tcbs ==>
                 && r.machine.tcbs[t].running == s.machine.tcbs[t].running
                 && |r.machine.tcbs[t].breaks| == |s.machine.tcbs[t].breaks|
                 && |r.machine.tcbs[t].watches| == |s.machine.tcbs[t].watches|
                 && (t !in LiveTcbs(s.inferiors) ==> r.machine.tcbs[t] == s.machine.tcbs[t])
  {
  }

  ghost predicate Emptied(was: Inferior, now: Inferior) {
    && now == was.(swBreaks := now.swBreaks, hwBreaks := now.hwBreaks, hwWatches := now.hwWatches,
                   threads := now.threads)
    && |now.swBreaks| == |was.swBreaks| && |now.hwBreaks| == |was.hwBreaks| && |now.hwWatches| == |was.hwWatches|
    && (forall n :: 0 <= n < |now.swBreaks| ==> now.swBreaks[n] == SW.SwBreak(0, ZERO_WORD))
    && (forall n :: 0 <= n < |now.hwBreaks| ==> now.hwBreaks[n] == 0)
    && (forall n :: 0 <= n < |now.hwWatches| ==> now.hwWatches[n] == Watch(0, 0, OnRead))
    && |now.threads| == |was.threads|
    && forall j :: 0 <= j < |was.threads| ==>
         if was.threads[j].enabled
         then now.threads[j] == was.threads[j].(ssEnabled := false, wakeup := true)
         else now.threads[j] == was.threads[j]
  }
}

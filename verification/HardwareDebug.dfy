/**
 Every operation keeps the tables in agreement with the threads' debug registers
 and the single-step flags (src/arch/arm/64/gdb.c, src/gdb.c).
 */
module HardwareDebug {
  import opened Options
  import opened Kernel
  import opened Debugger
  import SW = SoftwareBreakpoints

  /** A table entry and the registers change together. */
  lemma BreakRegsUpdate(table: seq<nat>, n: nat, a: nat)
    requires n < |table|
    ensures BreakRegs(table[n := a]) == BreakRegs(table)[n := if a == 0 then None else Some(a)]
  {
  }

  lemma WatchRegsUpdate(table: seq<Watch>, n: nat, w: Watch)
    requires n < |table|
    ensures WatchRegs(table[n := w]) == WatchRegs(table)[n := if w.addr == 0 then None else Some(w)]
  {
  }

  /** Changing one inferior's tables while making the same call on its threads:
      the invariant survives when the call takes the old mirror to the new one. */
  lemma WithCallsKeeps(s: State, i: nat, inf: Inferior, call: Call, nb: nat, nw: nat)
    requires Inv(s, nb, nw) && i < MAX_PDS
    requires inf.threads == s.inferiors[i].threads && inf.enabled == s.inferiors[i].enabled
    requires TableSizes(inf, nb, nw)
    requires !call.SingleStep?
    requires forall t: Kernel.Tcb :: |t.breaks| == nb && |t.watches| == nw && Mirrors(t, s.inferiors[i]) ==>
               Mirrors(Perform(call, t), inf)
    ensures Inv(WithCalls(s, i, inf, call), nb, nw)
  {
    var r := WithCalls(s, i, inf, call);
    forall a, b ensures Live(r.inferiors, a, b) == Live(s.inferiors, a, b) {}
    forall a, b | Live(r.inferiors, a, b)
      ensures TcbAt(r.inferiors, a, b) == TcbAt(s.inferiors, a, b)
      ensures r.inferiors[a].threads[b] == s.inferiors[a].threads[b]
      ensures Mirrors(r.machine.tcbs[TcbAt(r.inferiors, a, b)], r.inferiors[a])
    {
      assert Live(s.inferiors, a, b);
      OnlyOwnThreads(s, i, a, b);
    }
  }

  /** The threads of inferior `i` are told apart from all others by their TCBs. */
  lemma OnlyOwnThreads(s: State, i: nat, a: nat, b: nat)
    requires OwnTcbs(s) && i < |s.inferiors| && Live(s.inferiors, a, b)
    ensures TcbAt(s.inferiors, a, b) in EnabledTcbs(s.inferiors[i].threads) <==> a == i
  {
    var t := TcbAt(s.inferiors, a, b);
    var threads := s.inferiors[i].threads;
    if a != i {
      forall k | 0 <= k < |threads| && threads[k].enabled ensures threads[k].tcb != t {
        assert Live(s.inferiors, i, k);
        assert TcbAt(s.inferiors, i, k) == threads[k].tcb;
      }
    }
  }

  lemma SetHwBreakKeeps(s: State, i: nat, addr: nat, nb: nat, nw: nat)
    requires Inv(s, nb, nw) && i < MAX_PDS && addr != 0
    ensures Inv(SetHwBreak(s, i, addr).1, nb, nw)
  {
    var inf := s.inferiors[i];
    var n := FirstBreak(inf.hwBreaks, 0);
    if n < |inf.hwBreaks| {
      BreakRegsUpdate(inf.hwBreaks, n, addr);
      WithCallsKeeps(s, i, inf.(hwBreaks := inf.hwBreaks[n := addr]), Call.SetBreak(n, addr), nb, nw);
    }
  }

  lemma UnsetHwBreakKeeps(s: State, i: nat, addr: nat, nb: nat, nw: nat)
    requires Inv(s, nb, nw) && i < MAX_PDS
    ensures Inv(UnsetHwBreak(s, i, addr).1, nb, nw)
  {
    var inf := s.inferiors[i];
    var n := FirstBreak(inf.hwBreaks, addr);
    if n < |inf.hwBreaks| {
      BreakRegsUpdate(inf.hwBreaks, n, 0);
      WithCallsKeeps(s, i, inf.(hwBreaks := inf.hwBreaks[n := 0]), Call.UnsetBreak(n), nb, nw);
    }
  }

  lemma SetHwWatchKeeps(s: State, i: nat, w: Watch, nb: nat, nw: nat)
    requires Inv(s, nb, nw) && i < MAX_PDS && w.addr != 0
    ensures Inv(SetHwWatch(s, i, w).1, nb, nw)
  {
    var inf := s.inferiors[i];
    var n := FirstFreeWatch(inf.hwWatches);
    if n < |inf.hwWatches| {
      WatchRegsUpdate(inf.hwWatches, n, w);
      WithCallsKeeps(s, i, inf.(hwWatches := inf.hwWatches[n := w]), Call.SetWatch(n, w), nb, nw);
    }
  }

  lemma UnsetHwWatchKeeps(s: State, i: nat, w: Watch, nb: nat, nw: nat)
    requires Inv(s, nb, nw) && i < MAX_PDS
    ensures Inv(UnsetHwWatch(s, i, w).1, nb, nw)
  {
    var inf := s.inferiors[i];
    var n := FirstWatch(inf.hwWatches, w);
    if n < |inf.hwWatches| {
      var free := inf.hwWatches[n].(addr := 0);
      WatchRegsUpdate(inf.hwWatches, n, free);
      WithCallsKeeps(s, i, inf.(hwWatches := inf.hwWatches[n := free]), Call.UnsetWatch(n), nb, nw);
    }
  }

  /** A breakpoint at address 0 is the one that breaks the agreement: its register
      is programmed while its entry still reads as free. */
  lemma SetHwBreakExactly(s: State, i: nat, addr: nat, nb: nat, nw: nat)
    requires Inv(s, nb, nw) && i < MAX_PDS && s.inferiors[i].enabled
    ensures Agreement(SetHwBreak(s, i, addr).1) <==>
            || addr != 0
            || (forall n :: 0 <= n < nb ==> s.inferiors[i].hwBreaks[n] != 0)
            || (forall j :: 0 <= j < MAX_THREADS ==> !s.inferiors[i].threads[j].enabled)
  {
    var inf := s.inferiors[i];
    var n := FirstBreak(inf.hwBreaks, 0);
    var r := SetHwBreak(s, i, addr).1;
    if addr != 0 {
      SetHwBreakKeeps(s, i, addr, nb, nw);
    } else if n < nb {
      forall a, b ensures Live(r.inferiors, a, b) == Live(s.inferiors, a, b) {}
      assert inf.hwBreaks[n := 0] == inf.hwBreaks;
      if j :| 0 <= j < MAX_THREADS && inf.threads[j].enabled {
        assert Live(r.inferiors, i, j);
        var t := TcbAt(r.inferiors, i, j);
        assert Live(s.inferiors, i, j) && t in EnabledTcbs(inf.threads);
        assert r.machine.tcbs[t].breaks[n] == Some(0);
        assert BreakRegs(inf.hwBreaks)[n] == None;
      } else {
        assert EnabledTcbs(inf.threads) == {};
        assert r.machine.tcbs == s.machine.tcbs;
        assert r == s;
      }
    } else {
      assert r == s;
    }
  }

  /** And so is a watchpoint at address 0. */
  lemma SetHwWatchExactly(s: State, i: nat, w: Watch, nb: nat, nw: nat)
    requires Inv(s, nb, nw) && i < MAX_PDS && s.inferiors[i].enabled
    ensures Agreement(SetHwWatch(s, i, w).1) <==>
            || w.addr != 0
            || (forall n :: 0 <= n < nw ==> s.inferiors[i].hwWatches[n].addr != 0)
            || (forall j :: 0 <= j < MAX_THREADS ==> !s.inferiors[i].threads[j].enabled)
  {
    var inf := s.inferiors[i];
    var n := FirstFreeWatch(inf.hwWatches);
    var r := SetHwWatch(s, i, w).1;
    if w.addr != 0 {
      SetHwWatchKeeps(s, i, w, nb, nw);
    } else if n < nw {
      forall a, b ensures Live(r.inferiors, a, b) == Live(s.inferiors, a, b) {}
      if j :| 0 <= j < MAX_THREADS && inf.threads[j].enabled {
        WatchAtZero(s, i, w, n, j, nb, nw);
      } else {
        assert EnabledTcbs(inf.threads) == {};
        assert r.machine.tcbs == s.machine.tcbs;
      }
    }
  }

  lemma WatchAtZero(s: State, i: nat, w: Watch, n: nat, j: nat, nb: nat, nw: nat)
    requires Inv(s, nb, nw) && i < MAX_PDS && Live(s.inferiors, i, j)
    requires n == FirstFreeWatch(s.inferiors[i].hwWatches) < nw && w.addr == 0
    ensures !Agreement(SetHwWatch(s, i, w).1)
  {
    var r := SetHwWatch(s, i, w).1;
    assert Live(r.inferiors, i, j);
    var t := TcbAt(r.inferiors, i, j);
    assert t in EnabledTcbs(s.inferiors[i].threads);
    assert r.machine.tcbs[t].watches[n] == Some(w);
    assert WatchRegs(r.inferiors[i].hwWatches)[n] == None;
  }

  // ---------------------------------------------------------------------------
  // Registration and exit

  /** What registering asks of a thread's kernel state: nothing set where the
      inferior's tables have nothing, and no single-stepping. */
  ghost predicate CleanFor(t: Kernel.Tcb, inf: Inferior) {
    && (forall n :: 0 <= n < |t.breaks| && n < |inf.hwBreaks| && inf.hwBreaks[n] == 0 ==> t.breaks[n] == None)
    && (forall n :: 0 <= n < |t.watches| && n < |inf.hwWatches| && inf.hwWatches[n].addr == 0 ==> t.watches[n] == None)
  }

  lemma JoinMirrors(t: Kernel.Tcb, inf: Inferior)
    requires |t.breaks| == |inf.hwBreaks| && |t.watches| == |inf.hwWatches|
    ensures Mirrors(JoinRegs(t, inf), inf) <==> CleanFor(t, inf)
  {
    var r := JoinRegs(t, inf);
    if CleanFor(t, inf) {
      assert r.breaks == BreakRegs(inf.hwBreaks);
      assert r.watches == WatchRegs(inf.hwWatches);
    }
    if Mirrors(r, inf) {
      forall n | 0 <= n < |t.breaks| && inf.hwBreaks[n] == 0 ensures t.breaks[n] == None {
        assert r.breaks[n] == BreakRegs(inf.hwBreaks)[n];
      }
      forall n | 0 <= n < |t.watches| && inf.hwWatches[n].addr == 0 ensures t.watches[n] == None {
        assert r.watches[n] == WatchRegs(inf.hwWatches)[n];
      }
    }
  }

  ghost predicate FreshTcb(s: State, tcb: nat) {
    && tcb in s.machine.tcbs && !s.machine.tcbs[tcb].stepping
    && forall i, j :: Live(s.inferiors, i, j) ==> TcbAt(s.inferiors, i, j) != tcb
  }

  /** Registering a thread keeps tables and registers in agreement exactly when the
      TCB comes with clean registers, for a TCB no enabled thread has. */
  lemma RegisterThreadExactly(s: State, id: nat, threadId: nat, tcb: nat, nb: nat, nw: nat)
    requires Inv(s, nb, nw) && FreshTcb(s, tcb)
    ensures RegisterThread(s, id, threadId, tcb).0 == NoError ==> LookupInferior(s.inferiors, id).Some?
    ensures Inv(RegisterThread(s, id, threadId, tcb).1, nb, nw) <==>
            (RegisterThread(s, id, threadId, tcb).0 == NoError ==>
               CleanFor(s.machine.tcbs[tcb], s.inferiors[LookupInferior(s.inferiors, id).value]))
  {
    var (e, r) := RegisterThread(s, id, threadId, tcb);
    if e == NoError {
      var i := LookupInferior(s.inferiors, id).value;
      var inf := s.inferiors[i];
      var end := inf.currThreadIdx + MAX_THREADS;
      var j := NextFree(UsedThreads(inf.threads), inf.currThreadIdx, end) % MAX_THREADS;
      assert !inf.threads[j].enabled;
      JoinMirrors(s.machine.tcbs[tcb], inf);
      RegisterSlot(s, r, i, j, nb, nw);
    } else if e == InsufficientResources {
      CounterMoves(s, r, LookupInferior(s.inferiors, id).value, nb, nw);
    }
  }

  /** The counter of an inferior is no part of the invariant. */
  lemma CounterMoves(s: State, r: State, i: nat, nb: nat, nw: nat)
    requires Inv(s, nb, nw) && i < MAX_PDS && |r.inferiors| == MAX_PDS && r.machine == s.machine
    requires r.inferiors == s.inferiors[i := s.inferiors[i].(currThreadIdx := r.inferiors[i].currThreadIdx)]
    ensures Inv(r, nb, nw)
  {
    forall a, b ensures Live(r.inferiors, a, b) == Live(s.inferiors, a, b) {}
  }

  /** The tables after a thread has been put into slot (i, j). */
  lemma RegisterSlot(s: State, r: State, i: nat, j: nat, nb: nat, nw: nat)
    requires Inv(s, nb, nw) && i < MAX_PDS && j < MAX_THREADS
    requires s.inferiors[i].enabled && !s.inferiors[i].threads[j].enabled
    requires |r.inferiors| == MAX_PDS && forall a :: 0 <= a < MAX_PDS && a != i ==> r.inferiors[a] == s.inferiors[a]
    requires var inf := s.inferiors[i];
             && |r.inferiors[i].threads| == MAX_THREADS
             && r.inferiors[i] == inf.(threads := inf.threads[j := r.inferiors[i].threads[j]],
                                       currThreadIdx := r.inferiors[i].currThreadIdx)
    requires var th := r.inferiors[i].threads[j];
             && th.enabled && FreshTcb(s, th.tcb)
             && var joined := JoinRegs(s.machine.tcbs[th.tcb], s.inferiors[i]);
             && r.machine == s.machine.(tcbs := s.machine.tcbs[th.tcb := joined])
    ensures Inv(r, nb, nw) <==>
            Mirrors(JoinRegs(s.machine.tcbs[r.inferiors[i].threads[j].tcb], s.inferiors[i]), s.inferiors[i])
  {
  }

  lemma RegisterInferiorKeeps(s: State, id: nat, vspace: nat, nb: nat, nw: nat)
    requires Inv(s, nb, nw)
    ensures Inv(RegisterInferior(s, id, vspace).1, nb, nw)
  {
    var (e, r) := RegisterInferior(s, id, vspace);
    if e == NoError {
      var c := NextFree(UsedInferiors(s.inferiors), s.currInferiorIdx, s.currInferiorIdx + MAX_PDS);
      var k := c % MAX_PDS;
      assert !s.inferiors[k].enabled;
      forall a, b ensures Live(r.inferiors, a, b) == Live(s.inferiors, a, b) {}
      forall a, b | Live(s.inferiors, a, b) ensures r.inferiors[a] == s.inferiors[a] {}
    } else {
      forall a, b ensures Live(r.inferiors, a, b) == Live(s.inferiors, a, b) {}
    }
  }

  lemma ThreadExitKeeps(s: State, id: nat, threadId: nat, nb: nat, nw: nat)
    requires Inv(s, nb, nw)
    ensures Inv(ThreadExit(s, id, threadId).1, nb, nw)
  {
    var (e, r) := ThreadExit(s, id, threadId);
    if e == NoError {
      var i := LookupInferior(s.inferiors, id).value;
      var j := LookupThread(s.inferiors[i].threads, threadId).value;
      forall a, b | Live(r.inferiors, a, b)
        ensures Live(s.inferiors, a, b) && TcbAt(r.inferiors, a, b) == TcbAt(s.inferiors, a, b)
        ensures s.inferiors[a].threads[b] == r.inferiors[a].threads[b]
        ensures r.inferiors[a].hwBreaks == s.inferiors[a].hwBreaks &&
                r.inferiors[a].hwWatches == s.inferiors[a].hwWatches
      {}
    }
  }

  // ---------------------------------------------------------------------------
  // Running bits

  lemma SuspendSystemKeeps(s: State, nb: nat, nw: nat)
    requires Inv(s, nb, nw)
    ensures Inv(SuspendSystem(s), nb, nw)
    ensures forall i, j :: Live(s.inferiors, i, j) ==> !SuspendSystem(s).machine.tcbs[TcbAt(s.inferiors, i, j)].running
  {
  }

  /** From an all-suspended system, exactly the threads marked to wake run. */
  lemma ResumeSystemKeeps(s: State, nb: nat, nw: nat)
    requires Inv(s, nb, nw)
    ensures Inv(ResumeSystem(s), nb, nw)
    ensures forall i, j :: Live(s.inferiors, i, j) ==>
              (ResumeSystem(s).machine.tcbs[TcbAt(s.inferiors, i, j)].running <==>
                 s.machine.tcbs[TcbAt(s.inferiors, i, j)].running || s.inferiors[i].threads[j].wakeup)
  {
  }

  // ---------------------------------------------------------------------------
  // Software breakpoints and detach

  /** Operations on tables and memory the debug registers have no part in. */
  lemma WithPatchedKeeps(s: State, i: nat, p: SW.Patched, nb: nat, nw: nat)
    requires Inv(s, nb, nw) && i < MAX_PDS && |p.table| == MAX_SW_BREAKS && p.vs.Valid()
    ensures Inv(WithPatched(s, i, p), nb, nw)
  {
  }

  lemma DetachUpToKeeps(s: State, n: nat, nb: nat, nw: nat)
    requires Inv(s, nb, nw) && n <= MAX_PDS
    ensures Inv(DetachUpTo(s, n), nb, nw)
    ensures forall i, j :: Live(DetachUpTo(s, n).inferiors, i, j) <==> Live(s.inferiors, i, j)
    ensures forall i, j :: Live(s.inferiors, i, j) && i < n ==> Released(DetachUpTo(s, n), i, j)
  {
    var r := DetachUpTo(s, n);
    forall i, j ensures Live(r.inferiors, i, j) <==> Live(s.inferiors, i, j) {}
    forall i, j | Live(s.inferiors, i, j)
      ensures TcbAt(r.inferiors, i, j) == TcbAt(s.inferiors, i, j)
      ensures i < n ==> Released(r, i, j)
      ensures Mirrors(r.machine.tcbs[TcbAt(r.inferiors, i, j)], r.inferiors[i])
      ensures r.machine.tcbs[TcbAt(r.inferiors, i, j)].stepping ==> r.inferiors[i].threads[j].ssEnabled
    {
      var tcb := TcbAt(s.inferiors, i, j);
      var t := r.machine.tcbs[tcb];
      LiveUpTo(s, n, i, j);
      if i < n {
        assert t.breaks == BreakRegs(r.inferiors[i].hwBreaks);
        assert t.watches == WatchRegs(r.inferiors[i].hwWatches);
      } else {
        assert Mirrors(s.machine.tcbs[tcb], s.inferiors[i]);
      }
    }
    assert Shape(r, nb, nw);
  }

  lemma LiveUpTo(s: State, n: nat, i: nat, j: nat)
    requires OwnTcbs(s) && n <= |s.inferiors| && Live(s.inferiors, i, j)
    ensures TcbAt(s.inferiors, i, j) in LiveTcbsUpTo(s.inferiors, n) <==> i < n
  {
  }

  /** Detaching clears every register and every entry, stops all stepping and marks
      every enabled thread to wake. */
  lemma DetachKeeps(s: State, nb: nat, nw: nat)
    requires Inv(s, nb, nw)
    ensures Inv(Detach(s), nb, nw)
    ensures forall i, j :: Live(Detach(s).inferiors, i, j) <==> Live(s.inferiors, i, j)
    ensures forall i, j :: Live(s.inferiors, i, j) ==> Released(Detach(s), i, j)
  {
    DetachUpToKeeps(s, MAX_PDS, nb, nw);
  }

  /** A thread the debugger has let go of. */
  ghost predicate Released(s: State, i: nat, j: nat) {
    && Live(s.inferiors, i, j) && TcbAt(s.inferiors, i, j) in s.machine.tcbs
    && var t := s.machine.tcbs[TcbAt(s.inferiors, i, j)];
    && (forall n :: 0 <= n < |t.breaks| ==> t.breaks[n] == None)
    && (forall n :: 0 <= n < |t.watches| ==> t.watches[n] == None)
    && !t.stepping
    && !s.inferiors[i].threads[j].ssEnabled && s.inferiors[i].threads[j].wakeup
  }
}

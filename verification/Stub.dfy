/**
 The library's operations as they run (src/gdb.c, src/arch/arm/64/gdb.c): loops
 over the tables that update them in place and call the kernel thread by thread.
 Each is proved against its function in module Debugger. Kernel calls on known
 threads succeed; memory accesses may fail.
 */
module Stub {
  import opened Options
  import opened Words
  import opened Chars
  import opened Kernel
  import opened Debugger
  import opened Registry
  import opened DetachWalk
  import opened Hex
  import opened ThreadIds
  import opened Vcont
  import opened VcontPackets
  import opened VcontIds
  import HD = HardwareDebug
  import SW = SoftwareBreakpoints

  class Stub {
    var inferiors: seq<Inferior>
    var currInferiorIdx: nat
    var target: Option<Slot>
    var machine: Machine

    ghost function Model(): State
      reads this
    {
      State(inferiors, currInferiorIdx, target, machine)
    }

    method KernelCall(tcb: nat, call: Call)
      modifies this`machine
      ensures machine == old(machine).(tcbs := OnAll(old(machine.tcbs), {tcb}, call))
    {
      machine := machine.(tcbs := OnAll(machine.tcbs, {tcb}, call));
    }

    /** The loop over an inferior's threads every debug-register update ends in. */
    method CallThreads(i: nat, call: Call)
      requires i < |inferiors|
      modifies this`machine
      ensures machine == old(machine).(tcbs := OnAll(old(machine.tcbs), EnabledTcbs(inferiors[i].threads), call))
    {
      var threads := inferiors[i].threads;
      for j := 0 to |threads|
        invariant machine == old(machine).(tcbs := OnAll(old(machine.tcbs), EnabledTcbs(threads[..j]), call))
      {
        EnabledTcbsNext(threads, j);
        if threads[j].enabled {
          OnAllAdd(old(machine.tcbs), EnabledTcbs(threads[..j]), {threads[j].tcb}, call);
          KernelCall(threads[j].tcb, call);
        }
      }
      assert threads[..|threads|] == threads;
    }

    // -------------------------------------------------------------------------
    // Hardware breakpoints and watchpoints

    method SetHardwareBreakpoint(i: nat, addr: nat) returns (ok: bool)
      requires i < |inferiors|
      modifies this
      ensures (ok, Model()) == SetHwBreak(old(Model()), i, addr)
    {
      var inf := inferiors[i];
      var n := 0;
      while n < |inf.hwBreaks| && inf.hwBreaks[n] != 0
        invariant n <= |inf.hwBreaks| && forall k :: 0 <= k < n ==> inf.hwBreaks[k] != 0
      {
        n := n + 1;
      }
      assert n == FirstBreak(inf.hwBreaks, 0);
      if n == |inf.hwBreaks| {
        return false;
      }
      CallThreads(i, Call.SetBreak(n, addr));
      inferiors := inferiors[i := inf.(hwBreaks := inf.hwBreaks[n := addr])];
      return true;
    }

    method UnsetHardwareBreakpoint(i: nat, addr: nat) returns (ok: bool)
      requires i < |inferiors|
      modifies this
      ensures (ok, Model()) == UnsetHwBreak(old(Model()), i, addr)
    {
      var inf := inferiors[i];
      var n := 0;
      while n < |inf.hwBreaks| && inf.hwBreaks[n] != addr
        invariant n <= |inf.hwBreaks| && forall k :: 0 <= k < n ==> inf.hwBreaks[k] != addr
      {
        n := n + 1;
      }
      assert n == FirstBreak(inf.hwBreaks, addr);
      if n == |inf.hwBreaks| {
        return false;
      }
      inferiors := inferiors[i := inf.(hwBreaks := inf.hwBreaks[n := 0])];
      CallThreads(i, Call.UnsetBreak(n));
      return true;
    }

    method SetHardwareWatchpoint(i: nat, w: Watch) returns (ok: bool)
      requires i < |inferiors|
      modifies this
      ensures (ok, Model()) == SetHwWatch(old(Model()), i, w)
    {
      var inf := inferiors[i];
      var n := 0;
      while n < |inf.hwWatches| && inf.hwWatches[n].addr != 0
        invariant n <= |inf.hwWatches| && forall k :: 0 <= k < n ==> inf.hwWatches[k].addr != 0
      {
        n := n + 1;
      }
      assert n == FirstFreeWatch(inf.hwWatches);
      if n == |inf.hwWatches| {
        return false;
      }
      CallThreads(i, Call.SetWatch(n, w));
      inferiors := inferiors[i := inf.(hwWatches := inf.hwWatches[n := w])];
      return true;
    }

    method UnsetHardwareWatchpoint(i: nat, w: Watch) returns (ok: bool)
      requires i < |inferiors|
      modifies this
      ensures (ok, Model()) == UnsetHwWatch(old(Model()), i, w)
    {
      var inf := inferiors[i];
      var n := 0;
      while n < |inf.hwWatches| && inf.hwWatches[n] != w
        invariant n <= |inf.hwWatches| && forall k :: 0 <= k < n ==> inf.hwWatches[k] != w
      {
        n := n + 1;
      }
      assert n == FirstWatch(inf.hwWatches, w);
      if n == |inf.hwWatches| {
        return false;
      }
      inferiors := inferiors[i := inf.(hwWatches := inf.hwWatches[n := w.(addr := 0)])];
      CallThreads(i, Call.UnsetWatch(n));
      return true;
    }

    // -------------------------------------------------------------------------
    // Software breakpoints

    method WriteWord(v: nat, a: nat, w: Word) returns (ok: bool)
      requires ValidSpaces(machine.spaces)
      modifies this`machine
      ensures ValidSpaces(machine.spaces)
      ensures var space := old(PatchedBy(machine.spaces, NoBreaks(v)).vs);
              ok == (a in space.writable) &&
              machine == (if ok then old(machine).(spaces := WithSpace(old(machine.spaces), v, space.Write(a, w).value))
                          else old(machine))
    {
      ok := v in machine.spaces && a in machine.spaces[v].writable;
      if ok {
        machine := machine.(spaces := machine.spaces[v := machine.spaces[v].Write(a, w).value]);
      }
    }

    method SetSoftwareBreakpoint(i: nat, addr: nat) returns (ok: bool)
      requires i < |inferiors| && ValidSpaces(machine.spaces)
      modifies this
      ensures (ok, Model()) == SetSwBreak(old(Model()), i, addr)
    {
      var inf := inferiors[i];
      PatchedByItself(Model(), i);
      if inf.vspace !in machine.spaces || machine.spaces[inf.vspace].Read(addr) == None {
        return false;
      }
      ghost var p := PatchedBy(machine.spaces, inf);
      var word := machine.spaces[inf.vspace].Read(addr).value;
      ok := WriteWord(inf.vspace, addr, WithBreak(word));
      if !ok {
        assert SW.SetBreak(p, addr) == SW.Outcome(false, p);
        return false;
      }
      var n := EnterBreak(i, SW.SwBreak(addr, word));
      if n < |inf.swBreaks| {
        assert Model() == WithPatched(old(Model()), i, SW.SetBreak(p, addr).state);
        return true;
      }
      ghost var space := p.vs.Write(addr, WithBreak(word)).value;
      ok := WriteWord(inf.vspace, addr, word);
      assert SW.SetBreak(p, addr).state == SW.Patched(space.Write(addr, word).value, inf.swBreaks);
      assert machine.spaces == WithSpace(old(machine.spaces), inf.vspace, space.Write(addr, word).value);
      return false;
    }

    /** Puts an entry into the first free place of the table, if there is one. */
    method EnterBreak(i: nat, entry: SW.SwBreak) returns (n: nat)
      requires i < |inferiors|
      modifies this`inferiors
      ensures var inf := old(inferiors[i]);
              && n == SW.FirstAt(inf.swBreaks, 0)
              && inferiors == if n == |inf.swBreaks| then old(inferiors)
                              else old(inferiors)[i := inf.(swBreaks := inf.swBreaks[n := entry])]
    {
      var inf := inferiors[i];
      n := 0;
      while n < |inf.swBreaks|
        invariant n <= |inf.swBreaks| && forall k :: 0 <= k < n ==> inf.swBreaks[k].addr != 0
        invariant inferiors == old(inferiors)
      {
        if inf.swBreaks[n].addr == 0 {
          inferiors := inferiors[i := inf.(swBreaks := inf.swBreaks[n := entry])];
          return;
        }
        n := n + 1;
      }
    }

    method UnsetSoftwareBreakpoint(i: nat, addr: nat) returns (ok: bool)
      requires i < |inferiors| && ValidSpaces(machine.spaces)
      modifies this
      ensures (ok, Model()) == UnsetSwBreak(old(Model()), i, addr)
    {
      var inf := inferiors[i];
      PatchedByItself(Model(), i);
      var n := 0;
      while n < |inf.swBreaks|
        invariant n <= |inf.swBreaks| && forall k :: 0 <= k < n ==> inf.swBreaks[k].addr != addr
      {
        if inf.swBreaks[n].addr == addr {
          assert n == SW.FirstAt(inf.swBreaks, addr);
          ok := WriteWord(inf.vspace, addr, inf.swBreaks[n].word);
          if ok {
            inferiors := inferiors[i := inf.(swBreaks := inf.swBreaks[n := inf.swBreaks[n].(addr := 0)])];
          }
          return;
        }
        n := n + 1;
      }
      assert n == SW.FirstAt(inf.swBreaks, addr);
      return true;
    }

    // -------------------------------------------------------------------------
    // Suspending and resuming

    method SuspendAll()
      modifies this`machine
      ensures Model() == SuspendSystem(old(Model()))
    {
      for i := 0 to |inferiors|
        invariant machine == old(machine).(tcbs := OnAll(old(machine.tcbs), LiveTcbsUpTo(inferiors, i), Suspend))
      {
        LiveTcbsNext(inferiors, i);
        if inferiors[i].enabled {
          OnAllAdd(old(machine.tcbs), LiveTcbsUpTo(inferiors, i), EnabledTcbs(inferiors[i].threads), Suspend);
          CallThreads(i, Suspend);
        }
      }
    }

    method ResumeWaking()
      modifies this`machine
      ensures Model() == ResumeSystem(old(Model()))
    {
      for i := 0 to |inferiors|
        invariant machine == old(machine).(tcbs := OnAll(old(machine.tcbs), WakingTcbsUpTo(inferiors, i), Resume))
      {
        WakingTcbsNext(inferiors, i);
        if inferiors[i].enabled {
          ghost var before := machine;
          var threads := inferiors[i].threads;
          for j := 0 to |threads|
            invariant machine == before.(tcbs := OnAll(before.tcbs, WakingIn(threads[..j]), Resume))
          {
            WakingNext(threads, j);
            if threads[j].enabled && threads[j].wakeup {
              OnAllAdd(before.tcbs, WakingIn(threads[..j]), {threads[j].tcb}, Resume);
              KernelCall(threads[j].tcb, Resume);
            }
          }
          assert threads[..|threads|] == threads;
          OnAllAdd(old(machine.tcbs), WakingTcbsUpTo(inferiors, i), WakingIn(threads), Resume);
        }
      }
    }

    // -------------------------------------------------------------------------
    // Registration

    method LookupInferiorFromId(id: nat) returns (r: Option<nat>)
      ensures r == LookupInferior(inferiors, id)
    {
      for i := 0 to |inferiors|
        invariant LookupInferior(inferiors, id) ==
                  match LookupInferior(inferiors[i..], id) case None => None case Some(k) => Some(k + i)
      {
        if inferiors[i].enabled && inferiors[i].id == id {
          return Some(i);
        }
        assert inferiors[i..][1..] == inferiors[i + 1..];
      }
      return None;
    }

    method LookupThreadFromId(i: nat, id: nat) returns (r: Option<nat>)
      requires i < |inferiors|
      ensures r == LookupThread(inferiors[i].threads, id)
    {
      var threads := inferiors[i].threads;
      for j := 0 to |threads|
        invariant LookupThread(threads, id) ==
                  match LookupThread(threads[j..], id) case None => None case Some(k) => Some(k + j)
      {
        if threads[j].enabled && threads[j].id == id {
          return Some(j);
        }
        assert threads[j..][1..] == threads[j + 1..];
      }
      return None;
    }

    method GdbRegisterInferior(id: nat, vspace: nat) returns (e: DebuggerError)
      requires |inferiors| == MAX_PDS
      modifies this
      ensures (e, Model()) == RegisterInferior(old(Model()), id, vspace)
    {
      var known := LookupInferiorFromId(id);
      if known.Some? {
        return if inferiors[known.value].vspace == vspace then AlreadyRegistered else InvalidArguments;
      }
      var end := currInferiorIdx + MAX_PDS;
      ghost var used := UsedInferiors(inferiors);
      ghost var c := NextFree(used, currInferiorIdx, end);
      while currInferiorIdx < end
        invariant currInferiorIdx <= end && c == NextFree(used, currInferiorIdx, end)
        invariant Model() == old(Model()).(currInferiorIdx := currInferiorIdx)
      {
        if inferiors[currInferiorIdx % MAX_PDS].enabled {
          currInferiorIdx := currInferiorIdx + 1;
          continue;
        }
        var k := currInferiorIdx % MAX_PDS;
        currInferiorIdx := currInferiorIdx + 1;
        inferiors := inferiors[k := NewInferior(inferiors[k], id, currInferiorIdx % 0x1_0000, vspace)];
        return NoError;
      }
      return InsufficientResources;
    }

    method GdbThreadExit(id: nat, threadId: nat) returns (e: DebuggerError)
      modifies this
      ensures (e, Model()) == ThreadExit(old(Model()), id, threadId)
    {
      var i := LookupInferiorFromId(id);
      if i.None? {
        return InvalidArguments;
      }
      var j := LookupThreadFromId(i.value, threadId);
      if j.None? {
        return InvalidArguments;
      }
      var inf := inferiors[i.value];
      var gone := inf.threads[j.value].(enabled := false);
      inferiors := inferiors[i.value := inf.(threads := inf.threads[j.value := gone])];
      return NoError;
    }

    /** Copies an inferior's hardware breakpoints, then its watchpoints, into a thread. */
    method JoinThread(i: nat, tcb: nat)
      requires i < |inferiors| && tcb in machine.tcbs
      requires |machine.tcbs[tcb].breaks| == |inferiors[i].hwBreaks|
      requires |machine.tcbs[tcb].watches| == |inferiors[i].hwWatches|
      modifies this`machine
      ensures machine == old(machine).(tcbs := old(machine.tcbs)[tcb := JoinRegs(old(machine.tcbs[tcb]), inferiors[i])])
    {
      ghost var was, t := machine, machine.tcbs[tcb];
      JoinBreaks(i, tcb);
      JoinWatches(i, tcb);
      assert machine == was.(tcbs := was.tcbs[tcb := JoinRegs(t, inferiors[i])]);
    }

    method JoinBreaks(i: nat, tcb: nat)
      requires i < |inferiors| && tcb in machine.tcbs
      requires |machine.tcbs[tcb].breaks| == |inferiors[i].hwBreaks|
      modifies this`machine
      ensures machine.spaces == old(machine.spaces) && machine.tcbs.Keys == old(machine.tcbs.Keys)
      ensures forall t :: t in machine.tcbs && t != tcb ==> machine.tcbs[t] == old(machine.tcbs[t])
      ensures var t := old(machine.tcbs[tcb]);
              machine.tcbs[tcb] == t.(breaks := JoinRegs(t, inferiors[i]).breaks)
    {
      var inf := inferiors[i];
      ghost var t := machine.tcbs[tcb];
      ghost var all := JoinRegs(t, inf).breaks;
      for n := 0 to |inf.hwBreaks|
        invariant machine.spaces == old(machine.spaces) && machine.tcbs.Keys == old(machine.tcbs.Keys)
        invariant forall t :: t in machine.tcbs && t != tcb ==> machine.tcbs[t] == old(machine.tcbs[t])
        invariant |machine.tcbs[tcb].breaks| == |all|
        invariant machine.tcbs[tcb] == t.(breaks := machine.tcbs[tcb].breaks)
        invariant forall k :: 0 <= k < |all| ==> machine.tcbs[tcb].breaks[k] == if k < n then all[k] else t.breaks[k]
      {
        if inf.hwBreaks[n] != 0 {
          KernelCall(tcb, Call.SetBreak(n, inf.hwBreaks[n]));
        }
      }
    }

    method JoinWatches(i: nat, tcb: nat)
      requires i < |inferiors| && tcb in machine.tcbs
      requires |machine.tcbs[tcb].watches| == |inferiors[i].hwWatches|
      modifies this`machine
      ensures machine.spaces == old(machine.spaces) && machine.tcbs.Keys == old(machine.tcbs.Keys)
      ensures forall t :: t in machine.tcbs && t != tcb ==> machine.tcbs[t] == old(machine.tcbs[t])
      ensures var t := old(machine.tcbs[tcb]);
              machine.tcbs[tcb] == t.(watches := JoinRegs(t, inferiors[i]).watches)
    {
      var inf := inferiors[i];
      ghost var t := machine.tcbs[tcb];
      ghost var all := JoinRegs(t, inf).watches;
      for n := 0 to |inf.hwWatches|
        invariant machine.spaces == old(machine.spaces) && machine.tcbs.Keys == old(machine.tcbs.Keys)
        invariant forall t :: t in machine.tcbs && t != tcb ==> machine.tcbs[t] == old(machine.tcbs[t])
        invariant |machine.tcbs[tcb].watches| == |all|
        invariant machine.tcbs[tcb] == t.(watches := machine.tcbs[tcb].watches)
        invariant forall k :: 0 <= k < |all| ==> machine.tcbs[tcb].watches[k] == if k < n then all[k] else t.watches[k]
      {
        if inf.hwWatches[n].addr != 0 {
          KernelCall(tcb, Call.SetWatch(n, inf.hwWatches[n]));
        }
      }
    }

    /** The ring search for a free thread slot; it moves the inferior's counter. */
    method FindThreadSlot(i: nat) returns (found: bool)
      requires i < |inferiors| && |inferiors[i].threads| == MAX_THREADS
      modifies this`inferiors
      ensures var inf := old(inferiors[i]);
              var c := NextFree(UsedThreads(inf.threads), inf.currThreadIdx, inf.currThreadIdx + MAX_THREADS);
              && inferiors == old(inferiors)[i := inf.(currThreadIdx := c)]
              && found == (c < inf.currThreadIdx + MAX_THREADS)
    {
      var inf := inferiors[i];
      var end := inf.currThreadIdx + MAX_THREADS;
      ghost var used := UsedThreads(inf.threads);
      assert inferiors == inferiors[i := inf];
      while inferiors[i].currThreadIdx < end
        invariant |inferiors| == |old(inferiors)|
        invariant inf.currThreadIdx <= inferiors[i].currThreadIdx <= end
        invariant NextFree(used, inf.currThreadIdx, end) == NextFree(used, inferiors[i].currThreadIdx, end)
        invariant inferiors == old(inferiors)[i := inf.(currThreadIdx := inferiors[i].currThreadIdx)]
        decreases end - inferiors[i].currThreadIdx
      {
        var idx := inferiors[i].currThreadIdx;
        if !inferiors[i].threads[idx % MAX_THREADS].enabled {
          return true;
        }
        inferiors := inferiors[i := inferiors[i].(currThreadIdx := idx + 1)];
      }
      return false;
    }

    method GdbRegisterThread(id: nat, threadId: nat, tcb: nat, ghost nb: nat, ghost nw: nat) returns (e: DebuggerError)
      requires Shape(Model(), nb, nw) && tcb in machine.tcbs
      modifies this
      ensures (e, Model()) == RegisterThread(old(Model()), id, threadId, tcb)
    {
      var known := LookupInferiorFromId(id);
      if known.None? {
        return InvalidArguments;
      }
      var i := known.value;
      var thread := LookupThreadFromId(i, threadId);
      if thread.Some? {
        return if inferiors[i].threads[thread.value].tcb == tcb then AlreadyRegistered else InvalidArguments;
      }
      assert TableSizes(inferiors[i], nb, nw);
      ghost var was := inferiors[i];
      var found := FindThreadSlot(i);
      if !found {
        return InsufficientResources;
      }
      var inf := inferiors[i];
      var j := inf.currThreadIdx % MAX_THREADS;
      var idx := inf.currThreadIdx + 1;
      var th := Thread(true, false, false, threadId, idx % 0x1_0000, tcb);
      inferiors := inferiors[i := inf.(threads := inf.threads[j := th], currThreadIdx := idx)];
      assert inferiors == old(inferiors)[i := inferiors[i]];
      JoinThread(i, tcb);
      assert JoinRegs(old(machine.tcbs[tcb]), inferiors[i]) == JoinRegs(old(machine.tcbs[tcb]), was);
      if target.None? {
        target := Some(Slot(i, j));
      }
      return NoError;
    }

    // -------------------------------------------------------------------------
    // Detaching

    method ClearSoftwareBreakpoints(i: nat)
      requires i < |inferiors| && ValidSpaces(machine.spaces)
      modifies this
      ensures Model() == WithPatched(old(Model()), i, SW.DetachFrom(old(PatchedBy(machine.spaces, inferiors[i])), 0))
    {
      var n := |inferiors[i].swBreaks|;
      ghost var was := Model();
      ghost var p := PatchedBy(machine.spaces, inferiors[i]);
      ghost var q := p;
      PatchedByItself(was, i);
      for k := 0 to n
        invariant q.vs.Valid() && |q.table| == n && Follows(was, i, q)
        invariant Model() == WithPatched(was, i, q)
        invariant SW.DetachFrom(p, 0) == SW.DetachFrom(q, k)
      {
        UnsetSwStep(was, i, q, q.table[k].addr);
        var _ := UnsetSoftwareBreakpoint(i, inferiors[i].swBreaks[k].addr);
        q := SW.UnsetBreak(q, q.table[k].addr).state;
      }
    }

    method ReleaseInferiorThreads(i: nat)
      requires i < |inferiors|
      modifies this
      ensures Model() == ReleaseThreads(old(Model()), i)
    {
      var n := |inferiors[i].threads|;
      ghost var inf := inferiors[i];
      ghost var threads := inf.threads;
      assert inferiors == old(inferiors)[i := inf];
      for j := 0 to n
        invariant |inferiors| == |old(inferiors)| && |inferiors[i].threads| == n
        invariant inferiors == old(inferiors)[i := inf.(threads := inferiors[i].threads)]
        invariant forall k :: 0 <= k < n ==>
                    inferiors[i].threads[k] == if k < j then DetachThread(threads[k]) else threads[k]
        invariant Model() == old(Model()).(inferiors := inferiors, machine := machine)
        invariant machine == old(machine).(tcbs := OnAll(old(machine.tcbs), FlaggedIn(threads[..j]), SingleStep(false)))
      {
        FlaggedNext(threads, j);
        var th := inferiors[i].threads[j];
        if th.enabled {
          if th.ssEnabled {
            OnAllAdd(old(machine.tcbs), FlaggedIn(threads[..j]), {th.tcb}, SingleStep(false));
            KernelCall(th.tcb, SingleStep(false));
          }
          var inf := inferiors[i];
          var released := th.(ssEnabled := false, wakeup := true);
          inferiors := inferiors[i := inf.(threads := inf.threads[j := released])];
        }
      }
      assert threads[..n] == threads;
      assert inferiors[i].threads == ReleaseThreads(old(Model()), i).inferiors[i].threads;
    }

    method DetachFromInferior(i: nat, ghost nb: nat, ghost nw: nat)
      requires i < |inferiors| && Inv(Model(), nb, nw) && inferiors[i].enabled
      modifies this
      ensures Model() == DetachOne(old(Model()), i)
    {
      WalkIsDetach(Model(), i, nb, nw);
      ClearSoftwareBreakpoints(i);
      ClearHardware(i);
      assert |old(inferiors[i]).hwBreaks| == nb && |old(inferiors[i]).hwWatches| == nw;
      ReleaseInferiorThreads(i);
    }

    /** The loop over the hardware breakpoint table. */
    method ClearHwBreaks(i: nat)
      requires i < |inferiors|
      modifies this
      ensures Model() == ClearBreaks(old(Model()), i, |old(inferiors[i]).hwBreaks|)
    {
      ghost var was := Model();
      for n := 0 to |inferiors[i].hwBreaks|
        invariant |inferiors| == |was.inferiors| && |inferiors[i].hwBreaks| == |was.inferiors[i].hwBreaks|
        invariant Model() == ClearBreaks(was, i, n)
      {
        var _ := UnsetHardwareBreakpoint(i, inferiors[i].hwBreaks[n]);
      }
    }

    /** The loops over the hardware tables and the memsets after them. */
    method ClearHardware(i: nat)
      requires i < |inferiors|
      modifies this
      ensures var inf := old(inferiors[i]);
              Model() == ZeroTables(ClearWatches(ClearBreaks(old(Model()), i, |inf.hwBreaks|), i, |inf.hwWatches|), i)
    {
      ClearHwBreaks(i);
      ghost var was := Model();
      for n := 0 to |inferiors[i].hwWatches|
        invariant |inferiors| == |was.inferiors| && |inferiors[i].hwWatches| == |was.inferiors[i].hwWatches|
        invariant Model() == ClearWatches(was, i, n)
      {
        var _ := UnsetHardwareWatchpoint(i, inferiors[i].hwWatches[n]);
      }
      var inf := inferiors[i];
      inferiors := inferiors[i := inf.(swBreaks := seq(|inf.swBreaks|, _ => SW.SwBreak(0, ZERO_WORD)),
                                       hwBreaks := seq(|inf.hwBreaks|, _ => 0),
                                       hwWatches := seq(|inf.hwWatches|, _ => NO_WATCH))];
    }

    method HandleDetach(ghost nb: nat, ghost nw: nat)
      requires Inv(Model(), nb, nw)
      modifies this
      ensures Model() == Detach(old(Model()))
    {
      ghost var was := Model();
      HD.DetachUpToKeeps(was, 0, nb, nw);
      assert DetachUpTo(was, 0) == was;
      for i := 0 to |inferiors|
        invariant |inferiors| == |was.inferiors|
        invariant Model() == DetachUpTo(was, i)
      {
        DetachNext(was, i);
        HD.DetachUpToKeeps(was, i, nb, nw);
        if inferiors[i].enabled {
          DetachFromInferior(i, nb, nw);
        }
      }
    }

    // -------------------------------------------------------------------------
    // vCont

    method SetAllWakeups(value: bool)
      modifies this`inferiors
      ensures Model() == SetWakeups(old(Model()), value)
    {
      ghost var was := inferiors;
      for i := 0 to |inferiors|
        invariant |inferiors| == |was|
        invariant forall k :: 0 <= k < |was| ==> inferiors[k] == if k < i then SetWakeup(was[k], value) else was[k]
      {
        if !inferiors[i].enabled { continue; }
        var inf := inferiors[i];
        var threads := inf.threads;
        for j := 0 to |threads|
          invariant |threads| == |inf.threads|
          invariant forall k :: 0 <= k < |threads| ==>
                      threads[k] == if k < j && inf.threads[k].enabled then inf.threads[k].(wakeup := value)
                          else inf.threads[k]
        {
          if !threads[j].enabled { continue; }
          threads := threads[j := threads[j].(wakeup := value)];
        }
        assert threads == SetWakeup(inf, value).threads;
        inferiors := inferiors[i := inf.(threads := threads)];
      }
      assert inferiors == SetWakeups(old(Model()), value).inferiors;
    }

    method EnableSingleStep(i: nat, j: nat)
      requires i < |inferiors| && j < |inferiors[i].threads|
      modifies this
      ensures var th := old(inferiors[i].threads[j]);
              var inf := old(inferiors[i]);
              && inferiors == old(inferiors)[i := inf.(threads := inf.threads[j := th.(ssEnabled := true)])]
              && machine == old(machine).(tcbs := OnAll(old(machine.tcbs), {th.tcb}, SingleStep(true)))
              && currInferiorIdx == old(currInferiorIdx) && target == old(target)
    {
      var inf := inferiors[i];
      inferiors := inferiors[i := inf.(threads := inf.threads[j := inf.threads[j].(ssEnabled := true)])];
      KernelCall(inf.threads[j].tcb, SingleStep(true));
    }

    method DisableSingleStep(i: nat, j: nat)
      requires i < |inferiors| && j < |inferiors[i].threads|
      modifies this`machine
      ensures machine == old(machine).(tcbs := OnAll(old(machine.tcbs), {inferiors[i].threads[j].tcb},
                                                     SingleStep(false)))
    {
      KernelCall(inferiors[i].threads[j].tcb, SingleStep(false));
    }

    method VisitThread(i: nat, j: nat, step: bool)
      requires Live(inferiors, i, j)
      modifies this
      ensures Model() == VisitAt(old(Model()), i, j, step)
    {
      ghost var th := inferiors[i].threads[j];
      if step {
        EnableSingleStep(i, j);
      } else {
        DisableSingleStep(i, j);
      }
      var inf := inferiors[i];
      inferiors := inferiors[i := inf.(threads := inf.threads[j := inf.threads[j].(wakeup := true)])];
      assert inferiors[i].threads == VisitAt(old(Model()), i, j, step).inferiors[i].threads;
    }

    ghost function Marks(handled: array2<bool>): set<Slot>
      reads handled
    {
      set i, j | 0 <= i < handled.Length0 && 0 <= j < handled.Length1 && handled[i, j] :: Slot(i, j)
    }

    /** The loop over the threads one target names. */
    method VisitRange(i: nat, from: nat, n: nat, step: bool, handled: array2<bool>)
      requires i < |inferiors| && inferiors[i].enabled && from <= n <= |inferiors[i].threads| && OwnTcbs(Model())
      requires i < handled.Length0 && |inferiors[i].threads| == handled.Length1
      modifies this, handled
      ensures Visited(old(Model()), old(Marks(handled)), Model(), Marks(handled), i, from, n, step)
    {
      ghost var was, marks := Model(), Marks(handled);
      for j := from to n
        invariant |inferiors| == |was.inferiors| && |inferiors[i].threads| == |was.inferiors[i].threads|
        invariant inferiors[i].enabled
        invariant Visited(was, marks, Model(), Marks(handled), i, from, j, step)
      {
        FrameLive(was, Model());
        if !inferiors[i].threads[j].enabled || handled[i, j] {
          VisitedPast(was, marks, Model(), Marks(handled), i, from, j, step);
          continue;
        }
        VisitedNext(was, marks, Model(), Marks(handled), i, from, j, step);
        ghost var before := Marks(handled);
        VisitThread(i, j, step);
        handled[i, j] := true;
        assert Marks(handled) == before + {Slot(i, j)};
      }
    }

    /** One target: all unmarked live threads it names. */
    method HandleTarget(id: WireId, step: bool, handled: array2<bool>)
      requires |inferiors| == MAX_PDS && handled.Length0 == MAX_PDS && handled.Length1 == MAX_THREADS
      requires id.proc > 0 && (id.thread == -1 || 1 <= id.thread <= MAX_THREADS)
      requires var inf := inferiors[(id.proc - 1) % MAX_PDS];
               inf.enabled && inf.gdbId == id.proc && |inf.threads| == MAX_THREADS
      requires OwnTcbs(Model())
      modifies this, handled
      ensures Visited(old(Model()), old(Marks(handled)), Model(), Marks(handled), (id.proc - 1) % MAX_PDS,
                      if id.thread == -1 then 0 else id.thread - 1,
                      if id.thread == -1 then MAX_THREADS else id.thread, step)
    {
      var i := (id.proc - 1) % MAX_PDS;
      var from, n := 0, MAX_THREADS;
      if id.thread != -1 {
        from := (id.thread - 1) % MAX_THREADS;
        n := id.thread;
        OwnPlace(id.thread);
      }
      assert from == (if id.thread == -1 then 0 else id.thread - 1);
      assert n == (if id.thread == -1 then MAX_THREADS else id.thread);
      VisitRange(i, from, n, step, handled);
    }

    /** Reads and handles the next target. */
    method HandleNextTarget(input: seq<byte>, at: nat, stale: Stale, step: bool, handled: array2<bool>,
                            ghost was: State, ghost done: seq<Action>, ghost seen: seq<Target>,
                            ghost wire: WireTarget, ghost rest: seq<byte>)
      returns (pos: nat)
      requires Ready(was, handled) && AllClean(input, stale)
      requires ValidTarget(was.inferiors, wire) && rest != [] && !IsHex(rest[0])
      requires wire.thread == MINUS_ONE ==> rest[0] == NUL
      requires at <= |input| && input[at..] == TargetText(wire) + rest
      requires WalkedInto(was, Model(), Marks(handled), done, step, seen)
      modifies this, handled
      ensures pos < |input| && input[pos..] == rest && input[pos] == rest[0]
      ensures WalkedInto(was, Model(), Marks(handled), done, step, seen + [TargetAsRead(wire)])
    {
      var id;
      pos, id := ReadTarget(input, at, stale, wire, rest);
      ghost var r, marks := Model(), Marks(handled);
      TargetRange(was, r, wire);
      HandleTarget(id, step, handled);
      WalkedWireTarget(was, r, marks, Model(), Marks(handled), done, step, seen, wire, id);
    }

    ghost predicate Ready(was: State, handled: array2<bool>) {
      && |was.inferiors| == MAX_PDS && handled.Length0 == MAX_PDS && handled.Length1 == MAX_THREADS
      && forall i :: 0 <= i < MAX_PDS ==> |was.inferiors[i].threads| == MAX_THREADS
    }

    /** The do-while loop over the targets of one action; `wire` and `rest` are the
        targets and what follows them in the packet. */
    method HandleTargets(input: seq<byte>, at: nat, stale: Stale, step: bool, handled: array2<bool>,
                         ghost was: State, ghost done: seq<Action>, ghost wire: seq<WireTarget>, ghost rest: seq<byte>)
      returns (pos: nat)
      requires Ready(was, handled) && AllClean(input, stale)
      requires rest != [] && (rest[0] == NUL || rest[0] == SEMICOLON)
      requires wire != [] && ValidTargets(was.inferiors, wire, rest)
      requires at <= |input| && input[at..] == TargetsText(wire) + rest
      requires WalkedInto(was, Model(), Marks(handled), done, step, [])
      modifies this, handled
      ensures pos < |input| && input[pos..] == rest
      ensures WalkedInto(was, Model(), Marks(handled), done, step, TargetsAsRead(was.inferiors, wire, rest))
    {
      ghost var all := TargetsAsRead(was.inferiors, wire, rest);
      ghost var seen: seq<Target> := [];
      ghost var left := wire;
      pos := at;
      while true
        invariant left != [] && ValidTargets(was.inferiors, left, rest)
        invariant all == seen + TargetsAsRead(was.inferiors, left, rest)
        invariant pos <= |input| && input[pos..] == TargetsText(left) + rest
        invariant WalkedInto(was, Model(), Marks(handled), done, step, seen)
        decreases |left|
      {
        FirstValid(was.inferiors, left, rest);
        AfterHead(left, rest);
        pos := HandleNextTarget(input, pos, stale, step, handled, was, done, seen, left[0], After(left, rest));
        AsReadNext(was.inferiors, seen, left, rest);
        seen := seen + [TargetAsRead(left[0])];
        if input[pos] != COLON {
          break;
        }
        left := left[1..];
      }
    }

    /** One whole action, from its `s` or `c` on. */
    method HandleAction(input: seq<byte>, at: nat, stale: Stale, handled: array2<bool>,
                        ghost was: State, ghost done: seq<Action>, ghost wire: WireAction, ghost rest: seq<byte>)
      returns (ok: bool, pos: nat)
      requires Ready(was, handled) && AllClean(input, stale)
      requires at < |input|
      requires input[at] == LETTER_S || input[at] == LETTER_C ==>
                 && wire.step == (input[at] == LETTER_S) && wire.targets != []
                 && rest != [] && (rest[0] == NUL || rest[0] == SEMICOLON)
                 && ValidTargets(was.inferiors, wire.targets, rest)
                 && input[at + 1..] == TargetsText(wire.targets) + rest
      requires Walked(was, Model(), Marks(handled), done)
      modifies this, handled
      ensures ok == (input[at] == LETTER_S || input[at] == LETTER_C)
      ensures !ok ==> Model() == old(Model()) && Marks(handled) == old(Marks(handled))
      ensures ok ==>
                && pos < |input| && input[pos..] == rest
                && Walked(was, Model(), Marks(handled),
                          done + [Action(wire.step, TargetsAsRead(was.inferiors, wire.targets, rest))])
    {
      pos := at;
      var step;
      if input[pos] == LETTER_S {
        step := true;
      } else if input[pos] == LETTER_C {
        step := false;
      } else {
        return false, pos;
      }
      pos := pos + 1;
      WalkedWakeups(was, Model(), Marks(handled), done, step);
      SetAllWakeups(!step);
      pos := HandleTargets(input, pos, stale, step, handled, was, done, wire.targets, rest);
      WalkedAction(was, Model(), Marks(handled), done, Action(step, TargetsAsRead(was.inferiors, wire.targets, rest)));
      return true, pos;
    }

    /** The next action of a packet that is not over. */
    method HandleNextAction(input: seq<byte>, at: nat, stale: Stale, handled: array2<bool>, ghost was: State,
                            ghost all: seq<Action>, ghost done: seq<Action>, ghost left: seq<WireAction>,
                            ghost tail: seq<byte>)
      returns (ok: bool, pos: nat, ghost done': seq<Action>, ghost left': seq<WireAction>)
      requires Ready(was, handled) && AllClean(input, stale)
      requires ValidTail(tail) && Pending(was.inferiors, all, done, left, tail)
      requires at < |input| && input[at..] == ActionsText(left) + tail && input[at] != NUL
      requires Walked(was, Model(), Marks(handled), done)
      modifies this, handled
      ensures ok == (left != [])
      ensures !ok ==> tail[0] == SEMICOLON && done' == all
      ensures ok ==>
                && pos < |input| && input[pos..] == ActionsText(left') + tail && |left'| < |left|
                && Pending(was.inferiors, all, done', left', tail)
      ensures Walked(was, Model(), Marks(handled), done')
    {
      SecondChar(input, at, left, tail);
      ghost var action := if left == [] then WireAction(true, []) else left[0];
      ghost var rest := if left == [] then [] else ActionsText(left[1..]) + tail;
      if left != [] {
        RestHead(left[1..], tail);
      }
      ok, pos := HandleAction(input, at + 1, stale, handled, was, done, action, rest);
      if ok {
        ghost var a := Action(left[0].step, TargetsAsRead(was.inferiors, left[0].targets, rest));
        PendingNext(was.inferiors, all, done, left, tail, a);
        done', left' := done + [a], left[1..];
      } else {
        PendingDone(was.inferiors, all, done, left, tail);
        done', left' := done, left;
      }
    }

    /** The loop of handle_vcont, the marks having been cleared. */
    method WalkPacket(input: seq<byte>, stale: Stale, handled: array2<bool>, ghost wire: seq<WireAction>,
                      ghost tail: seq<byte>, ghost all: seq<Action>)
      returns (ok: bool)
      requires AllClean(input, stale)
      requires Ready(Model(), handled) && OwnTcbs(Model()) && Marks(handled) == {}
      requires ValidTail(tail) && Pending(inferiors, all, [], wire, tail)
      requires input == VCONT + ActionsText(wire) + tail
      modifies this, handled
      ensures Walked(old(Model()), Model(), Marks(handled), all)
      ensures ok == (tail[0] == NUL)
    {
      ghost var was := Model();
      ghost var done: seq<Action> := [];
      ghost var left := wire;
      var pos: nat := 5;
      PacketBegins(input, wire, tail);
      WalkBegins(was);
      while input[pos] != NUL
        invariant Pending(was.inferiors, all, done, left, tail)
        invariant pos < |input| && input[pos..] == ActionsText(left) + tail
        invariant Walked(was, Model(), Marks(handled), done)
        decreases |left|
      {
        ok, pos, done, left := HandleNextAction(input, pos, stale, handled, was, all, done, left, tail);
        if !ok {
          return;
        }
      }
      PacketOver(input, pos, was.inferiors, all, done, left, tail);
      return true;
    }

    /** handle_vcont on a packet of valid actions; it reports an error for a tail
        that goes on with another kind of action. What it does is what the ids mean to
        its parser, and what the packet says where all of them are read right and lead to
        the threads they name. */
    method HandleVcont(input: seq<byte>, stale: Stale, ghost wire: seq<WireAction>, ghost tail: seq<byte>,
                       ghost nb: nat, ghost nw: nat)
      returns (ok: bool)
      requires Shape(Model(), nb, nw) && OwnTcbs(Model())
      requires ValidTail(tail) && ValidActions(inferiors, wire, tail)
      requires input == VCONT + ActionsText(wire) + tail
      requires AllClean(input, stale)
      modifies this
      ensures Model() == Apply(old(Model()), AsRead(old(inferiors), wire, tail))
      ensures HexActions(wire) && (RightIds(wire) ==> Model() == Apply(old(Model()), Meaning(wire)))
      ensures RightIds(wire) && RegInv(old(Model())) && PlacesKept(old(inferiors), Meaning(wire)) ==>
                AllObey(old(Model()), Model(), Meaning(wire))
      ensures ok == (tail[0] == NUL)
    {
      ghost var was := Model();
      var handled := new bool[MAX_PDS, MAX_THREADS]((_, _) => false);
      ReadyAtStart(was, handled, nb, nw);
      assert Marks(handled) == {};
      ok := WalkPacket(input, stale, handled, wire, tail, AsRead(inferiors, wire, tail));
      WalkedIsApply(was, Model(), Marks(handled), AsRead(was.inferiors, wire, tail));
      ReadRightExactly(was.inferiors, wire, tail);
      if RightIds(wire) && RegInv(was) && PlacesKept(was.inferiors, Meaning(wire)) {
        PacketObeys(was, wire, tail);
      }
    }

    lemma ReadyAtStart(was: State, handled: array2<bool>, nb: nat, nw: nat)
      requires Shape(was, nb, nw) && handled.Length0 == MAX_PDS && handled.Length1 == MAX_THREADS
      ensures Ready(was, handled)
    {
    }

    // -------------------------------------------------------------------------
    // Lookup by gdb id

    method LookupThreadFromGdbId(procId: nat, threadId: nat) returns (r: Option<Slot>)
      requires |inferiors| == MAX_PDS && procId > 0 && threadId > 0
      requires forall i :: 0 <= i < MAX_PDS ==> |inferiors[i].threads| == MAX_THREADS
      ensures r == LookupThreadByGdbId(inferiors, procId, threadId)
    {
      var i := (procId - 1) % MAX_PDS;
      if inferiors[i].gdbId != procId {
        return None;
      }
      var j := (threadId - 1) % MAX_THREADS;
      if inferiors[i].threads[j].gdbId != threadId {
        return None;
      }
      return Some(Slot(i, j));
    }
  }

  function NoBreaks(v: nat): Inferior {
    Inferior(false, 0, 0, v, 0, [], [], [], [])
  }
}

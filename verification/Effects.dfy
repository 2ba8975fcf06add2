/**
 What single calls achieve, and what a call undoes: breakpoints set and cleared again,
 threads registered and gone (src/gdb.c, src/arch/arm/64/gdb.c).
 */
module Effects {
  import opened Options
  import opened Words
  import opened Memory
  import opened Kernel
  import opened Debugger
  import opened Registry
  import SW = SoftwareBreakpoints

  // ---------------------------------------------------------------------------
  // Software breakpoints

  /** A set call succeeds exactly when the word is accessible and an entry is free; it
      then enters the address and changes at most the four bytes there, and a failing
      call changes nothing. */
  lemma SetSoftwareExactly(p: SW.Patched, a: nat)
    requires p.vs.Valid()
    ensures var o := SW.SetBreak(p, a);
            && (o.ok <==>
                  && a in p.vs.readable && a in p.vs.writable
                  && exists k :: 0 <= k < |p.table| && p.table[k].addr == 0)
            && (!o.ok ==> o.state == p)
            && (o.ok ==>
                  && Entered(p.table, o.state.table, SW.SwBreak(a, LoadWord(p.vs.bytes, a)))
                  && SW.HasBreak(o.state.vs.bytes, a) && o.state.vs.bytes.Keys == p.vs.bytes.Keys
                  && forall x :: x in p.vs.bytes && !(a <= x < a + 4) ==> o.state.vs.bytes[x] == p.vs.bytes[x])
  {
    if a in p.vs.readable && a in p.vs.writable {
      var w := LoadWord(p.vs.bytes, a);
      WriteBack(p.vs.bytes, a, WithBreak(w));
      HighHalfKept(p.vs.bytes, a);
    }
  }

  lemma HighHalfKept(m: map<nat, byte>, a: nat)
    requires HasWord(m, a)
    ensures var r := StoreWord(m, a, WithBreak(LoadWord(m, a)));
            SW.HasBreak(r, a) && forall x :: x in m && !(a <= x < a + 4) ==> r[x] == m[x]
  {
  }

  /** One free entry now holds `e`; all others are as before. */
  ghost predicate Entered(table: seq<SW.SwBreak>, table': seq<SW.SwBreak>, e: SW.SwBreak) {
    exists n :: 0 <= n < |table| && table[n].addr == 0 && table' == table[n := e]
  }

  /** Clearing a breakpoint that was just set restores all of memory and the active
      entries; a free entry keeps the word it saved. */
  lemma SetThenUnsetSoftware(p: SW.Patched, a: nat)
    requires p.vs.Valid() && a != 0 && SW.FirstAt(p.table, a) == |p.table| && SW.SetBreak(p, a).ok
    ensures var o := SW.UnsetBreak(SW.SetBreak(p, a).state, a);
            && o.ok && o.state.vs == p.vs && |o.state.table| == |p.table|
            && forall k :: 0 <= k < |p.table| ==>
                 o.state.table[k] == p.table[k] || o.state.table[k].addr == p.table[k].addr == 0
  {
    var w := LoadWord(p.vs.bytes, a);
    WriteBack(p.vs.bytes, a, WithBreak(w));
    var n := SW.FirstAt(p.table, 0);
    var table := p.table[n := SW.SwBreak(a, w)];
    forall k | 0 <= k < n ensures table[k].addr != a {}
    assert table[n].addr == a;
  }

  // ---------------------------------------------------------------------------
  // Hardware breakpoints and watchpoints

  /** A set call succeeds exactly when an entry is free; clearing the breakpoint again
      restores the whole state, registers of all threads included. */
  lemma SetThenUnsetHardware(s: State, i: nat, addr: nat, nb: nat, nw: nat)
    requires Inv(s, nb, nw) && i < MAX_PDS && s.inferiors[i].enabled && addr != 0
    requires forall n :: 0 <= n < nb ==> s.inferiors[i].hwBreaks[n] != addr
    ensures var (ok, r) := SetHwBreak(s, i, addr);
            && (ok <==> exists n :: 0 <= n < nb && s.inferiors[i].hwBreaks[n] == 0)
            && (ok ==> addr in r.inferiors[i].hwBreaks && UnsetHwBreak(r, i, addr) == (true, s))
            && (!ok ==> r == s)
  {
    var inf := s.inferiors[i];
    var n := FirstBreak(inf.hwBreaks, 0);
    if n < nb {
      var r := SetHwBreak(s, i, addr).1;
      var table := inf.hwBreaks[n := addr];
      assert r.inferiors[i].hwBreaks == table && table[n] == addr;
      forall k | 0 <= k < n ensures table[k] != addr {}
      assert FirstBreak(table, addr) == n;
      assert table[n := 0] == inf.hwBreaks;
      forall t | t in s.machine.tcbs && t in EnabledTcbs(inf.threads)
        ensures Perform(Call.UnsetBreak(n), Perform(Call.SetBreak(n, addr), s.machine.tcbs[t])) == s.machine.tcbs[t]
      {
        FreeRegister(s, i, t, nb, nw);
        BreakUndone(s.machine.tcbs[t], n, addr);
      }
      assert UnsetHwBreak(r, i, addr).1.inferiors == s.inferiors;
      assert UnsetHwBreak(r, i, addr).1.machine.tcbs == s.machine.tcbs;
    }
  }

  /** The registers of an enabled thread mirror its inferior. */
  lemma FreeRegister(s: State, i: nat, t: nat, nb: nat, nw: nat)
    requires Inv(s, nb, nw) && i < MAX_PDS && s.inferiors[i].enabled
    requires t in s.machine.tcbs && t in EnabledTcbs(s.inferiors[i].threads)
    ensures Mirrors(s.machine.tcbs[t], s.inferiors[i])
  {
  }

  lemma BreakUndone(t: Kernel.Tcb, n: nat, addr: nat)
    requires n < |t.breaks| && t.breaks[n] == None
    ensures Perform(Call.UnsetBreak(n), Perform(Call.SetBreak(n, addr), t)) == t
  {
  }

  /** Likewise for watchpoints; a free entry keeps the size and access of the last one. */
  lemma SetThenUnsetWatch(s: State, i: nat, w: Watch, nb: nat, nw: nat)
    requires Inv(s, nb, nw) && i < MAX_PDS && s.inferiors[i].enabled && w.addr != 0
    requires forall n :: 0 <= n < nw ==> s.inferiors[i].hwWatches[n] != w
    ensures var (ok, r) := SetHwWatch(s, i, w);
            && (ok <==> exists n :: 0 <= n < nw && s.inferiors[i].hwWatches[n].addr == 0)
            && (ok ==>
                  && w in r.inferiors[i].hwWatches
                  && var (back, q) := UnsetHwWatch(r, i, w);
                  && back && q.machine == s.machine
                  && q.inferiors == s.inferiors[i := s.inferiors[i].(hwWatches := q.inferiors[i].hwWatches)]
                  && WatchRegs(q.inferiors[i].hwWatches) == WatchRegs(s.inferiors[i].hwWatches))
            && (!ok ==> r == s)
  {
    var inf := s.inferiors[i];
    var n := FirstFreeWatch(inf.hwWatches);
    if n < nw {
      var r := SetHwWatch(s, i, w).1;
      var table := inf.hwWatches[n := w];
      assert r.inferiors[i].hwWatches == table && table[n] == w;
      forall k | 0 <= k < n ensures table[k] != w {}
      assert FirstWatch(table, w) == n;
      forall t | t in s.machine.tcbs && t in EnabledTcbs(inf.threads)
        ensures Perform(Call.UnsetWatch(n), Perform(Call.SetWatch(n, w), s.machine.tcbs[t])) == s.machine.tcbs[t]
      {
        FreeRegister(s, i, t, nb, nw);
        WatchUndone(s.machine.tcbs[t], n, w);
      }
      assert UnsetHwWatch(r, i, w).1.machine.tcbs == s.machine.tcbs;
    }
  }

  lemma WatchUndone(t: Kernel.Tcb, n: nat, w: Watch)
    requires n < |t.watches| && t.watches[n] == None
    ensures Perform(Call.UnsetWatch(n), Perform(Call.SetWatch(n, w), t)) == t
  {
  }

  // ---------------------------------------------------------------------------
  // Registration and exit

  /** Registering succeeds exactly for a new thread id under a known inferior with a
      free slot. The new thread is then found by its id and, in its inferior, carries a
      gdb id never issued there before; no other thread and no other TCB changes. */
  lemma RegisterThreadAdds(s: State, id: nat, threadId: nat, tcb: nat)
    requires RegInv(s) && tcb in s.machine.tcbs
    ensures var (e, r) := RegisterThread(s, id, threadId, tcb);
            var at := LookupInferior(s.inferiors, id);
            && (e == NoError <==>
                  && at.Some? && LookupThread(s.inferiors[at.value].threads, threadId).None?
                  && exists j :: 0 <= j < MAX_THREADS && !s.inferiors[at.value].threads[j].enabled)
            && (e == NoError ==> Added(s, r, at.value, threadId, tcb))
            && (e == AlreadyRegistered <==> at.Some? && Holds(s.inferiors[at.value].threads, threadId, tcb))
            && (e == InvalidArguments <==> at.None? || HoldsOther(s.inferiors[at.value].threads, threadId, tcb))
            && (e == AlreadyRegistered || e == InvalidArguments ==> r == s)
            && (e == InsufficientResources ==>
                  r.machine == s.machine && forall i, j :: Live(r.inferiors, i, j) <==> Live(s.inferiors, i, j))
  {
    var at := LookupInferior(s.inferiors, id);
    RegisterFailsExactly(s, id, threadId, tcb, 0);
    if at.Some? && LookupThread(s.inferiors[at.value].threads, threadId).None? {
      FreshSlotAdds(s, id, at.value, threadId, tcb);
      NoSlotKeeps(s, id, at.value, threadId, tcb);
    }
  }

  /** The enabled thread with an id has this TCB... */
  predicate Holds(threads: seq<Thread>, id: nat, tcb: nat) {
    var j := LookupThread(threads, id);
    j.Some? && threads[j.value].tcb == tcb
  }

  /** ...or another. */
  predicate HoldsOther(threads: seq<Thread>, id: nat, tcb: nat) {
    var j := LookupThread(threads, id);
    j.Some? && threads[j.value].tcb != tcb
  }

  lemma FreshSlotAdds(s: State, id: nat, i: nat, threadId: nat, tcb: nat)
    requires RegInv(s) && tcb in s.machine.tcbs && LookupInferior(s.inferiors, id) == Some(i)
    requires LookupThread(s.inferiors[i].threads, threadId).None?
    ensures var (e, r) := RegisterThread(s, id, threadId, tcb);
            (e == NoError || e == InsufficientResources) && (e == NoError ==> Added(s, r, i, threadId, tcb))
  {
    var inf := s.inferiors[i];
    assert ThreadsLeadBack(inf);
    var c := NextFree(UsedThreads(inf.threads), inf.currThreadIdx, inf.currThreadIdx + MAX_THREADS);
    if c < inf.currThreadIdx + MAX_THREADS {
      var r := RegisterThread(s, id, threadId, tcb).1;
      IsAdded(s, r, i, c % MAX_THREADS, c, threadId, tcb, JoinRegs(s.machine.tcbs[tcb], inf));
    }
  }

  lemma IsAdded(s: State, r: State, i: nat, j: nat, c: nat, threadId: nat, tcb: nat, t: Kernel.Tcb)
    requires i < |s.inferiors| && j < |s.inferiors[i].threads| && !s.inferiors[i].threads[j].enabled
    requires LookupThread(s.inferiors[i].threads, threadId).None? && s.inferiors[i].currThreadIdx <= c
    requires tcb in s.machine.tcbs
    requires var inf := s.inferiors[i];
             var th := Thread(true, false, false, threadId, (c + 1) % 0x1_0000, tcb);
             r == s.(inferiors := s.inferiors[i := inf.(threads := inf.threads[j := th], currThreadIdx := c + 1)],
                     target := if s.target.None? then Some(Slot(i, j)) else s.target,
                     machine := s.machine.(tcbs := s.machine.tcbs[tcb := t]))
    ensures Added(s, r, i, threadId, tcb)
  {
    OnlyOne(s.inferiors[i].threads, j, r.inferiors[i].threads[j], threadId);
  }

  lemma NoSlotKeeps(s: State, id: nat, i: nat, threadId: nat, tcb: nat)
    requires RegInv(s) && tcb in s.machine.tcbs && LookupInferior(s.inferiors, id) == Some(i)
    requires LookupThread(s.inferiors[i].threads, threadId).None?
    ensures var (e, r) := RegisterThread(s, id, threadId, tcb);
            e == InsufficientResources ==>
              r.machine == s.machine && forall a, b :: Live(r.inferiors, a, b) <==> Live(s.inferiors, a, b)
  {
  }

  lemma OnlyOne(threads: seq<Thread>, j: nat, th: Thread, id: nat)
    requires LookupThread(threads, id).None? && j < |threads| && th.enabled && th.id == id
    ensures LookupThread(threads[j := th], id) == Some(j)
  {
    assert threads[j := th][j] == th;
    forall k | 0 <= k < |threads| && k != j ensures threads[j := th][k] == threads[k] {}
  }

  ghost predicate Added(s: State, r: State, i: nat, threadId: nat, tcb: nat) {
    && i < |s.inferiors| && |r.inferiors| == |s.inferiors|
    && (forall k :: 0 <= k < |s.inferiors| && k != i ==> r.inferiors[k] == s.inferiors[k])
    && var j := LookupThread(r.inferiors[i].threads, threadId);
    && j.Some? && j.value < |s.inferiors[i].threads| && !s.inferiors[i].threads[j.value].enabled
    && var th := r.inferiors[i].threads[j.value];
    && r.inferiors[i].threads == s.inferiors[i].threads[j.value := th]
    && th.tcb == tcb && !th.ssEnabled && !th.wakeup
    && (r.inferiors[i].currThreadIdx <= MAX_ID ==>
          th.gdbId == r.inferiors[i].currThreadIdx > s.inferiors[i].currThreadIdx)
    && r.machine.spaces == s.machine.spaces && r.machine.tcbs.Keys == s.machine.tcbs.Keys
    && (forall t :: t in s.machine.tcbs && t != tcb ==> r.machine.tcbs[t] == s.machine.tcbs[t])
    && (s.target.Some? ==> r.target == s.target) && (s.target.None? ==> r.target == Some(Slot(i, j.value)))
  }

  /** Registering an inferior succeeds exactly for a new id while a slot is free. It is
      then found by its id, has no threads and no breakpoints and a gdb id never issued
      before; no other inferior and nothing in the kernel changes. */
  lemma RegisterInferiorAdds(s: State, id: nat, vspace: nat)
    requires |s.inferiors| == MAX_PDS
    ensures var (e, r) := RegisterInferior(s, id, vspace);
            && (e == NoError <==>
                  LookupInferior(s.inferiors, id).None? && exists i :: 0 <= i < MAX_PDS && !s.inferiors[i].enabled)
            && (e == NoError ==> AddedInferior(s, r, id, vspace))
            && var at := LookupInferior(s.inferiors, id);
            && (e == AlreadyRegistered <==> at.Some? && s.inferiors[at.value].vspace == vspace)
            && (e == InvalidArguments <==> at.Some? && s.inferiors[at.value].vspace != vspace)
            && (e == AlreadyRegistered || e == InvalidArguments ==> r == s)
            && (e != NoError ==> r.inferiors == s.inferiors) && r.machine == s.machine
  {
    var used := UsedInferiors(s.inferiors);
    var c := NextFree(used, s.currInferiorIdx, s.currInferiorIdx + MAX_PDS);
    NextFreeExact(used, s.currInferiorIdx);
    assert forall i :: 0 <= i < MAX_PDS ==> used[i] == s.inferiors[i].enabled;
    if LookupInferior(s.inferiors, id).None? && c < s.currInferiorIdx + MAX_PDS {
      assert used[c % MAX_PDS] == s.inferiors[c % MAX_PDS].enabled;
      IsAddedInferior(s, RegisterInferior(s, id, vspace).1, c % MAX_PDS, c, id, vspace);
    }
  }

  lemma IsAddedInferior(s: State, r: State, i: nat, c: nat, id: nat, vspace: nat)
    requires i < |s.inferiors| && !s.inferiors[i].enabled && LookupInferior(s.inferiors, id).None?
    requires s.currInferiorIdx <= c
    requires r.currInferiorIdx == c + 1 && |r.inferiors| == |s.inferiors|
    requires var p, inf := s.inferiors[i], r.inferiors[i];
             && r.inferiors == s.inferiors[i := inf]
             && inf == NewInferior(p, id, (c + 1) % 0x1_0000, vspace)
    ensures AddedInferior(s, r, id, vspace)
  {
  }

  ghost predicate AddedInferior(s: State, r: State, id: nat, vspace: nat) {
    var at := LookupInferior(r.inferiors, id);
    && at.Some? && at.value < |s.inferiors| && !s.inferiors[at.value].enabled
    && var inf := r.inferiors[at.value];
    && r.inferiors == s.inferiors[at.value := inf] && inf.vspace == vspace
    && (r.currInferiorIdx <= MAX_ID ==> inf.gdbId == r.currInferiorIdx > s.currInferiorIdx)
    && (forall j :: 0 <= j < |inf.threads| ==> !inf.threads[j].enabled)
    && (forall n :: 0 <= n < |inf.swBreaks| ==> inf.swBreaks[n].addr == 0)
    && (forall n :: 0 <= n < |inf.hwBreaks| ==> inf.hwBreaks[n] == 0)
    && (forall n :: 0 <= n < |inf.hwWatches| ==> inf.hwWatches[n].addr == 0)
  }

  /** A thread exit ends exactly the thread named, if there is one: its slot is free for
      another, its TCB and all other threads are left alone. */
  lemma ThreadExitExactly(s: State, id: nat, threadId: nat)
    requires RegInv(s)
    ensures var (e, r) := ThreadExit(s, id, threadId);
            && (e == NoError <==>
                  exists i, j ::
                    Live(s.inferiors, i, j) && s.inferiors[i].id == id && s.inferiors[i].threads[j].id == threadId)
            && (e != NoError ==> e == InvalidArguments && r == s)
            && r.machine == s.machine
            && forall i, j :: Live(r.inferiors, i, j) <==>
                 Live(s.inferiors, i, j) && !(s.inferiors[i].id == id && s.inferiors[i].threads[j].id == threadId)
  {
  }
}

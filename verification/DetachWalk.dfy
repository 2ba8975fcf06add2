/**
 The walk of handle_detach over one inferior's tables, step by step: unsetting by
 the address found in each place always hits that place or a free one.
 */
module DetachWalk {
  import opened Words
  import opened Kernel
  import opened Memory
  import opened Debugger
  import HD = HardwareDebug
  import SW = SoftwareBreakpoints

  lemma EnabledTcbsNext(threads: seq<Thread>, j: nat)
    requires j < |threads|
    ensures EnabledTcbs(threads[..j + 1]) ==
            EnabledTcbs(threads[..j]) + (if threads[j].enabled then {threads[j].tcb} else {})
  {
  }

  lemma WakingNext(threads: seq<Thread>, j: nat)
    requires j < |threads|
    ensures WakingIn(threads[..j + 1]) ==
            WakingIn(threads[..j]) + (if threads[j].enabled && threads[j].wakeup then {threads[j].tcb} else {})
  {
  }

  lemma LiveTcbsNext(infs: seq<Inferior>, n: nat)
    requires n < |infs|
    ensures LiveTcbsUpTo(infs, n + 1) ==
            LiveTcbsUpTo(infs, n) + (if infs[n].enabled then EnabledTcbs(infs[n].threads) else {})
  {
  }

  lemma WakingTcbsNext(infs: seq<Inferior>, n: nat)
    requires n < |infs|
    ensures WakingTcbsUpTo(infs, n + 1) ==
            WakingTcbsUpTo(infs, n) + (if infs[n].enabled then WakingIn(infs[n].threads) else {})
  {
  }

  lemma PatchedByItself(s: State, i: nat)
    requires i < |s.inferiors|
    ensures WithPatched(s, i, PatchedBy(s.machine.spaces, s.inferiors[i])) == s
  {
  }

  lemma DetachNext(s: State, n: nat)
    requires n < |s.inferiors| && ValidSpaces(s.machine.spaces)
    ensures DetachUpTo(s, n + 1) ==
            if s.inferiors[n].enabled then DetachOne(DetachUpTo(s, n), n) else DetachUpTo(s, n)
  {
  }

  function DetachOne(s: State, i: nat): State
    requires i < |s.inferiors| && ValidSpaces(s.machine.spaces)
  {
    var inf := s.inferiors[i];
    s.(inferiors := s.inferiors[i := DetachInferior(inf)],
       machine := Machine(map t | t in s.machine.tcbs ::
                            if t in EnabledTcbs(inf.threads) then DetachTcb(s.machine.tcbs[t]) else s.machine.tcbs[t],
                          WithSpace(s.machine.spaces, inf.vspace,
                                    SW.DetachFrom(PatchedBy(s.machine.spaces, inf), 0).vs)))
  }

  function FlaggedIn(threads: seq<Thread>): (r: set<nat>) {
    set j | 0 <= j < |threads| && threads[j].enabled && threads[j].ssEnabled :: threads[j].tcb
  }

  lemma FlaggedNext(threads: seq<Thread>, j: nat)
    requires j < |threads|
    ensures FlaggedIn(threads[..j + 1]) ==
            FlaggedIn(threads[..j]) + (if threads[j].enabled && threads[j].ssEnabled then {threads[j].tcb} else {})
  {
  }

  // ---------------------------------------------------------------------------
  // Software breakpoints

  /** Unsetting one of inferior `i`'s breakpoints, seen from the state `s` the walk began in. */
  lemma UnsetSwStep(s: State, i: nat, p: SW.Patched, a: nat)
    requires i < |s.inferiors| && ValidSpaces(s.machine.spaces) && p.vs.Valid()
    requires Follows(s, i, p)
    ensures var q := SW.UnsetBreak(p, a).state;
            && ValidSpaces(WithPatched(s, i, p).machine.spaces)
            && UnsetSwBreak(WithPatched(s, i, p), i, a).1 == WithPatched(s, i, q)
            && Follows(s, i, q)
  {
    var r := WithPatched(s, i, p);
    var v := s.inferiors[i].vspace;
    assert PatchedBy(r.machine.spaces, r.inferiors[i]) == p;
    var q := SW.UnsetBreak(p, a).state;
    assert r.inferiors[i := r.inferiors[i].(swBreaks := q.table)] ==
        s.inferiors[i := s.inferiors[i].(swBreaks := q.table)];
    if v in s.machine.spaces {
      assert s.machine.spaces[v := p.vs][v := q.vs] == s.machine.spaces[v := q.vs];
    }
  }

  /** A memory and table the walk can reach: an unknown vspace stays without memory. */
  ghost predicate Follows(s: State, i: nat, p: SW.Patched)
    requires i < |s.inferiors|
  {
    s.inferiors[i].vspace !in s.machine.spaces ==> p.vs == VSpace(map[], {}, {})
  }

  // ---------------------------------------------------------------------------
  // Hardware breakpoints and watchpoints

  /** The state after the first `n` places of the breakpoint table were visited. */
  function ClearBreaks(s: State, i: nat, n: nat): (r: State)
    requires i < |s.inferiors| && n <= |s.inferiors[i].hwBreaks|
    ensures |r.inferiors| == |s.inferiors| && |r.inferiors[i].hwBreaks| == |s.inferiors[i].hwBreaks|
    ensures r.inferiors[i].hwWatches == s.inferiors[i].hwWatches
  {
    if n == 0 then s else
    var prior := ClearBreaks(s, i, n - 1);
    UnsetHwBreak(prior, i, prior.inferiors[i].hwBreaks[n - 1]).1
  }

  function ClearWatches(s: State, i: nat, n: nat): (r: State)
    requires i < |s.inferiors| && n <= |s.inferiors[i].hwWatches|
    ensures |r.inferiors| == |s.inferiors| && |r.inferiors[i].hwWatches| == |s.inferiors[i].hwWatches|
    ensures r.inferiors[i].hwBreaks == s.inferiors[i].hwBreaks
  {
    if n == 0 then s else
    var prior := ClearWatches(s, i, n - 1);
    UnsetHwWatch(prior, i, prior.inferiors[i].hwWatches[n - 1]).1
  }

  predicate SameButRegs(a: Tcb, b: Tcb) {
    a.stepping == b.stepping && a.running == b.running
  }

  /** The two states differ at most in inferior `i`'s hardware tables and its own
      threads' debug registers. */
  ghost predicate OnlyDebugState(s: State, r: State, i: nat)
    requires i < |s.inferiors|
  {
    && |r.inferiors| == |s.inferiors|
    && r == s.(inferiors := r.inferiors, machine := r.machine)
    && r.inferiors == s.inferiors[i := s.inferiors[i].(hwBreaks := r.inferiors[i].hwBreaks,
                                                       hwWatches := r.inferiors[i].hwWatches)]
    && r.machine.spaces == s.machine.spaces && r.machine.tcbs.Keys == s.machine.tcbs.Keys
    && (forall t :: t in s.machine.tcbs ==> SameButRegs(s.machine.tcbs[t], r.machine.tcbs[t]))
    && (forall t :: t in s.machine.tcbs && t !in EnabledTcbs(s.inferiors[i].threads) ==>
          r.machine.tcbs[t] == s.machine.tcbs[t])
  }

  lemma OnlyDebugTransitive(s: State, m: State, r: State, i: nat)
    requires i < |s.inferiors| && OnlyDebugState(s, m, i) && OnlyDebugState(m, r, i)
    ensures OnlyDebugState(s, r, i)
  {
  }

  lemma UnsetOnlyDebug(s: State, i: nat, a: nat, w: Watch)
    requires i < |s.inferiors|
    ensures OnlyDebugState(s, UnsetHwBreak(s, i, a).1, i)
    ensures OnlyDebugState(s, UnsetHwWatch(s, i, w).1, i)
  {
    assert s.inferiors == s.inferiors[i := s.inferiors[i]];
  }

  lemma {:induction false} ClearBreaksEffect(s: State, i: nat, n: nat, nb: nat, nw: nat)
    requires Inv(s, nb, nw) && i < MAX_PDS && n <= nb
    ensures Inv(ClearBreaks(s, i, n), nb, nw)
    ensures OnlyDebugState(s, ClearBreaks(s, i, n), i)
    ensures forall k :: 0 <= k < n ==> ClearBreaks(s, i, n).inferiors[i].hwBreaks[k] == 0
  {
    if n == 0 {
      assert s.inferiors == s.inferiors[i := s.inferiors[i]];
    } else {
      ClearBreaksEffect(s, i, n - 1, nb, nw);
      var prior := ClearBreaks(s, i, n - 1);
      var a := prior.inferiors[i].hwBreaks[n - 1];
      HD.UnsetHwBreakKeeps(prior, i, a, nb, nw);
      UnsetOnlyDebug(prior, i, a, NO_WATCH);
      OnlyDebugTransitive(s, prior, UnsetHwBreak(prior, i, a).1, i);
    }
  }

  lemma {:induction false} ClearWatchesEffect(s: State, i: nat, n: nat, nb: nat, nw: nat)
    requires Inv(s, nb, nw) && i < MAX_PDS && n <= nw
    ensures Inv(ClearWatches(s, i, n), nb, nw)
    ensures OnlyDebugState(s, ClearWatches(s, i, n), i)
    ensures forall k :: 0 <= k < n ==> ClearWatches(s, i, n).inferiors[i].hwWatches[k].addr == 0
  {
    if n == 0 {
      assert s.inferiors == s.inferiors[i := s.inferiors[i]];
    } else {
      ClearWatchesEffect(s, i, n - 1, nb, nw);
      var prior := ClearWatches(s, i, n - 1);
      var w := prior.inferiors[i].hwWatches[n - 1];
      HD.UnsetHwWatchKeeps(prior, i, w, nb, nw);
      UnsetOnlyDebug(prior, i, 0, w);
      OnlyDebugTransitive(s, prior, UnsetHwWatch(prior, i, w).1, i);
    }
  }

  // ---------------------------------------------------------------------------
  // The whole walk

  function ReleaseThreads(s: State, i: nat): State
    requires i < |s.inferiors|
  {
    var inf := s.inferiors[i];
    var threads := seq(|inf.threads|, j requires 0 <= j < |inf.threads| => DetachThread(inf.threads[j]));
    s.(inferiors := s.inferiors[i := inf.(threads := threads)],
       machine := s.machine.(tcbs := OnAll(s.machine.tcbs, FlaggedIn(inf.threads), SingleStep(false))))
  }

  function ZeroTables(s: State, i: nat): State
    requires i < |s.inferiors|
  {
    var inf := s.inferiors[i];
    s.(inferiors := s.inferiors[i := inf.(swBreaks := seq(|inf.swBreaks|, _ => SW.SwBreak(0, ZERO_WORD)),
                                          hwBreaks := seq(|inf.hwBreaks|, _ => 0),
                                          hwWatches := seq(|inf.hwWatches|, _ => NO_WATCH))])
  }

  /** A thread whose inferior's tables are cleared has empty registers. */
  lemma EmptyRegs(s: State, i: nat, j: nat)
    requires OwnTcbs(s) && Agreement(s) && Live(s.inferiors, i, j)
    requires forall k :: 0 <= k < |s.inferiors[i].hwBreaks| ==> s.inferiors[i].hwBreaks[k] == 0
    requires forall k :: 0 <= k < |s.inferiors[i].hwWatches| ==> s.inferiors[i].hwWatches[k].addr == 0
    ensures TcbAt(s.inferiors, i, j) in s.machine.tcbs
    ensures var t := s.machine.tcbs[TcbAt(s.inferiors, i, j)];
            && t.breaks == DetachTcb(t).breaks && t.watches == DetachTcb(t).watches
  {
  }

  /** With the tables of inferior `i` cleared (`s` to `bare`), a thread of its own has
      empty registers, and ending the flagged single-steps ends them all. */
  lemma ReleasedTcb(s: State, bare: State, i: nat, t: nat)
    requires OwnTcbs(s) && StepFlags(s) && OwnTcbs(bare) && Agreement(bare)
    requires i < |s.inferiors| && t in s.machine.tcbs && s.inferiors[i].enabled
    requires OnlyDebugState(s, bare, i)
    requires |s.machine.tcbs[t].breaks| == |bare.machine.tcbs[t].breaks|
    requires |s.machine.tcbs[t].watches| == |bare.machine.tcbs[t].watches|
    requires forall k :: 0 <= k < |bare.inferiors[i].hwBreaks| ==> bare.inferiors[i].hwBreaks[k] == 0
    requires forall k :: 0 <= k < |bare.inferiors[i].hwWatches| ==> bare.inferiors[i].hwWatches[k].addr == 0
    ensures var r := OnAll(bare.machine.tcbs, FlaggedIn(s.inferiors[i].threads), SingleStep(false));
            r[t] == if t in EnabledTcbs(s.inferiors[i].threads) then DetachTcb(s.machine.tcbs[t]) else s.machine.tcbs[t]
  {
    var threads := s.inferiors[i].threads;
    if t in EnabledTcbs(threads) {
      var j :| 0 <= j < |threads| && threads[j].enabled && threads[j].tcb == t;
      assert Live(bare.inferiors, i, j) && TcbAt(bare.inferiors, i, j) == t;
      EmptyRegs(bare, i, j);
      FlaggedIfStepping(s, i, j);
      SameDetached(s.machine.tcbs[t], bare.machine.tcbs[t]);
    }
  }

  lemma SameDetached(a: Tcb, b: Tcb)
    requires SameButRegs(a, b) && |a.breaks| == |b.breaks| && |a.watches| == |b.watches|
    ensures DetachTcb(a) == DetachTcb(b)
  {
  }

  lemma FlaggedIfStepping(s: State, i: nat, j: nat)
    requires OwnTcbs(s) && StepFlags(s) && Live(s.inferiors, i, j)
    ensures s.machine.tcbs[TcbAt(s.inferiors, i, j)].stepping ==>
              TcbAt(s.inferiors, i, j) in FlaggedIn(s.inferiors[i].threads)
  {
  }

  lemma WalkIsDetach(s: State, i: nat, nb: nat, nw: nat)
    requires Inv(s, nb, nw) && i < MAX_PDS && s.inferiors[i].enabled
    ensures var p := SW.DetachFrom(PatchedBy(s.machine.spaces, s.inferiors[i]), 0);
            var bare := ClearWatches(ClearBreaks(WithPatched(s, i, p), i, nb), i, nw);
            ReleaseThreads(ZeroTables(bare, i), i) == DetachOne(s, i)
  {
    var inf := s.inferiors[i];
    var p := SW.DetachFrom(PatchedBy(s.machine.spaces, inf), 0);
    var s1 := WithPatched(s, i, p);
    HD.WithPatchedKeeps(s, i, p, nb, nw);
    ClearBreaksEffect(s1, i, nb, nb, nw);
    var s2 := ClearBreaks(s1, i, nb);
    assert TableSizes(s1.inferiors[i], nb, nw);
    ClearWatchesEffect(s2, i, nw, nb, nw);
    var bare := ClearWatches(s2, i, nw);
    OnlyDebugTransitive(s1, s2, bare, i);
    FinishTables(s1, bare, i);
    FinishTcbs(s1, bare, i, nb, nw);
  }

  /** From cleared registers on, the walk ends in the detached tables... */
  lemma FinishTables(s: State, bare: State, i: nat)
    requires i < |s.inferiors| && s.inferiors[i].enabled && OnlyDebugState(s, bare, i)
    requires |bare.inferiors[i].hwBreaks| == |s.inferiors[i].hwBreaks|
    requires |bare.inferiors[i].hwWatches| == |s.inferiors[i].hwWatches|
    ensures ReleaseThreads(ZeroTables(bare, i), i).inferiors == s.inferiors[i := DetachInferior(s.inferiors[i])]
  {
  }

  /** ...and in the detached threads. */
  lemma FinishTcbs(s: State, bare: State, i: nat, nb: nat, nw: nat)
    requires Inv(s, nb, nw) && Inv(bare, nb, nw) && i < MAX_PDS && s.inferiors[i].enabled
    requires OnlyDebugState(s, bare, i)
    requires forall k :: 0 <= k < nb ==> bare.inferiors[i].hwBreaks[k] == 0
    requires forall k :: 0 <= k < nw ==> bare.inferiors[i].hwWatches[k].addr == 0
    ensures ReleaseThreads(ZeroTables(bare, i), i).machine ==
            Machine(map t | t in s.machine.tcbs ::
                      if t in EnabledTcbs(s.inferiors[i].threads) then DetachTcb(s.machine.tcbs[t])
                          else s.machine.tcbs[t],
                    s.machine.spaces)
  {
    var r := ReleaseThreads(ZeroTables(bare, i), i).machine;
    assert TableSizes(bare.inferiors[i], nb, nw);
    forall t | t in s.machine.tcbs
      ensures r.tcbs[t] == if t in EnabledTcbs(s.inferiors[i].threads) then DetachTcb(s.machine.tcbs[t])
              else s.machine.tcbs[t]
    {
      ReleasedTcb(s, bare, i, t);
    }
  }
}

/**
 The meaning of a vCont packet: every thread obeys the leftmost action that
 matches it, and the last action decides who wakes up (src/gdb.c).
 */
module Vcont {
  import opened Debugger
  import HD = HardwareDebug

  /** Thread ids of an action: one thread, or all threads of the process. */
  datatype Threads = AllThreads | OneThread(id: int)

  datatype Target = Target(proc: int, threads: Threads)

  datatype Action = Action(step: bool, targets: seq<Target>)

  predicate Hits(t: Target, i: int, j: int) {
    (t.proc - 1) % MAX_PDS == i && (t.threads.AllThreads? || (t.threads.id - 1) % MAX_THREADS == j)
  }

  predicate Matches(a: Action, i: int, j: int) {
    exists k :: 0 <= k < |a.targets| && Hits(a.targets[k], i, j)
  }

  /** The leftmost action matching thread (i, j), or the number of actions. */
  function FirstMatch(actions: seq<Action>, i: int, j: int): (n: nat)
    ensures n <= |actions|
    ensures n < |actions| ==> Matches(actions[n], i, j)
    ensures forall k :: 0 <= k < n ==> !Matches(actions[k], i, j)
  {
    if actions == [] || Matches(actions[0], i, j) then 0 else 1 + FirstMatch(actions[1..], i, j)
  }

  predicate Wakes(actions: seq<Action>, i: int, j: int)
    requires actions != []
  {
    var last := |actions| - 1;
    actions[last].step ==> FirstMatch(actions, i, j) == last
  }

  function ThreadAfter(actions: seq<Action>, i: int, j: int, th: Thread): Thread {
    if !th.enabled then th else
    var n := FirstMatch(actions, i, j);
    th.(ssEnabled := th.ssEnabled || (n < |actions| && actions[n].step),
        wakeup := if actions == [] then th.wakeup else Wakes(actions, i, j))
  }

  function InferiorAfter(actions: seq<Action>, i: int, inf: Inferior): Inferior {
    if !inf.enabled then inf else
    inf.(threads := seq(|inf.threads|, j requires 0 <= j < |inf.threads| => ThreadAfter(actions, i, j, inf.threads[j])))
  }

  /** TCBs of the live threads whose leftmost action is a step (or a continue). */
  function Ordered(infs: seq<Inferior>, actions: seq<Action>, step: bool): (r: set<nat>)
  {
    set i, j | 0 <= i < |infs| && 0 <= j < |infs[i].threads| && Live(infs, i, j)
               && FirstMatch(actions, i, j) < |actions| && actions[FirstMatch(actions, i, j)].step == step
      :: infs[i].threads[j].tcb
  }

  /** What a vCont packet with these actions does. */
  function Apply(s: State, actions: seq<Action>): State {
    var tcbs := s.machine.tcbs;
    s.(inferiors := seq(|s.inferiors|, i requires 0 <= i < |s.inferiors| => InferiorAfter(actions, i, s.inferiors[i])),
       machine := s.machine.(tcbs := map t | t in tcbs ::
                               if t in Ordered(s.inferiors, actions, true) then tcbs[t].(stepping := true)
                               else if t in Ordered(s.inferiors, actions, false) then tcbs[t].(stepping := false)
                               else tcbs[t]))
  }

  /** Thread by thread: the kernel's single-step bit is the one of the leftmost
      matching action, and stays as it was where no action matches. */
  lemma ApplyThread(s: State, actions: seq<Action>, i: nat, j: nat)
    requires OwnTcbs(s) && Live(s.inferiors, i, j)
    ensures Live(Apply(s, actions).inferiors, i, j)
    ensures TcbAt(Apply(s, actions).inferiors, i, j) == TcbAt(s.inferiors, i, j)
    ensures var t := TcbAt(s.inferiors, i, j);
            var n := FirstMatch(actions, i, j);
            Apply(s, actions).machine.tcbs[t] ==
            s.machine.tcbs[t].(stepping := if n < |actions| then actions[n].step else s.machine.tcbs[t].stepping)
  {
  }

  lemma ApplyKeeps(s: State, actions: seq<Action>, nb: nat, nw: nat)
    requires Inv(s, nb, nw)
    ensures Inv(Apply(s, actions), nb, nw)
    ensures forall i, j :: Live(Apply(s, actions).inferiors, i, j) <==> Live(s.inferiors, i, j)
  {
    var r := Apply(s, actions);
    forall i, j ensures Live(r.inferiors, i, j) <==> Live(s.inferiors, i, j) {}
    forall i, j | Live(r.inferiors, i, j)
      ensures TcbAt(r.inferiors, i, j) == TcbAt(s.inferiors, i, j)
      ensures var t := r.machine.tcbs[TcbAt(r.inferiors, i, j)];
              Mirrors(t, r.inferiors[i]) && (t.stepping ==> r.inferiors[i].threads[j].ssEnabled)
    {
      ApplyThread(s, actions, i, j);
      assert Mirrors(s.machine.tcbs[TcbAt(s.inferiors, i, j)], s.inferiors[i]);
    }
    assert Shape(r, nb, nw);
  }

  /** From an all-suspended system, resuming after a packet runs exactly the threads
      the packet wakes: all of them if the last action is a continue, and else those
      whose leftmost match is that last step. */
  lemma ResumedThreads(s: State, actions: seq<Action>, nb: nat, nw: nat, i: nat, j: nat)
    requires Inv(s, nb, nw) && Live(s.inferiors, i, j) && actions != []
    requires !s.machine.tcbs[TcbAt(s.inferiors, i, j)].running
    ensures var r := ResumeSystem(Apply(s, actions));
            Live(r.inferiors, i, j) && TcbAt(r.inferiors, i, j) in r.machine.tcbs &&
            (r.machine.tcbs[TcbAt(r.inferiors, i, j)].running <==> Wakes(actions, i, j))
  {
    var r := Apply(s, actions);
    ApplyKeeps(s, actions, nb, nw);
    ApplyThread(s, actions, i, j);
    HD.ResumeSystemKeeps(r, nb, nw);
  }

  /** The documented scheduler locking: after a packet of one action, a continue runs
      every enabled thread, and a step exactly the stepped ones. */
  lemma SchedulerLocking(s: State, action: Action, nb: nat, nw: nat, i: nat, j: nat)
    requires Inv(s, nb, nw) && Live(s.inferiors, i, j)
    requires !s.machine.tcbs[TcbAt(s.inferiors, i, j)].running
    ensures var r := ResumeSystem(Apply(s, [action]));
            Live(r.inferiors, i, j) && TcbAt(r.inferiors, i, j) in r.machine.tcbs &&
            (r.machine.tcbs[TcbAt(r.inferiors, i, j)].running <==> (action.step ==> Matches(action, i, j)))
  {
  }

  // ---------------------------------------------------------------------------
  // One thread's part of the walk over a packet

  /** What the walk changes about one thread; `handled` is its mark. */
  datatype View = View(wakeup: bool, ssEnabled: bool, stepping: bool, handled: bool)

  function Visit(v: View, step: bool): View {
    if v.handled then v else View(true, v.ssEnabled || step, step, true)
  }

  function AfterTargets(v: View, step: bool, targets: seq<Target>, i: int, j: int): View {
    if targets == [] then v else
    var u := AfterTargets(v, step, targets[..|targets| - 1], i, j);
    if Hits(targets[|targets| - 1], i, j) then Visit(u, step) else u
  }

  function AfterActions(v: View, actions: seq<Action>, i: int, j: int): View {
    if actions == [] then v else
    var a := actions[|actions| - 1];
    var u := AfterActions(v, actions[..|actions| - 1], i, j);
    AfterTargets(u.(wakeup := !a.step), a.step, a.targets, i, j)
  }

  lemma {:induction false} TargetsOnce(v: View, step: bool, targets: seq<Target>, i: int, j: int)
    ensures AfterTargets(v, step, targets, i, j) ==
            if Matches(Action(step, targets), i, j) then Visit(v, step) else v
  {
    if targets != [] {
      var n := |targets| - 1;
      TargetsOnce(v, step, targets[..n], i, j);
      if k :| 0 <= k < |targets| && Hits(targets[k], i, j) {
        if k < n {
          assert Hits(targets[..n][k], i, j);
        }
      }
    }
  }

  lemma {:induction false} FirstMatchExtend(actions: seq<Action>, a: Action, i: int, j: int)
    ensures FirstMatch(actions + [a], i, j) ==
            if FirstMatch(actions, i, j) < |actions| then FirstMatch(actions, i, j)
            else if Matches(a, i, j) then |actions| else |actions| + 1
  {
    var n := FirstMatch(actions + [a], i, j);
    var all := actions + [a];
    assert forall k :: 0 <= k < |actions| ==> all[k] == actions[k];
    assert all[|actions|] == a;
  }

  /** Walking a packet action by action, with later actions overriding the wake
      marks of earlier ones, leaves each thread as the leftmost match says. */
  lemma {:induction false} WalkIsLeftmost(v: View, actions: seq<Action>, i: int, j: int)
    requires !v.handled
    ensures AsLeftmost(v, AfterActions(v, actions, i, j), actions, i, j)
  {
    if actions != [] {
      var n := |actions| - 1;
      var init, a := actions[..n], actions[n];
      assert actions == init + [a];
      WalkIsLeftmost(v, init, i, j);
      var u := AfterActions(v, init, i, j);
      TargetsOnce(u.(wakeup := !a.step), a.step, a.targets, i, j);
      OneMoreAction(v, u, init, a, i, j);
    }
  }

  /** The view `r` of a thread is what its leftmost match makes of `v`. */
  predicate AsLeftmost(v: View, r: View, actions: seq<Action>, i: int, j: int) {
    var n := FirstMatch(actions, i, j);
    && r.handled == (n < |actions|)
    && r.stepping == (if n < |actions| then actions[n].step else v.stepping)
    && r.ssEnabled == (v.ssEnabled || (n < |actions| && actions[n].step))
    && r.wakeup == (if actions == [] then v.wakeup else Wakes(actions, i, j))
  }

  lemma OneMoreAction(v: View, u: View, init: seq<Action>, a: Action, i: int, j: int)
    requires AsLeftmost(v, u, init, i, j)
    ensures AsLeftmost(v, if Matches(a, i, j) then Visit(u.(wakeup := !a.step), a.step) else u.(wakeup := !a.step),
                       init + [a], i, j)
  {
    FirstMatchExtend(init, a, i, j);
  }
}

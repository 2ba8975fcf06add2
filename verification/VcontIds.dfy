/**
 vCont and gdb ids (src/gdb.c): an action names threads by gdb id, but the loop of
 handle_vcont takes a thread id to a place in the table and looks only at whether that
 place is enabled.
 */
module VcontIds {
  import opened Words
  import opened Debugger
  import opened Registry
  import opened Vcont
  import opened VcontPackets

  // ---------------------------------------------------------------------------
  // What the protocol asks for

  /** A target names the thread with these gdb ids. */
  predicate Names(t: Target, proc: nat, thread: nat) {
    t.proc == proc && (t.threads.AllThreads? || t.threads.id == thread)
  }

  predicate NamedBy(a: Action, proc: nat, thread: nat) {
    exists k :: 0 <= k < |a.targets| && Names(a.targets[k], proc, thread)
  }

  /** The leftmost action that names a thread, or the number of actions. */
  function FirstNamed(actions: seq<Action>, proc: nat, thread: nat): (n: nat)
    ensures n <= |actions|
    ensures n < |actions| ==> NamedBy(actions[n], proc, thread)
    ensures forall k :: 0 <= k < n ==> !NamedBy(actions[k], proc, thread)
  {
    if actions == [] || NamedBy(actions[0], proc, thread) then 0 else 1 + FirstNamed(actions[1..], proc, thread)
  }

  function ProcId(infs: seq<Inferior>, i: int): nat
    requires 0 <= i < |infs|
  {
    infs[i].gdbId
  }

  function ThreadId(infs: seq<Inferior>, i: int, j: int): nat
    requires Live(infs, i, j)
  {
    infs[i].threads[j].gdbId
  }

  /** Thread (i, j) has done as a packet says: the leftmost action that names it decides
      whether it steps, and, this library's way, the last action whether it wakes. */
  ghost predicate Obeys(s: State, r: State, actions: seq<Action>, i: int, j: int)
    requires Live(s.inferiors, i, j) && Live(r.inferiors, i, j)
    requires TcbAt(s.inferiors, i, j) in s.machine.tcbs && TcbAt(s.inferiors, i, j) in r.machine.tcbs
  {
    var n := FirstNamed(actions, ProcId(s.inferiors, i), ThreadId(s.inferiors, i, j));
    var t := TcbAt(s.inferiors, i, j);
    var was, now := s.inferiors[i].threads[j], r.inferiors[i].threads[j];
    && r.machine.tcbs[t].stepping == (if n < |actions| then actions[n].step else s.machine.tcbs[t].stepping)
    && now.ssEnabled == (was.ssEnabled || (n < |actions| && actions[n].step))
    && now.wakeup == if actions == [] then was.wakeup else (actions[|actions| - 1].step ==> n == |actions| - 1)
  }

  /** Every live thread has, and nothing else has changed: this determines `r`. */
  ghost predicate AllObey(s: State, r: State, actions: seq<Action>)
    requires OwnTcbs(s)
  {
    && Frame(s, r)
    && forall i, j :: Live(s.inferiors, i, j) ==>
         && Live(r.inferiors, i, j) && TcbAt(s.inferiors, i, j) in r.machine.tcbs
         && Obeys(s, r, actions, i, j)
  }

  // ---------------------------------------------------------------------------
  // Places and ids

  /** A registered process, and all its threads or an id the table has a place for. */
  predicate ValidId(infs: seq<Inferior>, t: Target)
    requires |infs| == MAX_PDS
  {
    && t.proc > 0 && infs[(t.proc - 1) % MAX_PDS].enabled && infs[(t.proc - 1) % MAX_PDS].gdbId == t.proc
    && (t.threads.AllThreads? || 1 <= t.threads.id <= MAX_THREADS)
  }

  /** The thread now in the place a target leads to is the one it names, if there is one:
      its gdb id has not gone round the table. */
  predicate PlaceKept(infs: seq<Inferior>, t: Target) {
    t.threads.AllThreads? ||
    var i, j := (t.proc - 1) % MAX_PDS, (t.threads.id - 1) % MAX_THREADS;
    Live(infs, i, j) ==> infs[i].threads[j].gdbId <= MAX_THREADS
  }

  /** A target names no thread its place does not lead to; and a thread its place leads to
      is one it names exactly when that thread's id is within the table. */
  lemma HitsExactly(s: State, t: Target, i: nat, j: nat)
    requires RegInv(s) && ValidId(s.inferiors, t) && Live(s.inferiors, i, j)
    ensures Names(t, ProcId(s.inferiors, i), ThreadId(s.inferiors, i, j)) <==>
            Hits(t, i, j) && (t.threads.AllThreads? || ThreadId(s.inferiors, i, j) <= MAX_THREADS)
  {
    var inf := s.inferiors[i];
    assert LeadsBack(inf.gdbId, i, s.currInferiorIdx, MAX_PDS) && ThreadsLeadBack(inf);
    if t.threads.OneThread? {
      PlaceOfId(inf.threads[j].gdbId, t.threads.id, j);
    }
  }

  lemma PlaceOfId(gdbId: nat, id: int, j: nat)
    requires j < MAX_THREADS && gdbId > 0 && (gdbId - 1) % MAX_THREADS == j && 1 <= id <= MAX_THREADS
    ensures gdbId == id <==> (id - 1) % MAX_THREADS == j && gdbId <= MAX_THREADS
  {
  }

  /** A target acts on exactly the threads it names if and only if the thread in its place
      has an id within the table. */
  lemma TargetExactly(s: State, t: Target)
    requires RegInv(s) && ValidId(s.inferiors, t)
    ensures (forall i, j :: Live(s.inferiors, i, j) ==>
              (Hits(t, i, j) <==> Names(t, ProcId(s.inferiors, i), ThreadId(s.inferiors, i, j))))
            <==> PlaceKept(s.inferiors, t)
  {
    forall i, j | Live(s.inferiors, i, j)
      ensures Names(t, ProcId(s.inferiors, i), ThreadId(s.inferiors, i, j)) <==>
              Hits(t, i, j) && (t.threads.AllThreads? || ThreadId(s.inferiors, i, j) <= MAX_THREADS)
    {
      HitsExactly(s, t, i, j);
    }
    if !PlaceKept(s.inferiors, t) {
      assert Hits(t, (t.proc - 1) % MAX_PDS, (t.threads.id - 1) % MAX_THREADS);
    }
  }

  /** A packet's targets act on exactly the threads they name if and only if all their
      places are kept. */
  lemma ActsExactly(s: State, actions: seq<Action>)
    requires RegInv(s) && ValidIds(s.inferiors, actions)
    ensures (forall k, l, i, j ::
              0 <= k < |actions| && 0 <= l < |actions[k].targets| && Live(s.inferiors, i, j) ==>
                (Hits(actions[k].targets[l], i, j) <==>
                   Names(actions[k].targets[l], ProcId(s.inferiors, i), ThreadId(s.inferiors, i, j))))
            <==> PlacesKept(s.inferiors, actions)
  {
    forall k, l | 0 <= k < |actions| && 0 <= l < |actions[k].targets|
      ensures (forall i, j :: Live(s.inferiors, i, j) ==>
                (Hits(actions[k].targets[l], i, j) <==>
                   Names(actions[k].targets[l], ProcId(s.inferiors, i), ThreadId(s.inferiors, i, j))))
              <==> PlaceKept(s.inferiors, actions[k].targets[l])
    {
      TargetExactly(s, actions[k].targets[l]);
    }
  }

  predicate ValidIds(infs: seq<Inferior>, actions: seq<Action>)
    requires |infs| == MAX_PDS
  {
    forall k, l :: 0 <= k < |actions| && 0 <= l < |actions[k].targets| ==> ValidId(infs, actions[k].targets[l])
  }

  predicate PlacesKept(infs: seq<Inferior>, actions: seq<Action>) {
    forall k, l :: 0 <= k < |actions| && 0 <= l < |actions[k].targets| ==> PlaceKept(infs, actions[k].targets[l])
  }

  /** Then each thread's leftmost match by place is its leftmost match by id. */
  lemma MatchesAreNamed(s: State, actions: seq<Action>, i: nat, j: nat)
    requires RegInv(s) && ValidIds(s.inferiors, actions) && PlacesKept(s.inferiors, actions) && Live(s.inferiors, i, j)
    ensures FirstMatch(actions, i, j) == FirstNamed(actions, ProcId(s.inferiors, i), ThreadId(s.inferiors, i, j))
  {
    var proc, thread := ProcId(s.inferiors, i), ThreadId(s.inferiors, i, j);
    forall k | 0 <= k < |actions| ensures Matches(actions[k], i, j) <==> NamedBy(actions[k], proc, thread) {
      forall l | 0 <= l < |actions[k].targets|
        ensures Hits(actions[k].targets[l], i, j) <==> Names(actions[k].targets[l], proc, thread)
      {
        HitsExactly(s, actions[k].targets[l], i, j);
      }
    }
  }

  lemma ApplyFrame(s: State, actions: seq<Action>)
    requires OwnTcbs(s)
    ensures Frame(s, Apply(s, actions))
  {
    var r := Apply(s, actions);
    forall i, j | 0 <= i < |s.inferiors| && 0 <= j < |s.inferiors[i].threads|
      ensures SameThreadBut(s.inferiors[i].threads[j], r.inferiors[i].threads[j])
    {}
    ApplyOthers(s, actions, true);
    ApplyOthers(s, actions, false);
  }

  lemma ApplyOthers(s: State, actions: seq<Action>, step: bool)
    ensures Vcont.Ordered(s.inferiors, actions, step) <= LiveTcbs(s.inferiors)
  {
  }

  /** What a packet does to a live thread, by places. */
  lemma ApplyView(s: State, actions: seq<Action>, i: nat, j: nat)
    requires OwnTcbs(s) && Live(s.inferiors, i, j)
    requires FirstMatch(actions, i, j) ==
             FirstNamed(actions, ProcId(s.inferiors, i), ThreadId(s.inferiors, i, j))
    ensures var r := Apply(s, actions);
            && Live(r.inferiors, i, j) && TcbAt(s.inferiors, i, j) in r.machine.tcbs
            && Obeys(s, r, actions, i, j)
  {
    ApplyThread(s, actions, i, j);
  }

  /** With all places kept, a packet does what it says to the threads it names. */
  lemma ApplyObeys(s: State, actions: seq<Action>)
    requires OwnTcbs(s) && RegInv(s) && ValidIds(s.inferiors, actions) && PlacesKept(s.inferiors, actions)
    ensures AllObey(s, Apply(s, actions), actions)
  {
    ApplyFrame(s, actions);
    forall i: nat, j: nat | Live(s.inferiors, i, j)
      ensures var r := Apply(s, actions);
              && Live(r.inferiors, i, j) && TcbAt(s.inferiors, i, j) in r.machine.tcbs
              && Obeys(s, r, actions, i, j)
    {
      MatchesAreNamed(s, actions, i, j);
      ApplyView(s, actions, i, j);
    }
  }

  /** For a step of one target, exactly then. */
  lemma StepObeysExactly(s: State, t: Target)
    requires OwnTcbs(s) && RegInv(s) && ValidId(s.inferiors, t)
    ensures AllObey(s, Apply(s, [Action(true, [t])]), [Action(true, [t])]) <==> PlaceKept(s.inferiors, t)
  {
    var actions := [Action(true, [t])];
    if PlaceKept(s.inferiors, t) {
      assert ValidIds(s.inferiors, actions) && PlacesKept(s.inferiors, actions);
      ApplyObeys(s, actions);
    } else {
      StepDisobeys(s, t);
    }
  }

  lemma StepDisobeys(s: State, t: Target)
    requires OwnTcbs(s) && RegInv(s) && ValidId(s.inferiors, t) && !PlaceKept(s.inferiors, t)
    ensures var i, j := (t.proc - 1) % MAX_PDS, (t.threads.id - 1) % MAX_THREADS;
            var actions := [Action(true, [t])];
            var r := Apply(s, actions);
            && Live(s.inferiors, i, j) && Live(r.inferiors, i, j) && TcbAt(s.inferiors, i, j) in r.machine.tcbs
            && FirstNamed(actions, ProcId(s.inferiors, i), ThreadId(s.inferiors, i, j)) == 1
            && r.machine.tcbs[TcbAt(s.inferiors, i, j)].stepping && r.inferiors[i].threads[j].wakeup
            && !AllObey(s, r, actions)
  {
    var i, j := (t.proc - 1) % MAX_PDS, (t.threads.id - 1) % MAX_THREADS;
    var actions := [Action(true, [t])];
    HitsExactly(s, t, i, j);
    assert Hits(actions[0].targets[0], i, j) && Matches(actions[0], i, j);
    assert !NamedBy(actions[0], ProcId(s.inferiors, i), ThreadId(s.inferiors, i, j));
    ApplyThread(s, actions, i, j);
    assert !Obeys(s, Apply(s, actions), actions, i, j);
  }

  /** The documented scheduler locking, by ids: after a packet of one action, a continue runs
      every enabled thread, and a step exactly the threads it names, all places kept. */
  lemma LockingByIds(s: State, action: Action, nb: nat, nw: nat, i: nat, j: nat)
    requires Inv(s, nb, nw) && RegInv(s) && Live(s.inferiors, i, j)
    requires ValidIds(s.inferiors, [action]) && PlacesKept(s.inferiors, [action])
    requires !s.machine.tcbs[TcbAt(s.inferiors, i, j)].running
    ensures var r := ResumeSystem(Apply(s, [action]));
            && Live(r.inferiors, i, j) && TcbAt(r.inferiors, i, j) in r.machine.tcbs
            && (r.machine.tcbs[TcbAt(r.inferiors, i, j)].running <==>
                  (action.step ==> NamedBy(action, ProcId(s.inferiors, i), ThreadId(s.inferiors, i, j))))
  {
    SchedulerLocking(s, action, nb, nw, i, j);
    MatchesAreNamed(s, [action], i, j);
    assert Matches([action][0], i, j) <==> FirstMatch([action], i, j) == 0;
    assert NamedBy([action][0], ProcId(s.inferiors, i), ThreadId(s.inferiors, i, j)) <==>
           FirstNamed([action], ProcId(s.inferiors, i), ThreadId(s.inferiors, i, j)) == 0;
  }

  ghost predicate AllStopped(s: State)
    requires OwnTcbs(s)
  {
    forall i, j :: Live(s.inferiors, i, j) ==> !s.machine.tcbs[TcbAt(s.inferiors, i, j)].running
  }

  /** The protocol resumes the threads some action names. The library does if the last
      action is a continue and all are named, or it is a step and no thread is named first
      by an earlier action. */
  predicate WakesNamed(actions: seq<Action>, n: nat)
    requires actions != []
  {
    if actions[|actions| - 1].step then |actions| - 1 <= n else n < |actions|
  }

  lemma ResumedAsProtocol(s: State, actions: seq<Action>, nb: nat, nw: nat)
    requires Inv(s, nb, nw) && RegInv(s) && AllStopped(s) && actions != []
    requires ValidIds(s.inferiors, actions) && PlacesKept(s.inferiors, actions)
    ensures var r := ResumeSystem(Apply(s, actions));
            (forall i, j :: Live(s.inferiors, i, j) ==>
              && TcbAt(s.inferiors, i, j) in r.machine.tcbs
              && (r.machine.tcbs[TcbAt(s.inferiors, i, j)].running <==>
                    FirstNamed(actions, ProcId(s.inferiors, i), ThreadId(s.inferiors, i, j)) < |actions|))
            <==>
            (forall i, j :: Live(s.inferiors, i, j) ==>
              WakesNamed(actions, FirstNamed(actions, ProcId(s.inferiors, i), ThreadId(s.inferiors, i, j))))
  {
    var r := ResumeSystem(Apply(s, actions));
    forall i: nat, j: nat | Live(s.inferiors, i, j)
      ensures TcbAt(s.inferiors, i, j) in r.machine.tcbs
      ensures (r.machine.tcbs[TcbAt(s.inferiors, i, j)].running <==>
                 FirstNamed(actions, ProcId(s.inferiors, i), ThreadId(s.inferiors, i, j)) < |actions|) <==>
              WakesNamed(actions, FirstNamed(actions, ProcId(s.inferiors, i), ThreadId(s.inferiors, i, j)))
    {
      ResumedById(s, actions, nb, nw, i, j);
    }
  }

  lemma ResumedById(s: State, actions: seq<Action>, nb: nat, nw: nat, i: nat, j: nat)
    requires Inv(s, nb, nw) && RegInv(s) && AllStopped(s) && actions != [] && Live(s.inferiors, i, j)
    requires ValidIds(s.inferiors, actions) && PlacesKept(s.inferiors, actions)
    ensures var r := ResumeSystem(Apply(s, actions));
            var n := FirstNamed(actions, ProcId(s.inferiors, i), ThreadId(s.inferiors, i, j));
            && TcbAt(s.inferiors, i, j) in r.machine.tcbs
            && (r.machine.tcbs[TcbAt(s.inferiors, i, j)].running <==>
                  (actions[|actions| - 1].step ==> n == |actions| - 1))
  {
    ResumedThreads(s, actions, nb, nw, i, j);
    MatchesAreNamed(s, actions, i, j);
    ApplyThread(s, actions, i, j);
  }

  // ---------------------------------------------------------------------------
  // Packets

  lemma {:induction false} TargetsValid(infs: seq<Inferior>, targets: seq<WireTarget>, rest: seq<byte>, l: nat)
    requires |infs| == MAX_PDS && rest != [] && ValidTargets(infs, targets, rest) && l < |targets|
    ensures ValidTarget(infs, targets[l])
  {
    if l > 0 {
      TargetsValid(infs, targets[1..], rest, l - 1);
    }
  }

  lemma {:induction false} ActionsValid(infs: seq<Inferior>, actions: seq<WireAction>, tail: seq<byte>, k: nat, l: nat)
    requires |infs| == MAX_PDS && tail != [] && ValidActions(infs, actions, tail)
    requires k < |actions| && l < |actions[k].targets|
    ensures ValidTarget(infs, actions[k].targets[l])
  {
    if k > 0 {
      ActionsValid(infs, actions[1..], tail, k - 1, l);
    } else {
      TargetsValid(infs, actions[0].targets, ActionsText(actions[1..]) + tail, l);
    }
  }

  lemma MeaningValid(infs: seq<Inferior>, actions: seq<WireAction>, tail: seq<byte>)
    requires |infs| == MAX_PDS && tail != [] && ValidActions(infs, actions, tail)
    requires HexActions(actions) && RightIds(actions)
    ensures ValidIds(infs, Meaning(actions))
  {
    forall k, l | 0 <= k < |actions| && 0 <= l < |actions[k].targets|
      ensures ValidId(infs, Meaning(actions)[k].targets[l])
    {
      ActionsValid(infs, actions, tail, k, l);
      assert RightTargets(actions[k].targets);
      TargetReadRight(actions[k].targets[l]);
      assert Meaning(actions)[k] == ActionMeaning(actions[k]);
    }
  }

  /** A packet whose ids are read right and whose places are kept does as it says. */
  lemma PacketObeys(s: State, actions: seq<WireAction>, tail: seq<byte>)
    requires OwnTcbs(s) && RegInv(s) && tail != [] && ValidActions(s.inferiors, actions, tail)
    requires HexActions(actions) && RightIds(actions) && PlacesKept(s.inferiors, Meaning(actions))
    ensures AllObey(s, Apply(s, Meaning(actions)), Meaning(actions))
  {
    MeaningValid(s.inferiors, actions, tail);
    ApplyObeys(s, Meaning(actions));
  }

  // ---------------------------------------------------------------------------
  // Ids past the table

  lemma OwnPlace(id: int)
    requires 1 <= id <= MAX_THREADS
    ensures (id - 1) % MAX_THREADS == id - 1
  {
  }

  /** The places the loop of handle_vcont visits for one thread id: from the id's place up
      to the id. */
  predicate Visits(id: int, place: int) {
    (id - 1) % MAX_THREADS <= place < id
  }

  /** They are just the id's own place, and in the table, if and only if the id is within
      the table. An id past it makes the loop visit every place from its own to the end of
      the table, and then memory behind the table. */
  lemma VisitsExactly(id: int)
    requires id > 0
    ensures (forall place :: Visits(id, place) <==> place == (id - 1) % MAX_THREADS) <==> id <= MAX_THREADS
    ensures (forall place :: Visits(id, place) ==> place < MAX_THREADS) <==> id <= MAX_THREADS
    ensures id > MAX_THREADS ==>
              && Visits(id, MAX_THREADS)
              && forall place :: (id - 1) % MAX_THREADS <= place < MAX_THREADS ==> Visits(id, place)
  {
    assert Visits(id, (id - 1) % MAX_THREADS) && Visits(id, id - 1);
  }
}

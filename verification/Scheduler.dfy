/**
 The three coroutines of the serial example (debugger.c): the Microkit context that
 enters init, fault and notified, the packet loop, and one coroutine per stop reply,
 handing control over through the variable `state`.
 */
module Scheduler {

  /** The variable `state`. */
  datatype EventState = NoState | WaitingLoop | WaitingFault

  datatype Context = Microkit | Main | FaultTask

  /** Where the Microkit context is: outside, or behind a co_switch in one of the
      entry points; `notified` has two of them. */
  datatype Entry = Outside | InInit | InFault | FirstSwitch | SecondSwitch

  /** A coroutine: not made yet, running (or about to), waiting inside gdb_get_char,
      or finished with its last co_switch. */
  datatype Task = NotMade | Running | InGetChar | Finished

  /** Input bytes are told apart only by being a plus or not. `toLoop` and `toFault` are
      the bytes the two coroutines have taken, `unacked` says that the latest stop reply
      has been sent and no plus has come. */
  datatype System = System(
    state: EventState, active: Context, entry: Entry, main: Task, fault: Task,
    queue: seq<bool>, unacked: bool, arrived: seq<bool>, taken: seq<bool>)

  datatype Action =
    | Arrive(plus: bool)   // the serial driver puts a byte into the queue
    | EnterFault           // Microkit calls fault
    | EnterNotified        // Microkit calls notified
    | GetChar              // the active coroutine calls gdb_get_char
    | Continue             // the Microkit context goes on after a co_switch returns

  const INIT := System(NoState, Main, InInit, Running, NotMade, [], false, [], [])

  /** co_switch to the packet loop; its precondition is the first safety property. */
  function SwitchToMain(s: System, entry: Entry): System
    requires s.main == InGetChar
  {
    s.(active := Main, main := Running, state := NoState, entry := entry)
  }

  function SwitchToFault(s: System, entry: Entry): System
    requires s.fault == InGetChar
  {
    s.(active := FaultTask, fault := Running, state := NoState, entry := entry)
  }

  predicate Enabled(s: System, a: Action) {
    match a
    case Arrive(_) => true
    case EnterFault => s.active == Microkit && s.entry == Outside
    case EnterNotified => s.active == Microkit && s.entry == Outside
    case GetChar => s.active != Microkit
    case Continue => s.active == Microkit && s.entry != Outside
  }

  /** gdb_get_char of the active coroutine: it takes a byte, or records what it waits
      for and hands control to the Microkit context. A stop reply that gets its plus
      hands control back for good; any other byte makes put_packet send it again. */
  function GetCharStep(s: System): System
    requires s.active != Microkit
  {
    if s.queue == [] then
      if s.active == Main then s.(state := WaitingLoop, main := InGetChar, active := Microkit)
      else s.(state := WaitingFault, fault := InGetChar, active := Microkit)
    else
      var c := s.queue[0];
      var t := s.(queue := s.queue[1..], taken := s.taken + [c]);
      if s.active == FaultTask && c then
        t.(state := WaitingLoop, fault := Finished, active := Microkit, unacked := false)
      else t
  }

  /** The second test of `notified`, unless it returns. */
  function SecondTest(s: System): System
    requires s.state == WaitingLoop ==> s.main == InGetChar
  {
    if s.state == WaitingLoop then SwitchToMain(s, SecondSwitch) else s.(entry := Outside)
  }

  function Step(s: System, a: Action): System
    requires Inv(s) && Enabled(s, a)
  {
    match a
    case Arrive(c) => s.(queue := s.queue + [c], arrived := s.arrived + [c])
    case EnterFault =>
      // A new coroutine takes the place of an unfinished one.
      s.(active := FaultTask, fault := Running, entry := InFault, unacked := true)
    case EnterNotified =>
      if s.state == WaitingFault then SwitchToFault(s, FirstSwitch) else SecondTest(s)
    case GetChar => GetCharStep(s)
    case Continue => if s.entry == FirstSwitch then SecondTest(s) else s.(entry := Outside)
  }

  predicate Inv(s: System) {
    && (s.active == Main <==> s.main == Running)
    && (s.active == FaultTask <==> s.fault == Running)
    && (s.active != Microkit ==> s.entry != Outside)
    // `state` says which coroutine waits, except while one of them runs.
    && (s.active == Microkit ==> s.state != NoState)
    && (s.active == Microkit && s.state == WaitingFault ==> s.fault == InGetChar && s.unacked)
    && (s.active == Microkit && s.state == WaitingLoop ==> !s.unacked)
    // The loop waits whenever something else happens.
    && (s.active != Main ==> s.main == InGetChar)
    && (s.active == FaultTask ==> s.unacked)
    && (s.active == Main ==> !s.unacked && (s.entry == InInit || s.entry == SecondSwitch))
    // Every byte goes to exactly one coroutine, in order.
    && s.arrived == s.taken + s.queue
  }

  /** The requirements of the switches hold in every reachable state, so Step is
      defined wherever an action is enabled. */
  lemma StepKeeps(s: System, a: Action)
    requires Inv(s) && Enabled(s, a)
    ensures Inv(Step(s, a))
  {
  }

  ghost predicate Runs(s: System, actions: seq<Action>)
    requires Inv(s)
    decreases |actions|
  {
    actions == [] || (Enabled(s, actions[0]) && (StepKeeps(s, actions[0]); Runs(Step(s, actions[0]), actions[1..])))
  }

  ghost function After(s: System, actions: seq<Action>): System
    requires Inv(s) && Runs(s, actions)
    decreases |actions|
  {
    if actions == [] then s else StepKeeps(s, actions[0]); After(Step(s, actions[0]), actions[1..])
  }

  /** What every interleaving after init guarantees: Microkit gets control back only
      with somebody waiting, and the loop takes no byte while a stop reply waits for
      its plus. */
  ghost predicate Safe(s: System) {
    && (s.active == Microkit && s.entry == Outside ==> s.state != NoState && s.main == InGetChar)
    && (s.unacked ==> s.active != Main && s.main == InGetChar)
    && (s.unacked && s.active == Microkit ==> s.state == WaitingFault && s.fault == InGetChar)
    && s.arrived == s.taken + s.queue
  }

  lemma {:induction false} CoroutineSafety(s: System, actions: seq<Action>)
    requires Inv(s) && Runs(s, actions)
    ensures Inv(After(s, actions)) && Safe(After(s, actions))
    decreases |actions|
  {
    if actions != [] {
      StepKeeps(s, actions[0]);
      CoroutineSafety(Step(s, actions[0]), actions[1..]);
    }
  }

  lemma InitIsSafe(actions: seq<Action>)
    requires Inv(INIT) && Runs(INIT, actions)
    ensures Safe(After(INIT, actions))
  {
    CoroutineSafety(INIT, actions);
  }

  /** A byte taken while a stop reply is unacknowledged is taken by its coroutine: the
      loop is not active, and the reply stays unacknowledged unless the byte is a plus. */
  lemma AckGoesToFault(s: System)
    requires Inv(s) && s.unacked && Enabled(s, GetChar) && s.queue != []
    ensures s.active == FaultTask
    ensures var r := Step(s, GetChar);
            && r.unacked == !s.queue[0] && r.main == s.main == InGetChar
            && (s.queue[0] ==> r.active == Microkit && r.state == WaitingLoop)
  {
  }

  // ---------------------------------------------------------------------------
  // Progress

  /** `notified` wakes whoever waits, and that coroutine takes the next byte. */
  lemma NotifiedWakes(s: System)
    requires Inv(s) && Enabled(s, EnterNotified)
    ensures var r := Step(s, EnterNotified);
            && r.active == (if s.state == WaitingFault then FaultTask else Main)
            && r.queue == s.queue && r.taken == s.taken && Inv(r) && Enabled(r, GetChar)
            && (s.queue != [] ==> Step(r, GetChar).taken == s.taken + [s.queue[0]])
  {
  }

  /** Without a byte a coroutine hands control back and says that it waits; with one it takes
      it and goes on, unless it is the plus a stop reply waits for, which ends the reply and
      leaves the loop waiting. */
  lemma GetCharExactly(s: System)
    requires Inv(s) && Enabled(s, GetChar)
    ensures var r := Step(s, GetChar);
            if s.queue == [] then
              && r.active == Microkit && r.taken == s.taken && r.entry == s.entry
              && r.state == if s.active == Main then WaitingLoop else WaitingFault
            else
              && r.taken == s.taken + [s.queue[0]] && r.queue == s.queue[1..] && r.entry == s.entry
              && if s.active == FaultTask && s.queue[0]
                 then r.active == Microkit && r.state == WaitingLoop && !r.unacked
                 else r.active == s.active && r.unacked == s.unacked
  {
  }

  /** The same call of `notified` goes on to the loop once the reply has its plus. */
  lemma PlusGoesOn(s: System)
    requires Inv(s) && s.active == Microkit && s.entry == FirstSwitch && s.state == WaitingLoop
    ensures Enabled(s, Continue)
    ensures var r := Step(s, Continue);
            r.active == Main && Enabled(r, GetChar) && r.queue == s.queue && r.taken == s.taken
  {
  }

  /** A fault sends its stop reply at once and waits for the answer to it. */
  lemma FaultWaits(s: System)
    requires Inv(s) && Enabled(s, EnterFault)
    ensures var r := Step(s, EnterFault);
            && r.active == FaultTask && r.unacked && r.queue == s.queue && r.taken == s.taken && Inv(r)
            && (s.queue == [] ==> Step(r, GetChar).state == WaitingFault && Step(r, GetChar).active == Microkit)
  {
  }

  lemma ArriveExactly(s: System, plus: bool)
    requires Inv(s)
    ensures Step(s, Arrive(plus)) == s.(queue := s.queue + [plus], arrived := s.arrived + [plus])
  {
  }

  /** On the way through one call of `notified` that was entered when `n` bytes had arrived:
      they have all been taken, or somebody is about to take more. */
  predicate Draining(s: System, n: nat) {
    || |s.taken| >= n
    || s.active == Main
    || (s.entry == FirstSwitch && (s.active == FaultTask || (s.active == Microkit && s.state == WaitingLoop)))
  }

  /** The actions between two moments outside: bytes may go on arriving. */
  ghost predicate Inside(s: System, actions: seq<Action>)
    requires Inv(s)
    decreases |actions|
  {
    actions == [] ||
    (&& (actions[0].Arrive? || s.entry != Outside) && Enabled(s, actions[0])
     && (StepKeeps(s, actions[0]); Inside(Step(s, actions[0]), actions[1..])))
  }

  lemma DrainingStep(s: System, a: Action, n: nat)
    requires Inv(s) && Enabled(s, a) && (a.Arrive? || s.entry != Outside) && Draining(s, n) && n <= |s.arrived|
    ensures Draining(Step(s, a), n) && n <= |Step(s, a).arrived|
  {
  }

  lemma {:induction false} InsideDrains(s: System, actions: seq<Action>, n: nat)
    requires Inv(s) && Inside(s, actions) && Draining(s, n) && n <= |s.arrived|
    ensures Runs(s, actions)
    ensures Draining(After(s, actions), n) && Inv(After(s, actions))
    decreases |actions|
  {
    if actions != [] {
      StepKeeps(s, actions[0]);
      DrainingStep(s, actions[0], n);
      InsideDrains(Step(s, actions[0]), actions[1..], n);
    }
  }

  /** Progress: when `notified` returns, every byte that had arrived when it was called has
      been taken, whatever arrives meanwhile. */
  lemma NotifiedDrains(s: System, actions: seq<Action>)
    requires Inv(s) && Enabled(s, EnterNotified)
    requires Inv(Step(s, EnterNotified)) && Inside(Step(s, EnterNotified), actions)
    ensures Runs(Step(s, EnterNotified), actions)
    ensures var r := After(Step(s, EnterNotified), actions);
            r.active == Microkit && r.entry == Outside ==> |r.taken| >= |s.arrived| && r.taken <= r.arrived
  {
    InsideDrains(Step(s, EnterNotified), actions, |s.arrived|);
    var r := After(Step(s, EnterNotified), actions);
    assert r.arrived == r.taken + r.queue;
  }

  /** On the way to an empty queue. */
  predicate Emptying(s: System) {
    || s.active == Main
    || (s.active == FaultTask && s.entry == FirstSwitch)
    || (s.active == Microkit && s.entry == FirstSwitch && s.state == WaitingLoop)
    || s.queue == []
  }

  /** Every entry point returns if nothing more arrives; `notified` does with an empty queue. */
  lemma {:induction false} Returns(s: System) returns (actions: seq<Action>)
    requires Inv(s) && s.entry != Outside
    ensures Inside(s, actions) && Runs(s, actions)
    ensures var r := After(s, actions);
            r.active == Microkit && r.entry == Outside && (Emptying(s) ==> r.queue == [])
    decreases |s.queue|, if s.active == Microkit then (if s.entry == FirstSwitch then 4 else 0)
                         else if s.active == FaultTask then 5 else 3
  {
    var a := if s.active == Microkit then Continue else GetChar;
    var r := Step(s, a);
    StepKeeps(s, a);
    if r.entry == Outside {
      actions := [a];
      assert actions[1..] == [];
      assert Inside(r, []) && After(r, []) == r;
    } else {
      var later := Returns(r);
      actions := [a] + later;
      assert actions[1..] == later;
    }
  }

  lemma NotifiedReturns(s: System) returns (actions: seq<Action>)
    requires Inv(s) && Enabled(s, EnterNotified)
    ensures Inv(Step(s, EnterNotified)) && Inside(Step(s, EnterNotified), actions)
    ensures Runs(Step(s, EnterNotified), actions)
    ensures var r := After(Step(s, EnterNotified), actions);
            r.active == Microkit && r.entry == Outside && r.queue == []
  {
    StepKeeps(s, EnterNotified);
    actions := Returns(Step(s, EnterNotified));
  }

  /** `fault` has no second test: if the plus it waits for is already there, it returns with
      whatever is queued behind the plus unread, until the next `notified`. */
  lemma FaultLeavesBytes(s: System, rest: seq<bool>)
    requires Inv(s) && Enabled(s, EnterFault) && s.queue == [true] + rest
    ensures var actions := [EnterFault, GetChar, Continue];
            && Runs(s, actions)
            && var r := After(s, actions);
            r.active == Microkit && r.entry == Outside && r.state == WaitingLoop && r.queue == rest
  {
    StepKeeps(s, EnterFault);
    var s1 := Step(s, EnterFault);
    StepKeeps(s1, GetChar);
    var s2 := Step(s1, GetChar);
    StepKeeps(s2, Continue);
    var s3 := Step(s2, Continue);
    assert [EnterFault, GetChar, Continue][1..] == [GetChar, Continue];
    assert [GetChar, Continue][1..] == [Continue] && [Continue][1..] == [];
    assert Runs(s3, []) && After(s3, []) == s3;
    assert Runs(s2, [Continue]) && After(s2, [Continue]) == s3;
    assert Runs(s1, [GetChar, Continue]) && After(s1, [GetChar, Continue]) == s3;
  }
}

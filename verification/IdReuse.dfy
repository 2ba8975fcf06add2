/**
 How far gdb ids go (src/gdb.c): every 16-bit id is issued in some run, so places of the
 thread table come to hold threads with ids past the table, and an id from before makes
 handle_vcont act on them.
 */
module IdReuse {
  import opened Options
  import opened Words
  import opened Chars
  import opened Hex
  import opened ThreadIds
  import opened Debugger
  import opened Registry
  import opened Vcont
  import opened IdDigits
  import opened VcontPackets
  import opened VcontIds
  import HD = HardwareDebug
  import R = Runs

  /** A TCB no enabled thread has, its registers clean. */
  ghost predicate CleanTcb(s: State, tcb: nat) {
    && HD.FreshTcb(s, tcb)
    && (forall n :: 0 <= n < |s.machine.tcbs[tcb].breaks| ==> s.machine.tcbs[tcb].breaks[n] == None)
    && (forall n :: 0 <= n < |s.machine.tcbs[tcb].watches| ==> s.machine.tcbs[tcb].watches[n] == None)
  }

  /** One inferior, without breakpoints, that has issued `m` thread ids. */
  ghost predicate OneInferior(s: State, m: nat, nb: nat, nw: nat) {
    && R.Good(s, nb, nw)
    && var inf := s.inferiors[0];
    && inf.enabled && inf.id == 0 && inf.gdbId == 1 && inf.currThreadIdx == m
    && (forall n :: 0 <= n < nb ==> inf.hwBreaks[n] == 0)
    && (forall n :: 0 <= n < nw ==> inf.hwWatches[n].addr == 0)
    && R.CountersFit(s)
  }

  ghost predicate NoneLive(s: State) {
    forall i, j :: !Live(s.inferiors, i, j)
  }

  /** The thread with id m + 1 is live, in its place, and no other. */
  ghost predicate OnlyLive(s: State, m: nat, tcb: nat) {
    && Live(s.inferiors, 0, m % MAX_THREADS) && TcbAt(s.inferiors, 0, m % MAX_THREADS) == tcb
    && s.inferiors[0].threads[m % MAX_THREADS].id == 0
    && s.inferiors[0].threads[m % MAX_THREADS].gdbId == m + 1
    && forall i, j :: Live(s.inferiors, i, j) ==> i == 0 && j == m % MAX_THREADS
  }

  /** A registration issues the next id... */
  lemma Registered(s: State, m: nat, tcb: nat, nb: nat, nw: nat)
    requires OneInferior(s, m, nb, nw) && NoneLive(s) && CleanTcb(s, tcb) && m < MAX_ID
    ensures var op := R.AddThread(0, 0, tcb);
            && R.Allowed(s, op, nb, nw)
            && var r := R.After(s, op, nb, nw);
            && OneInferior(r, m + 1, nb, nw) && OnlyLive(r, m, tcb) && r.machine == s.machine
  {
    var inf := s.inferiors[0];
    NothingFound(inf.threads, 0);
    var used := UsedThreads(inf.threads);
    assert !used[m % MAX_THREADS] by {
      assert !Live(s.inferiors, 0, m % MAX_THREADS);
    }
    assert NextFree(used, m, m + MAX_THREADS) == m;
    var op := R.AddThread(0, 0, tcb);
    assert LookupInferior(s.inferiors, 0) == Some(0);
    assert HD.CleanFor(s.machine.tcbs[tcb], inf);
    NothingJoins(s.machine.tcbs[tcb], inf);
    var r := R.After(s, op, nb, nw);
    assert s.machine.tcbs[tcb := s.machine.tcbs[tcb]] == s.machine.tcbs;
    R.AfterGood(s, op, nb, nw);
    OneJoined(s.inferiors, r.inferiors, m % MAX_THREADS);
  }

  lemma OneJoined(infs: seq<Inferior>, rs: seq<Inferior>, k: nat)
    requires infs != [] && |rs| == |infs| && rs == infs[0 := rs[0]] && (forall i, j :: !Live(infs, i, j))
    requires k < |infs[0].threads| == |rs[0].threads| && infs[0].enabled
    requires rs[0].threads == infs[0].threads[k := rs[0].threads[k]]
    ensures forall i, j :: Live(rs, i, j) ==> i == 0 && j == k
  {
    forall i, j ensures Live(rs, i, j) ==> i == 0 && j == k {
      assert !Live(infs, i, j);
    }
  }

  lemma NothingFound(threads: seq<Thread>, id: nat)
    requires forall j :: 0 <= j < |threads| ==> !threads[j].enabled
    ensures LookupThread(threads, id) == None
  {
  }

  lemma NothingJoins(t: Kernel.Tcb, inf: Inferior)
    requires forall n :: 0 <= n < |inf.hwBreaks| ==> inf.hwBreaks[n] == 0
    requires forall n :: 0 <= n < |inf.hwWatches| ==> inf.hwWatches[n].addr == 0
    ensures JoinRegs(t, inf) == t
  {
    assert JoinRegs(t, inf).breaks == t.breaks && JoinRegs(t, inf).watches == t.watches;
  }

  /** ...and an exit frees its place again. */
  lemma Exited(s: State, m: nat, tcb: nat, nb: nat, nw: nat)
    requires OneInferior(s, m + 1, nb, nw) && OnlyLive(s, m, tcb)
    requires tcb in s.machine.tcbs && !s.machine.tcbs[tcb].stepping
    ensures var op := R.ExitThread(0, 0);
            && R.Allowed(s, op, nb, nw)
            && var r := R.After(s, op, nb, nw);
            && OneInferior(r, m + 1, nb, nw) && NoneLive(r) && r.machine == s.machine
  {
    var op := R.ExitThread(0, 0);
    assert LookupInferior(s.inferiors, 0) == Some(0);
    var threads := s.inferiors[0].threads;
    forall k | 0 <= k < |threads| && threads[k].enabled ensures k == m % MAX_THREADS {
      assert Live(s.inferiors, 0, k);
    }
    OneFound(threads, m % MAX_THREADS, 0);
    var r := R.After(s, op, nb, nw);
    forall i, j ensures !Live(r.inferiors, i, j) {
      assert Live(r.inferiors, i, j) ==> Live(s.inferiors, i, j);
    }
    R.AfterGood(s, op, nb, nw);
  }

  lemma OneFound(threads: seq<Thread>, j: nat, id: nat)
    requires j < |threads| && threads[j].enabled && threads[j].id == id
    requires forall k :: 0 <= k < |threads| && threads[k].enabled ==> k == j
    ensures LookupThread(threads, id) == Some(j)
  {
  }

  /** One thread comes and goes. */
  lemma Cycle(s: State, m: nat, tcb: nat, nb: nat, nw: nat) returns (s1: State, s2: State)
    requires OneInferior(s, m, nb, nw) && NoneLive(s) && CleanTcb(s, tcb) && m < MAX_ID
    ensures R.Allowed(s, R.AddThread(0, 0, tcb), nb, nw) && s1 == R.After(s, R.AddThread(0, 0, tcb), nb, nw)
    ensures R.Good(s1, nb, nw) && R.CountersFit(s1)
    ensures R.Allowed(s1, R.ExitThread(0, 0), nb, nw) && s2 == R.After(s1, R.ExitThread(0, 0), nb, nw)
    ensures R.CountersFit(s2)
    ensures OneInferior(s2, m + 1, nb, nw) && NoneLive(s2) && CleanTcb(s2, tcb)
  {
    Registered(s, m, tcb, nb, nw);
    s1 := R.After(s, R.AddThread(0, 0, tcb), nb, nw);
    Exited(s1, m, tcb, nb, nw);
    s2 := R.After(s1, R.ExitThread(0, 0), nb, nw);
  }

  /** Registering and exiting often enough issues id n + 1. */
  lemma {:induction false} Issue(s: State, m: nat, n: nat, tcb: nat, nb: nat, nw: nat) returns (ops: seq<R.Op>)
    requires OneInferior(s, m, nb, nw) && NoneLive(s) && CleanTcb(s, tcb) && m <= n < MAX_ID
    ensures R.RunAllowed(s, ops, nb, nw) && Reaches(s, ops, n, tcb, nb, nw)
    decreases n - m
  {
    if m == n {
      ops := IssueNext(s, n, tcb, nb, nw);
    } else {
      var s1, s2 := Cycle(s, m, tcb, nb, nw);
      var later := Issue(s2, m + 1, n, tcb, nb, nw);
      ops := RunBoth(s, R.AddThread(0, 0, tcb), s1, R.ExitThread(0, 0), s2, later, nb, nw);
    }
  }

  /** A run ends with the thread with id m + 1 live, and no other. */
  ghost predicate Reaches(s: State, ops: seq<R.Op>, m: nat, tcb: nat, nb: nat, nw: nat)
    requires R.Good(s, nb, nw) && R.RunAllowed(s, ops, nb, nw)
  {
    var r := R.Run(s, ops, nb, nw);
    OneInferior(r, m + 1, nb, nw) && OnlyLive(r, m, tcb)
  }

  lemma IssueNext(s: State, m: nat, tcb: nat, nb: nat, nw: nat) returns (ops: seq<R.Op>)
    requires OneInferior(s, m, nb, nw) && NoneLive(s) && CleanTcb(s, tcb) && m < MAX_ID
    ensures R.RunAllowed(s, ops, nb, nw) && Reaches(s, ops, m, tcb, nb, nw)
  {
    Registered(s, m, tcb, nb, nw);
    ops := [R.AddThread(0, 0, tcb)];
    var s1 := R.After(s, ops[0], nb, nw);
    assert ops[1..] == [];
    assert R.RunAllowed(s1, [], nb, nw) && R.Run(s1, [], nb, nw) == s1;
  }

  lemma RunBoth(s: State, a: R.Op, s1: State, b: R.Op, s2: State, later: seq<R.Op>, nb: nat, nw: nat)
    returns (ops: seq<R.Op>)
    requires R.Good(s, nb, nw) && R.Allowed(s, a, nb, nw) && s1 == R.After(s, a, nb, nw)
    requires R.Good(s1, nb, nw) && R.CountersFit(s1) && R.Allowed(s1, b, nb, nw) && s2 == R.After(s1, b, nb, nw)
    requires R.Good(s2, nb, nw) && R.CountersFit(s2) && R.RunAllowed(s2, later, nb, nw)
    ensures R.RunAllowed(s, ops, nb, nw) && R.Run(s, ops, nb, nw) == R.Run(s2, later, nb, nw)
  {
    ops := [a] + ([b] + later);
    assert ops[1..] == [b] + later && ([b] + later)[1..] == later;
  }

  /** The first inferior. */
  lemma Begun(s: State, vspace: nat, tcb: nat, nb: nat, nw: nat)
    requires Fresh(s) && Shape(s, nb, nw) && CleanTcb(s, tcb)
    ensures R.Good(s, nb, nw) && NoneLive(s)
    ensures var op := R.AddInferior(0, vspace);
            && R.Allowed(s, op, nb, nw)
            && var r := R.After(s, op, nb, nw);
            && OneInferior(r, 0, nb, nw) && NoneLive(r) && CleanTcb(r, tcb)
  {
    R.FreshIsGood(s, nb, nw);
    var op := R.AddInferior(0, vspace);
    NoneKnown(s.inferiors, 0);
    assert NextFree(UsedInferiors(s.inferiors), 0, MAX_PDS) == 0;
    var r := R.After(s, op, nb, nw);
    assert forall i :: 1 <= i < MAX_PDS ==> r.inferiors[i] == s.inferiors[i];
    R.AfterGood(s, op, nb, nw);
  }

  lemma NoneKnown(infs: seq<Inferior>, id: nat)
    requires forall i :: 0 <= i < |infs| ==> !infs[i].enabled
    ensures LookupInferior(infs, id) == None
  {
  }

  /** From the zeroed tables, some run issues any id up to 65535 to the first inferior. */
  lemma EveryIdIssued(s: State, vspace: nat, tcb: nat, n: nat, nb: nat, nw: nat) returns (ops: seq<R.Op>)
    requires Fresh(s) && Shape(s, nb, nw) && CleanTcb(s, tcb) && n < MAX_ID
    ensures R.Good(s, nb, nw) && R.RunAllowed(s, ops, nb, nw) && Reaches(s, ops, n, tcb, nb, nw)
  {
    Begun(s, vspace, tcb, nb, nw);
    var s1 := R.After(s, R.AddInferior(0, vspace), nb, nw);
    var later := Issue(s1, 0, n, tcb, nb, nw);
    ops := [R.AddInferior(0, vspace)] + later;
    assert ops[1..] == later;
  }

  // ---------------------------------------------------------------------------
  // A step of thread 1

  /** Thread 1 of process 1. */
  const FIRST := WireTarget([DIGIT_1], [DIGIT_1])

  lemma FirstMeans(infs: seq<Inferior>)
    requires |infs| == MAX_PDS && infs[0].enabled && infs[0].gdbId == 1
    ensures var packet := [WireAction(true, [FIRST])];
            && ValidActions(infs, packet, [NUL]) && HexActions(packet) && RightIds(packet)
            && Meaning(packet) == [Action(true, [Target(1, OneThread(1))])]
    ensures ValidId(infs, Target(1, OneThread(1)))
  {
    NumberOfOne(DIGIT_1);
    IdIsNumber([DIGIT_1]);
    assert [DIGIT_1] != MINUS_ONE;
    OneStep(infs, FIRST);
  }

  /** Once thread 1 is gone and another holds its place, a step of thread 1, every digit of
      it read right, names no thread and steps and wakes that other one. */
  lemma StaleIdActs(s: State)
    requires OwnTcbs(s) && RegInv(s) && s.inferiors[0].enabled && s.inferiors[0].gdbId == 1
    requires Live(s.inferiors, 0, 0) && s.inferiors[0].threads[0].gdbId != 1
    ensures var packet := [WireAction(true, [FIRST])];
            && ValidActions(s.inferiors, packet, [NUL]) && HexActions(packet) && RightIds(packet)
            && LookupThreadByGdbId(s.inferiors, 1, 1) == None
            && !PlacesKept(s.inferiors, Meaning(packet))
            && var r := Apply(s, Meaning(packet));
            && Live(r.inferiors, 0, 0) && TcbAt(s.inferiors, 0, 0) in r.machine.tcbs
            && r.machine.tcbs[TcbAt(s.inferiors, 0, 0)].stepping && r.inferiors[0].threads[0].wakeup
            && !AllObey(s, r, Meaning(packet))
  {
    FirstMeans(s.inferiors);
    var t := Target(1, OneThread(1));
    assert ThreadsLeadBack(s.inferiors[0]);
    HitsExactly(s, t, 0, 0);
    assert Hits(t, 0, 0);
    assert !PlaceKept(s.inferiors, t);
    StepDisobeys(s, t);
    assert [Action(true, [t])][0].targets[0] == t;
  }

  /** And some run from the zeroed tables comes to such a state. */
  lemma StaleIdReached(s: State, vspace: nat, tcb: nat, nb: nat, nw: nat) returns (ops: seq<R.Op>)
    requires Fresh(s) && Shape(s, nb, nw) && CleanTcb(s, tcb)
    ensures R.Good(s, nb, nw) && R.RunAllowed(s, ops, nb, nw)
    ensures var r := R.Run(s, ops, nb, nw);
            && OwnTcbs(r) && RegInv(r) && r.inferiors[0].enabled && r.inferiors[0].gdbId == 1
            && Live(r.inferiors, 0, 0) && r.inferiors[0].threads[0].gdbId == 257
  {
    ops := EveryIdIssued(s, vspace, tcb, 256, nb, nw);
  }

  /** The id 257 itself, written with four digits, is read right; the loop it leads to
      visits every place of the table and goes on behind it. */
  lemma Id257()
    ensures var digits: seq<byte> := [ZERO_DIGIT, DIGIT_1, ZERO_DIGIT, DIGIT_1];
            && IsId(digits) && RightId(digits) && Number(digits) == 257 && IdOf(digits) == 257
    ensures Visits(257, MAX_THREADS) && forall place :: 0 <= place < MAX_THREADS ==> Visits(257, place)
  {
    var digits: seq<byte> := [ZERO_DIGIT, DIGIT_1, ZERO_DIGIT, DIGIT_1];
    var pair := [ZERO_DIGIT, DIGIT_1];
    assert digits[2..] == pair && digits[..2] == pair && pair[2..] == [] && pair[..2] == pair;
    assert Swapped(pair) == pair && Swapped(digits) == digits;
    NumberPair([], ZERO_DIGIT, DIGIT_1);
    assert [] + pair == pair;
    NumberPair(pair, ZERO_DIGIT, DIGIT_1);
    assert pair + pair == digits;
    IdIsNumber(digits);
    VisitsExactly(257);
  }
}

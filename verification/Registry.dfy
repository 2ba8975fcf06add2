/**
 Ids of inferiors and threads (src/gdb.c): slots are handed out in ring order, and
 a gdb id names its slot modulo the table size.
 */
module Registry {
  import opened Options
  import opened Words
  import opened Debugger

  const MAX_ID := 0xFFFF

  /** A slot that has been used carries an id that leads back to it. */
  ghost predicate LeadsBack(gdbId: nat, slot: int, counter: nat, size: nat)
    requires size > 0
  {
    gdbId != 0 ==> (gdbId - 1) % size == slot && gdbId <= counter
  }

  ghost predicate ThreadsLeadBack(inf: Inferior) {
    && |inf.threads| == MAX_THREADS && inf.currThreadIdx <= MAX_ID
    && (forall j :: 0 <= j < MAX_THREADS ==>
          && LeadsBack(inf.threads[j].gdbId, j, inf.currThreadIdx, MAX_THREADS)
          && (inf.threads[j].enabled ==> inf.threads[j].gdbId != 0))
    && (forall j, k :: 0 <= j < k < MAX_THREADS && inf.threads[j].enabled && inf.threads[k].enabled ==>
          inf.threads[j].id != inf.threads[k].id)
  }

  ghost predicate RegInv(s: State) {
    && |s.inferiors| == MAX_PDS && s.currInferiorIdx <= MAX_ID
    && (forall i :: 0 <= i < MAX_PDS ==>
          && LeadsBack(s.inferiors[i].gdbId, i, s.currInferiorIdx, MAX_PDS)
          && (s.inferiors[i].enabled ==> s.inferiors[i].gdbId != 0)
          && ThreadsLeadBack(s.inferiors[i]))
    && (forall i, k :: 0 <= i < k < MAX_PDS && s.inferiors[i].enabled && s.inferiors[k].enabled ==>
          s.inferiors[i].id != s.inferiors[k].id)
  }

  /** Nothing registered yet, and zeroed tables. */
  ghost predicate Fresh(s: State) {
    && |s.inferiors| == MAX_PDS && s.currInferiorIdx == 0
    && forall i :: 0 <= i < MAX_PDS ==>
         var inf := s.inferiors[i];
         && !inf.enabled && inf.gdbId == 0 && inf.currThreadIdx == 0
         && |inf.threads| == MAX_THREADS
         && forall j :: 0 <= j < MAX_THREADS ==> inf.threads[j] == NO_THREAD
  }

  // ---------------------------------------------------------------------------
  // Lookup by gdb id

  function LookupByGdbId(infs: seq<Inferior>, procId: nat): Option<nat>
    requires |infs| == MAX_PDS && procId > 0
  {
    var k := (procId - 1) % MAX_PDS;
    if infs[k].gdbId == procId then Some(k) else None
  }

  function LookupThreadByGdbId(infs: seq<Inferior>, procId: nat, threadId: nat): Option<Slot>
    requires |infs| == MAX_PDS && procId > 0 && threadId > 0
    requires forall i :: 0 <= i < MAX_PDS ==> |infs[i].threads| == MAX_THREADS
  {
    match LookupByGdbId(infs, procId)
    case None => None
    case Some(i) =>
      var j := (threadId - 1) % MAX_THREADS;
      if infs[i].threads[j].gdbId == threadId then Some(Slot(i, j)) else None
  }

  /** The constant-time lookup finds what a search of all used slots would, and
      there is only one such slot. */
  lemma LookupIsSearch(s: State, procId: nat, threadId: nat)
    requires RegInv(s) && procId > 0 && threadId > 0
    ensures forall i, j :: 0 <= i < MAX_PDS && 0 <= j < MAX_THREADS ==>
              (s.inferiors[i].gdbId == procId && s.inferiors[i].threads[j].gdbId == threadId <==>
                 LookupThreadByGdbId(s.inferiors, procId, threadId) == Some(Slot(i, j)))
    ensures forall i :: 0 <= i < MAX_PDS ==>
              (s.inferiors[i].gdbId == procId <==> LookupByGdbId(s.inferiors, procId) == Some(i))
  {
  }

  // ---------------------------------------------------------------------------
  // The operations

  /** Within any window of as many counter values as slots, each slot comes up. */
  lemma WindowCovers(c: nat, size: nat, k: nat) returns (n: nat)
    requires 0 < size && k < size
    ensures c <= n < c + size && n % size == k
  {
    var r := c % size;
    if r <= k {
      n := c + (k - r);
      ModAdd(c, k - r, size);
    } else {
      n := c + (size - r + k);
      ModAdd(c, size - r + k, size);
    }
  }

  lemma ModAdd(c: nat, d: nat, size: nat)
    requires 0 < size && d < size
    ensures (c + d) % size == if c % size + d < size then c % size + d else c % size + d - size
  {
    var q := c / size;
    assert c == size * q + c % size;
    var r := c % size + d;
    if r < size {
      Quotient(c + d, q, r, size);
    } else {
      assert c + d == size * (q + 1) + (r - size);
      Quotient(c + d, q + 1, r - size, size);
    }
  }

  /** The ring search fails exactly when every slot is taken. */
  lemma NextFreeExact(used: seq<bool>, c: nat)
    requires |used| > 0
    ensures NextFree(used, c, c + |used|) == c + |used| <==> forall k :: 0 <= k < |used| ==> used[k]
  {
    var n := NextFree(used, c, c + |used|);
    if n == c + |used| {
      forall k | 0 <= k < |used| ensures used[k] {
        var m := WindowCovers(c, |used|, k);
        assert used[m % |used|];
      }
    }
  }

  /** Registering a new thread id under a known inferior fails for lack of resources
      exactly when all its slots are enabled; registering an inferior likewise. */
  lemma RegisterFailsExactly(s: State, id: nat, threadId: nat, tcb: nat, vspace: nat)
    requires RegInv(s) && tcb in s.machine.tcbs
    ensures LookupInferior(s.inferiors, id).None? ==>
              (RegisterInferior(s, id, vspace).0 == InsufficientResources <==>
                 forall i :: 0 <= i < MAX_PDS ==> s.inferiors[i].enabled)
    ensures var i := LookupInferior(s.inferiors, id);
            i.Some? && LookupThread(s.inferiors[i.value].threads, threadId).None? ==>
              (RegisterThread(s, id, threadId, tcb).0 == InsufficientResources <==>
                 forall j :: 0 <= j < MAX_THREADS ==> s.inferiors[i.value].threads[j].enabled)
  {
    var used := UsedInferiors(s.inferiors);
    NextFreeExact(used, s.currInferiorIdx);
    assert forall i :: 0 <= i < MAX_PDS ==> used[i] == s.inferiors[i].enabled;
    var i := LookupInferior(s.inferiors, id);
    if i.Some? {
      var inf := s.inferiors[i.value];
      assert ThreadsLeadBack(inf);
      var usedThreads := UsedThreads(inf.threads);
      NextFreeExact(usedThreads, inf.currThreadIdx);
      assert forall j :: 0 <= j < MAX_THREADS ==> usedThreads[j] == inf.threads[j].enabled;
    }
  }

  lemma RegisterInferiorIds(s: State, id: nat, vspace: nat)
    requires RegInv(s) && RegisterInferior(s, id, vspace).1.currInferiorIdx <= MAX_ID
    ensures RegInv(RegisterInferior(s, id, vspace).1)
  {
    var (e, r) := RegisterInferior(s, id, vspace);
    if e == NoError {
      var c := NextFree(UsedInferiors(s.inferiors), s.currInferiorIdx, s.currInferiorIdx + MAX_PDS);
      var k := c % MAX_PDS;
      assert (c + 1) % 0x1_0000 == c + 1;
      assert ThreadsLeadBack(r.inferiors[k]);
    }
  }

  lemma RegisterThreadIds(s: State, id: nat, threadId: nat, tcb: nat)
    requires RegInv(s) && tcb in s.machine.tcbs
    requires forall i :: 0 <= i < MAX_PDS ==>
               RegisterThread(s, id, threadId, tcb).1.inferiors[i].currThreadIdx <= MAX_ID
    ensures RegInv(RegisterThread(s, id, threadId, tcb).1)
  {
    var (e, r) := RegisterThread(s, id, threadId, tcb);
    if e == NoError || e == InsufficientResources {
      var i := LookupInferior(s.inferiors, id).value;
      var inf, inf' := s.inferiors[i], r.inferiors[i];
      assert ThreadsLeadBack(inf);
      assert ThreadsLeadBack(inf') by {
        if e == NoError {
          var c := NextFree(UsedThreads(inf.threads), inf.currThreadIdx, inf.currThreadIdx + MAX_THREADS);
          assert (c + 1) % 0x1_0000 == c + 1;
        }
      }
    }
  }

  lemma ThreadExitIds(s: State, id: nat, threadId: nat)
    requires RegInv(s)
    ensures RegInv(ThreadExit(s, id, threadId).1)
  {
  }

  /** Operations that leave the ids alone. */
  ghost predicate SameIds(s: State, r: State) {
    && |r.inferiors| == |s.inferiors| && r.currInferiorIdx == s.currInferiorIdx
    && forall i :: 0 <= i < |s.inferiors| ==>
         var a, b := s.inferiors[i], r.inferiors[i];
         && a.enabled == b.enabled && a.id == b.id && a.gdbId == b.gdbId && a.vspace == b.vspace
         && a.currThreadIdx == b.currThreadIdx && |a.threads| == |b.threads|
         && forall j :: 0 <= j < |a.threads| ==>
              SameThread(a.threads[j], b.threads[j]) && a.threads[j].enabled == b.threads[j].enabled
  }

  predicate SameThread(a: Thread, b: Thread) {
    a.id == b.id && a.gdbId == b.gdbId && a.tcb == b.tcb
  }

  lemma SameIdsKeep(s: State, r: State)
    requires RegInv(s) && SameIds(s, r)
    ensures RegInv(r)
  {
  }

  // ---------------------------------------------------------------------------
  // Stale ids

  /** How one inferior's threads may change: a slot keeps its thread, enabled or
      not, or gets one with an id never issued before. */
  ghost predicate ThreadsEvolve(a: Inferior, b: Inferior) {
    && a.currThreadIdx <= b.currThreadIdx && |a.threads| == |b.threads|
    && forall j :: 0 <= j < |a.threads| ==>
         SameThread(a.threads[j], b.threads[j]) || a.currThreadIdx < b.threads[j].gdbId
  }

  ghost predicate Evolves(s: State, r: State) {
    && s.currInferiorIdx <= r.currInferiorIdx && |s.inferiors| == |r.inferiors|
    && forall i :: 0 <= i < |s.inferiors| ==>
         var a, b := s.inferiors[i], r.inferiors[i];
         || (a.gdbId == b.gdbId && a.id == b.id && a.vspace == b.vspace && ThreadsEvolve(a, b))
         || s.currInferiorIdx < b.gdbId
  }

  lemma EvolvesTransitive(s: State, m: State, r: State)
    requires RegInv(s) && RegInv(m) && Evolves(s, m) && Evolves(m, r)
    ensures Evolves(s, r)
  {
  }

  lemma SameIdsEvolve(s: State, r: State)
    requires SameIds(s, r)
    ensures Evolves(s, r)
  {
  }

  lemma RegisterInferiorEvolves(s: State, id: nat, vspace: nat)
    requires RegInv(s) && RegisterInferior(s, id, vspace).1.currInferiorIdx <= MAX_ID
    ensures Evolves(s, RegisterInferior(s, id, vspace).1)
  {
    var (e, r) := RegisterInferior(s, id, vspace);
    if e == NoError {
      var c := NextFree(UsedInferiors(s.inferiors), s.currInferiorIdx, s.currInferiorIdx + MAX_PDS);
      assert (c + 1) % 0x1_0000 == c + 1;
    }
  }

  lemma RegisterThreadEvolves(s: State, id: nat, threadId: nat, tcb: nat)
    requires RegInv(s) && tcb in s.machine.tcbs
    requires forall i :: 0 <= i < MAX_PDS ==>
               RegisterThread(s, id, threadId, tcb).1.inferiors[i].currThreadIdx <= MAX_ID
    ensures Evolves(s, RegisterThread(s, id, threadId, tcb).1)
  {
    var (e, r) := RegisterThread(s, id, threadId, tcb);
    if e == NoError {
      var i := LookupInferior(s.inferiors, id).value;
      var inf := s.inferiors[i];
      var c := NextFree(UsedThreads(inf.threads), inf.currThreadIdx, inf.currThreadIdx + MAX_THREADS);
      assert r.inferiors[i].currThreadIdx == c + 1;
      assert (c + 1) % 0x1_0000 == c + 1;
      assert ThreadsEvolve(inf, r.inferiors[i]);
    }
  }

  /** A gdb id issued before never resolves to a different thread later: if it
      still resolves, it is to the slot and thread it resolved to then. */
  lemma StaleIds(s: State, r: State, procId: nat, threadId: nat)
    requires RegInv(s) && RegInv(r) && Evolves(s, r) && 0 < procId <= s.currInferiorIdx && threadId > 0
    requires LookupByGdbId(r.inferiors, procId).Some?
    requires threadId <= s.inferiors[(procId - 1) % MAX_PDS].currThreadIdx
    requires LookupThreadByGdbId(r.inferiors, procId, threadId).Some?
    ensures var slot := LookupThreadByGdbId(r.inferiors, procId, threadId);
            && LookupThreadByGdbId(s.inferiors, procId, threadId) == slot
            && SameThread(s.inferiors[slot.value.i].threads[slot.value.j],
                          r.inferiors[slot.value.i].threads[slot.value.j])
  {
  }
}

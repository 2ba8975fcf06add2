/**
 Software breakpoints of all inferiors together (src/arch/arm/64/gdb.c, src/gdb.c): what
 the calls do to the whole state, and the memories of a system over every run.
 */
module SoftwareRuns {
  import opened Memory
  import opened Debugger
  import opened DetachMemory
  import Effects
  import R = Runs
  import VC = Vcont
  import SW = SoftwareBreakpoints

  // ---------------------------------------------------------------------------
  // Single calls

  /** Nothing but the table of inferior `i` and its memory differs. */
  ghost predicate OnlySoftware(s: State, r: State, i: nat)
    requires i < |s.inferiors|
  {
    && |r.inferiors| == |s.inferiors|
    && r.inferiors == s.inferiors[i := s.inferiors[i].(swBreaks := r.inferiors[i].swBreaks)]
    && r.currInferiorIdx == s.currInferiorIdx && r.target == s.target
    && r.machine.tcbs == s.machine.tcbs && r.machine.spaces.Keys == s.machine.spaces.Keys
    && forall v :: v in s.machine.spaces && v != s.inferiors[i].vspace ==> r.machine.spaces[v] == s.machine.spaces[v]
  }

  /** Setting succeeds exactly when the word can be read and written and an entry is free:
      then the address is tabled with the word that was there, BRK is at the address, and
      nothing else differs, in this inferior or any other. A failing call does nothing. */
  lemma SetExactly(s: State, i: nat, a: nat)
    requires i < |s.inferiors| && ValidSpaces(s.machine.spaces) && s.inferiors[i].vspace in s.machine.spaces
    ensures var (ok, r) := SetSwBreak(s, i, a);
            var v := s.inferiors[i].vspace;
            var was, now := s.machine.spaces[v], r.machine.spaces[v];
            && (ok <==>
                  && a in was.readable && a in was.writable
                  && exists k :: 0 <= k < |s.inferiors[i].swBreaks| && s.inferiors[i].swBreaks[k].addr == 0)
            && (!ok ==> r == s)
            && (ok ==>
                  && OnlySoftware(s, r, i)
                  && Effects.Entered(s.inferiors[i].swBreaks, r.inferiors[i].swBreaks,
                                     SW.SwBreak(a, LoadWord(was.bytes, a)))
                  && SW.HasBreak(now.bytes, a) && now.bytes.Keys == was.bytes.Keys
                  && now.readable == was.readable && now.writable == was.writable
                  && forall x :: x in was.bytes && !(a <= x < a + 4) ==> now.bytes[x] == was.bytes[x])
  {
    var p := PatchedBy(s.machine.spaces, s.inferiors[i]);
    Effects.SetSoftwareExactly(p, a);
    PatchedByItself(s, i);
    SetRights(p, a);
  }

  lemma PatchedByItself(s: State, i: nat)
    requires i < |s.inferiors|
    ensures WithPatched(s, i, PatchedBy(s.machine.spaces, s.inferiors[i])) == s
  {
    assert s.inferiors[i := s.inferiors[i]] == s.inferiors;
  }

  lemma SetRights(p: SW.Patched, a: nat)
    requires p.vs.Valid()
    ensures var q := SW.SetBreak(p, a).state;
            q.vs.readable == p.vs.readable && q.vs.writable == p.vs.writable
  {
  }

  /** Clearing succeeds unless the address is tabled and cannot be written: then the saved
      word is back in memory and its entry free, and nothing else differs. An address not
      tabled is cleared by doing nothing. */
  lemma UnsetExactly(s: State, i: nat, a: nat)
    requires i < |s.inferiors| && ValidSpaces(s.machine.spaces) && s.inferiors[i].vspace in s.machine.spaces
    ensures var (ok, r) := UnsetSwBreak(s, i, a);
            var v := s.inferiors[i].vspace;
            var table := s.inferiors[i].swBreaks;
            var n := SW.FirstAt(table, a);
            var was, now := s.machine.spaces[v], r.machine.spaces[v];
            && (ok <==> n == |table| || a in was.writable)
            && (n == |table| || !ok ==> r == s)
            && (n < |table| && ok ==>
                  && OnlySoftware(s, r, i)
                  && r.inferiors[i].swBreaks == table[n := SW.SwBreak(0, table[n].word)]
                  && now.bytes.Keys == was.bytes.Keys
                  && HasWord(now.bytes, a) && LoadWord(now.bytes, a) == table[n].word
                  && now.readable == was.readable && now.writable == was.writable
                  && forall x :: x in was.bytes && !(a <= x < a + 8) ==> now.bytes[x] == was.bytes[x])
  {
    PatchedByItself(s, i);
  }

  /** Clearing a breakpoint just set restores every memory, every table entry in use, and
      everything else. */
  lemma SetThenUnset(s: State, i: nat, a: nat)
    requires i < |s.inferiors| && ValidSpaces(s.machine.spaces) && s.inferiors[i].vspace in s.machine.spaces
    requires a != 0 && SW.FirstAt(s.inferiors[i].swBreaks, a) == |s.inferiors[i].swBreaks|
    requires SetSwBreak(s, i, a).0
    ensures var r := SetSwBreak(s, i, a).1;
            && ValidSpaces(r.machine.spaces)
            && var (ok, q) := UnsetSwBreak(r, i, a);
            && ok && q.machine == s.machine && OnlySoftware(s, q, i)
            && |q.inferiors[i].swBreaks| == |s.inferiors[i].swBreaks|
            && forall k :: 0 <= k < |s.inferiors[i].swBreaks| ==>
                 || q.inferiors[i].swBreaks[k] == s.inferiors[i].swBreaks[k]
                 || q.inferiors[i].swBreaks[k].addr == s.inferiors[i].swBreaks[k].addr == 0
  {
    var p := PatchedBy(s.machine.spaces, s.inferiors[i]);
    var r := SetSwBreak(s, i, a).1;
    Effects.SetThenUnsetSoftware(p, a);
    assert PatchedBy(r.machine.spaces, r.inferiors[i]) == SW.SetBreak(p, a).state;
    var q := UnsetSwBreak(r, i, a).1;
    assert q.machine.spaces == s.machine.spaces;
    assert q.inferiors == s.inferiors[i := s.inferiors[i].(swBreaks := q.inferiors[i].swBreaks)];
  }

  // ---------------------------------------------------------------------------
  // Runs

  /** Every enabled inferior's memory is its original one under exactly its tabled
      breakpoints, and all other memory is original. */
  ghost predicate Overlaid(origs: Spaces, s: State) {
    && ValidSpaces(s.machine.spaces) && ValidSpaces(origs) && origs.Keys == s.machine.spaces.Keys
    && OwnSpaces(s.machine.spaces, s.inferiors) && AllPatched(origs, s.machine.spaces, s.inferiors)
    && forall v :: v in s.machine.spaces && Unowned(s.inferiors, v) ==> s.machine.spaces[v] == origs[v]
  }

  ghost predicate Unowned(infs: seq<Inferior>, v: nat) {
    forall i :: 0 <= i < |infs| && infs[i].enabled ==> infs[i].vspace != v
  }

  /** What keeps breakpoints from treading on each other: nonzero addresses of registered
      inferiors, a word apart in each table; a vspace of its own for a new inferior; and no
      detaching where something can be written at address 0. */
  ghost predicate Careful(s: State, op: R.Op) {
    match op
    case SetSoft(i, a) =>
      && i < |s.inferiors| && s.inferiors[i].enabled && a != 0 && ValidSpaces(s.machine.spaces)
      && SW.Apart(SetSwBreak(s, i, a).1.inferiors[i].swBreaks, 8)
    case UnsetSoft(i, a) => i < |s.inferiors| && s.inferiors[i].enabled && a != 0
    case AddInferior(id, v) =>
      LookupInferior(s.inferiors, id).None? ==> v in s.machine.spaces && Unowned(s.inferiors, v)
    case DetachAll => forall v :: v in s.machine.spaces ==> 0 !in s.machine.spaces[v].writable
    case _ => true
  }

  /** Calls that have no part in memories and software tables. */
  ghost predicate SameSoftware(s: State, r: State) {
    && r.machine.spaces == s.machine.spaces && |r.inferiors| == |s.inferiors|
    && forall i :: 0 <= i < |s.inferiors| ==>
         && r.inferiors[i].enabled == s.inferiors[i].enabled && r.inferiors[i].vspace == s.inferiors[i].vspace
         && r.inferiors[i].swBreaks == s.inferiors[i].swBreaks
  }

  lemma SameSoftwareKeeps(origs: Spaces, s: State, r: State)
    requires Overlaid(origs, s) && SameSoftware(s, r)
    ensures Overlaid(origs, r)
  {
    forall i | 0 <= i < |s.inferiors|
      ensures PatchedBy(r.machine.spaces, r.inferiors[i]) == PatchedBy(s.machine.spaces, s.inferiors[i])
    {}
    forall v | v in s.machine.spaces && Unowned(r.inferiors, v) ensures Unowned(s.inferiors, v) {
      forall i | 0 <= i < |s.inferiors| && s.inferiors[i].enabled ensures s.inferiors[i].vspace != v {
        assert r.inferiors[i].enabled;
      }
    }
  }

  /** One inferior's table and memory change together, under its invariant. */
  lemma OneChanges(origs: Spaces, s: State, i: nat, p: SW.Patched)
    requires Overlaid(origs, s) && i < |s.inferiors| && s.inferiors[i].enabled
    requires SW.Inv(origs[s.inferiors[i].vspace], p)
    ensures Overlaid(origs, WithPatched(s, i, p))
  {
    var r := WithPatched(s, i, p);
    forall k | 0 <= k < |r.inferiors| && r.inferiors[k].enabled
      ensures r.inferiors[k].vspace in origs
      ensures SW.Inv(origs[r.inferiors[k].vspace], PatchedBy(r.machine.spaces, r.inferiors[k]))
    {
      OnePatched(s, i, p, k);
    }
    OneOthers(origs, s, i, p);
  }

  lemma OneOthers(origs: Spaces, s: State, i: nat, p: SW.Patched)
    requires i < |s.inferiors| && s.inferiors[i].enabled && OwnSpaces(s.machine.spaces, s.inferiors)
    requires ValidSpaces(s.machine.spaces) && p.vs.Valid() && origs.Keys == s.machine.spaces.Keys
    requires forall v :: v in s.machine.spaces && Unowned(s.inferiors, v) ==> s.machine.spaces[v] == origs[v]
    ensures var r := WithPatched(s, i, p);
            && ValidSpaces(r.machine.spaces) && origs.Keys == r.machine.spaces.Keys
            && OwnSpaces(r.machine.spaces, r.inferiors)
            && forall u :: u in r.machine.spaces && Unowned(r.inferiors, u) ==> r.machine.spaces[u] == origs[u]
  {
    var r := WithPatched(s, i, p);
    forall u | u in r.machine.spaces && Unowned(r.inferiors, u) ensures r.machine.spaces[u] == origs[u] {
      UnownedSame(s.inferiors, r.inferiors, u);
      assert u != s.inferiors[i].vspace;
    }
  }

  lemma OnePatched(s: State, i: nat, p: SW.Patched, k: nat)
    requires OwnSpaces(s.machine.spaces, s.inferiors) && i < |s.inferiors| && k < |s.inferiors|
    requires s.inferiors[i].enabled && s.inferiors[k].enabled
    ensures var r := WithPatched(s, i, p);
            PatchedBy(r.machine.spaces, r.inferiors[k]) ==
            if k == i then p else PatchedBy(s.machine.spaces, s.inferiors[k])
  {
  }

  lemma UnownedSame(infs: seq<Inferior>, infs': seq<Inferior>, v: nat)
    requires |infs| == |infs'| && Unowned(infs', v)
    requires forall i :: 0 <= i < |infs| ==>
               infs[i].enabled == infs'[i].enabled && infs[i].vspace == infs'[i].vspace
    ensures Unowned(infs, v)
    ensures forall i :: 0 <= i < |infs| && infs[i].enabled ==> infs[i].vspace != v
  {
    forall i | 0 <= i < |infs| && infs[i].enabled ensures infs[i].vspace != v {
      assert infs'[i].enabled;
    }
  }

  lemma SetKeeps(origs: Spaces, s: State, i: nat, a: nat)
    requires Overlaid(origs, s) && Careful(s, R.SetSoft(i, a))
    ensures Overlaid(origs, SetSwBreak(s, i, a).1)
  {
    var p := PatchedBy(s.machine.spaces, s.inferiors[i]);
    var orig := origs[s.inferiors[i].vspace];
    SW.SetBreakKeeps(orig, p, a);
    OneChanges(origs, s, i, SW.SetBreak(p, a).state);
  }

  lemma UnsetKeeps(origs: Spaces, s: State, i: nat, a: nat)
    requires Overlaid(origs, s) && Careful(s, R.UnsetSoft(i, a))
    ensures Overlaid(origs, UnsetSwBreak(s, i, a).1)
  {
    var p := PatchedBy(s.machine.spaces, s.inferiors[i]);
    var orig := origs[s.inferiors[i].vspace];
    SW.UnsetBreakKeeps(orig, p, a);
    OneChanges(origs, s, i, SW.UnsetBreak(p, a).state);
  }

  lemma AddKeeps(origs: Spaces, s: State, id: nat, v: nat)
    requires |s.inferiors| == MAX_PDS && Overlaid(origs, s) && Careful(s, R.AddInferior(id, v))
    ensures Overlaid(origs, RegisterInferior(s, id, v).1)
  {
    Effects.RegisterInferiorAdds(s, id, v);
    var (e, r) := RegisterInferior(s, id, v);
    if e == NoError {
      var at := LookupInferior(r.inferiors, id).value;
      Joins(origs, s, r, at, v);
    } else {
      SameSoftwareKeeps(origs, s, r);
    }
  }

  lemma Joins(origs: Spaces, s: State, r: State, at: nat, v: nat)
    requires Overlaid(origs, s) && v in s.machine.spaces && Unowned(s.inferiors, v)
    requires at < |s.inferiors| && !s.inferiors[at].enabled && r.machine == s.machine
    requires |r.inferiors| == |s.inferiors| && r.inferiors == s.inferiors[at := r.inferiors[at]]
    requires r.inferiors[at].enabled && r.inferiors[at].vspace == v
    requires forall n :: 0 <= n < |r.inferiors[at].swBreaks| ==> r.inferiors[at].swBreaks[n].addr == 0
    ensures Overlaid(origs, r)
  {
    var p := PatchedBy(r.machine.spaces, r.inferiors[at]);
    assert p.vs == origs[v];
    NothingTabled(origs[v], p);
    forall i | 0 <= i < |r.inferiors| && r.inferiors[i].enabled
      ensures r.inferiors[i].vspace in origs
      ensures SW.Inv(origs[r.inferiors[i].vspace], PatchedBy(r.machine.spaces, r.inferiors[i]))
    {
      if i != at {
        assert PatchedBy(r.machine.spaces, r.inferiors[i]) == PatchedBy(s.machine.spaces, s.inferiors[i]);
      }
    }
    forall u | u in r.machine.spaces && Unowned(r.inferiors, u) ensures Unowned(s.inferiors, u) {
      forall i | 0 <= i < |s.inferiors| && s.inferiors[i].enabled ensures s.inferiors[i].vspace != u {
        assert r.inferiors[i].enabled;
      }
    }
  }

  lemma NothingTabled(orig: VSpace, p: SW.Patched)
    requires orig.Valid() && p.vs == orig && forall n :: 0 <= n < |p.table| ==> p.table[n].addr == 0
    ensures SW.Inv(orig, p)
  {
  }

  lemma DetachKeepsOverlay(origs: Spaces, s: State)
    requires Overlaid(origs, s) && Careful(s, R.DetachAll)
    ensures Overlaid(origs, Detach(s))
  {
    DetachOriginal(origs, s);
    NoTables(origs, s, Detach(s));
  }

  /** Detaching makes all memory original. */
  lemma DetachOriginal(origs: Spaces, s: State)
    requires Overlaid(origs, s) && Careful(s, R.DetachAll)
    ensures Detach(s).machine.spaces == origs
  {
    var r := Detach(s);
    DetachRestoresAll(origs, s);
    forall v | v in s.machine.spaces ensures v in r.machine.spaces && r.machine.spaces[v] == origs[v] {
      if Unowned(s.inferiors, v) {
        DetachOthers(s.machine.spaces, s.inferiors, |s.inferiors|, v);
      }
    }
    DetachKeys(s.machine.spaces, s.inferiors, |s.inferiors|);
  }

  /** Original memories and empty tables. */
  lemma NoTables(origs: Spaces, s: State, r: State)
    requires Overlaid(origs, s) && r.machine.spaces == origs && |r.inferiors| == |s.inferiors|
    requires forall i :: 0 <= i < |s.inferiors| ==>
               r.inferiors[i].enabled == s.inferiors[i].enabled && r.inferiors[i].vspace == s.inferiors[i].vspace
    requires forall i, n :: 0 <= i < |r.inferiors| && r.inferiors[i].enabled && 0 <= n < |r.inferiors[i].swBreaks| ==>
               r.inferiors[i].swBreaks[n].addr == 0
    ensures Overlaid(origs, r)
  {
    forall i | 0 <= i < |r.inferiors| && r.inferiors[i].enabled
      ensures r.inferiors[i].vspace in origs
      ensures SW.Inv(origs[r.inferiors[i].vspace], PatchedBy(r.machine.spaces, r.inferiors[i]))
    {
      assert s.inferiors[i].enabled;
      NothingTabled(origs[r.inferiors[i].vspace], PatchedBy(r.machine.spaces, r.inferiors[i]));
    }
  }

  lemma {:induction false} DetachKeys(spaces: Spaces, infs: seq<Inferior>, n: nat)
    requires n <= |infs| && ValidSpaces(spaces)
    ensures DetachSpaces(spaces, infs, n).Keys == spaces.Keys
  {
    if n > 0 {
      DetachKeys(spaces, infs, n - 1);
    }
  }

  lemma AfterKeepsOverlay(origs: Spaces, s: State, op: R.Op, nb: nat, nw: nat)
    requires R.Good(s, nb, nw) && R.Allowed(s, op, nb, nw) && Overlaid(origs, s) && Careful(s, op)
    ensures Overlaid(origs, R.After(s, op, nb, nw))
  {
    match op
    case SetSoft(i, a) => SetKeeps(origs, s, i, a);
    case UnsetSoft(i, a) => UnsetKeeps(origs, s, i, a);
    case AddInferior(id, v) => AddKeeps(origs, s, id, v);
    case DetachAll => DetachKeepsOverlay(origs, s);
    case _ =>
      OthersSame(s, op, nb, nw);
      SameSoftwareKeeps(origs, s, R.After(s, op, nb, nw));
  }

  lemma OthersSame(s: State, op: R.Op, nb: nat, nw: nat)
    requires R.Good(s, nb, nw) && R.Allowed(s, op, nb, nw)
    requires !op.SetSoft? && !op.UnsetSoft? && !op.AddInferior? && !op.DetachAll?
    ensures SameSoftware(s, R.After(s, op, nb, nw))
  {
    if op.SetBreak? || op.UnsetBreak? || op.SetWatch? || op.UnsetWatch? {
      TablesSame(s, op, nb, nw);
    }
  }

  lemma TablesSame(s: State, op: R.Op, nb: nat, nw: nat)
    requires R.Good(s, nb, nw) && R.Allowed(s, op, nb, nw)
    requires op.SetBreak? || op.UnsetBreak? || op.SetWatch? || op.UnsetWatch?
    ensures SameSoftware(s, R.After(s, op, nb, nw))
  {
  }

  ghost predicate CarefulRun(s: State, ops: seq<R.Op>, nb: nat, nw: nat)
    requires R.Good(s, nb, nw) && R.RunAllowed(s, ops, nb, nw)
    decreases |ops|
  {
    ops == [] ||
    (Careful(s, ops[0]) && (R.AfterGood(s, ops[0], nb, nw);
                            CarefulRun(R.After(s, ops[0], nb, nw), ops[1..], nb, nw)))
  }

  /** Over every careful run of all calls of the library, each inferior's memory is its
      original one with BRK over exactly the low four bytes of its tabled addresses, and no
      other memory ever differs from the original. */
  lemma {:induction false} OverlaysOverRuns(origs: Spaces, s: State, ops: seq<R.Op>, nb: nat, nw: nat)
    requires R.Good(s, nb, nw) && R.RunAllowed(s, ops, nb, nw) && CarefulRun(s, ops, nb, nw)
    requires Overlaid(origs, s)
    ensures Overlaid(origs, R.Run(s, ops, nb, nw))
    decreases |ops|
  {
    if ops != [] {
      AfterKeepsOverlay(origs, s, ops[0], nb, nw);
      R.AfterGood(s, ops[0], nb, nw);
      OverlaysOverRuns(origs, R.After(s, ops[0], nb, nw), ops[1..], nb, nw);
    }
  }

  /** The zeroed tables the library starts with. */
  lemma BeginsOverlaid(s: State)
    requires ValidSpaces(s.machine.spaces) && forall i :: 0 <= i < |s.inferiors| ==> !s.inferiors[i].enabled
    ensures Overlaid(s.machine.spaces, s)
  {
  }

  /** With no breakpoint tabled all memory is the original, byte for byte. */
  lemma NoneTabledRestored(origs: Spaces, s: State)
    requires Overlaid(origs, s)
    requires forall i, k :: 0 <= i < |s.inferiors| && 0 <= k < |s.inferiors[i].swBreaks| && s.inferiors[i].enabled ==>
               s.inferiors[i].swBreaks[k].addr == 0
    ensures s.machine.spaces == origs
  {
    forall v | v in s.machine.spaces ensures s.machine.spaces[v] == origs[v] {
      if !Unowned(s.inferiors, v) {
        var i :| 0 <= i < |s.inferiors| && s.inferiors[i].enabled && s.inferiors[i].vspace == v;
        SW.EmptyOverlay(origs[v], PatchedBy(s.machine.spaces, s.inferiors[i]));
      }
    }
  }
}

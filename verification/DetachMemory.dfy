/**
 What handle_detach (src/gdb.c) leaves in the memories of all inferiors together.
 */
module DetachMemory {
  import opened Memory
  import opened Debugger
  import SW = SoftwareBreakpoints

  /** Enabled inferiors have a vspace the kernel knows, each its own. */
  ghost predicate OwnSpaces(spaces: Spaces, infs: seq<Inferior>) {
    && (forall i :: 0 <= i < |infs| && infs[i].enabled ==> infs[i].vspace in spaces)
    && forall i, k ::
         0 <= i < k < |infs| && infs[i].enabled && infs[k].enabled ==> infs[i].vspace != infs[k].vspace
  }

  /** Memory of no inferior passed is left alone. */
  lemma {:induction false} DetachOthers(spaces: Spaces, infs: seq<Inferior>, n: nat, v: nat)
    requires n <= |infs| && ValidSpaces(spaces) && v in spaces
    requires forall i :: 0 <= i < n && infs[i].enabled ==> infs[i].vspace != v
    ensures v in DetachSpaces(spaces, infs, n) && DetachSpaces(spaces, infs, n)[v] == spaces[v]
  {
    if n > 0 {
      DetachOthers(spaces, infs, n - 1, v);
    }
  }

  /** Inferior by inferior the memory is what the loop over that inferior's own table
      makes of it. */
  lemma {:induction false} DetachEach(spaces: Spaces, infs: seq<Inferior>, n: nat, i: nat)
    requires i < n <= |infs| && ValidSpaces(spaces) && OwnSpaces(spaces, infs) && infs[i].enabled
    ensures infs[i].vspace in DetachSpaces(spaces, infs, n)
    ensures DetachSpaces(spaces, infs, n)[infs[i].vspace] == SW.DetachFrom(PatchedBy(spaces, infs[i]), 0).vs
  {
    if i == n - 1 {
      DetachOthers(spaces, infs, n - 1, infs[i].vspace);
      assert PatchedBy(DetachSpaces(spaces, infs, n - 1), infs[i]) == PatchedBy(spaces, infs[i]);
    } else {
      DetachEach(spaces, infs, n - 1, i);
    }
  }

  /** Every inferior's memory is its original one under its tabled breakpoints. */
  ghost predicate AllPatched(origs: Spaces, spaces: Spaces, infs: seq<Inferior>)
    requires OwnSpaces(spaces, infs)
  {
    forall i :: 0 <= i < |infs| && infs[i].enabled ==>
      infs[i].vspace in origs && SW.Inv(origs[infs[i].vspace], PatchedBy(spaces, infs[i]))
  }

  /** Detaching gives every inferior its original memory back, where nothing can be
      written at address 0... */
  lemma DetachRestoresAll(origs: Spaces, s: State)
    requires ValidSpaces(s.machine.spaces) && OwnSpaces(s.machine.spaces, s.inferiors)
    requires AllPatched(origs, s.machine.spaces, s.inferiors)
    requires forall i :: 0 <= i < |s.inferiors| && s.inferiors[i].enabled ==>
               0 !in s.machine.spaces[s.inferiors[i].vspace].writable
    ensures forall i :: 0 <= i < |s.inferiors| && s.inferiors[i].enabled ==>
              var v := s.inferiors[i].vspace;
              v in Detach(s).machine.spaces && Detach(s).machine.spaces[v] == origs[v]
  {
    var spaces := s.machine.spaces;
    forall i | 0 <= i < |s.inferiors| && s.inferiors[i].enabled
      ensures var v := s.inferiors[i].vspace;
              v in Detach(s).machine.spaces && Detach(s).machine.spaces[v] == origs[v]
    {
      DetachEach(spaces, s.inferiors, |s.inferiors|, i);
      SW.DetachRestores(origs[s.inferiors[i].vspace], PatchedBy(spaces, s.inferiors[i]), 0);
    }
  }

  /** ...and where something can, exactly if that inferior's table is full or its entry 0
      holds the word at address 0. */
  lemma DetachRestoresEachExactly(origs: Spaces, s: State, i: nat)
    requires ValidSpaces(s.machine.spaces) && OwnSpaces(s.machine.spaces, s.inferiors)
    requires AllPatched(origs, s.machine.spaces, s.inferiors)
    requires i < |s.inferiors| && s.inferiors[i].enabled && SW.AboveFirstWord(s.inferiors[i].swBreaks)
    requires 0 in s.machine.spaces[s.inferiors[i].vspace].writable
    ensures var inf := s.inferiors[i];
            && inf.vspace in Detach(s).machine.spaces && HasWord(origs[inf.vspace].bytes, 0)
            && (Detach(s).machine.spaces[inf.vspace] == origs[inf.vspace] <==>
                  || (forall k :: 0 <= k < |inf.swBreaks| ==> inf.swBreaks[k].addr != 0)
                  || inf.swBreaks[0].word == LoadWord(origs[inf.vspace].bytes, 0))
  {
    var spaces := s.machine.spaces;
    DetachEach(spaces, s.inferiors, |s.inferiors|, i);
    SW.DetachRestoresExactly(origs[s.inferiors[i].vspace], PatchedBy(spaces, s.inferiors[i]));
  }
}

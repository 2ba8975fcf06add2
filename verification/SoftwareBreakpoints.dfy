/**
 Software breakpoints (src/arch/arm/64/gdb.c): BRK instructions patched into the
 inferior's memory, with the overwritten words kept in a table.
 */
module SoftwareBreakpoints {
  import opened Words
  import opened Memory

  /** A table entry; address 0 marks it free. */
  datatype SwBreak = SwBreak(addr: nat, word: Word)

  /** The memory of an inferior together with its breakpoint table. */
  datatype Patched = Patched(vs: VSpace, table: seq<SwBreak>)

  datatype Outcome = Outcome(ok: bool, state: Patched)

  /** The first entry with address `a`, or the table's length. */
  function FirstAt(table: seq<SwBreak>, a: nat): (n: nat)
    ensures n <= |table|
    ensures n < |table| ==> table[n].addr == a
    ensures forall k :: 0 <= k < n ==> table[k].addr != a
  {
    if table == [] || table[0].addr == a then 0 else 1 + FirstAt(table[1..], a)
  }

  function Free(table: seq<SwBreak>, n: nat): seq<SwBreak>
    requires n < |table|
  {
    table[n := table[n].(addr := 0)]
  }

  function SetBreak(p: Patched, a: nat): (r: Outcome)
    requires p.vs.Valid()
    ensures r.state.vs.Valid() && |r.state.table| == |p.table|
  {
    match p.vs.Read(a)
    case None => Outcome(false, p)
    case Some(w) =>
      match p.vs.Write(a, WithBreak(w))
      case None => Outcome(false, p)
      case Some(vs) =>
        var n := FirstAt(p.table, 0);
        if n < |p.table| then
          Outcome(true, Patched(vs, p.table[n := SwBreak(a, w)]))
        else
          Outcome(false, Patched(vs.Write(a, w).value, p.table))
  }

  function UnsetBreak(p: Patched, a: nat): (r: Outcome)
    requires p.vs.Valid()
    ensures r.state.vs.Valid() && |r.state.table| == |p.table|
  {
    var n := FirstAt(p.table, a);
    if n == |p.table| then Outcome(true, p) else
    match p.vs.Write(a, p.table[n].word)
    case None => Outcome(false, p)
    case Some(vs) => Outcome(true, Patched(vs, Free(p.table, n)))
  }

  /** The first loop of handle_detach, from entry `i` on. */
  function DetachFrom(p: Patched, i: nat): (r: Patched)
    requires p.vs.Valid() && i <= |p.table|
    ensures r.vs.Valid() && |r.table| == |p.table|
    decreases |p.table| - i
  {
    if i == |p.table| then p else DetachFrom(UnsetBreak(p, p.table[i].addr).state, i + 1)
  }

  // ---------------------------------------------------------------------------
  // The overlay

  predicate Active(table: seq<SwBreak>, i: int) {
    0 <= i < |table| && table[i].addr != 0
  }

  ghost predicate Covered(table: seq<SwBreak>, x: nat) {
    exists i :: Active(table, i) && table[i].addr <= x < table[i].addr + 4
  }

  /** The word at `a` starts with the BRK instruction. */
  predicate HasBreak(m: map<nat, byte>, a: nat) {
    HasWord(m, a) && LoadWord(m, a) == WithBreak(LoadWord(m, a))
  }

  /** `cur` is `orig` with the BRK instruction over the low four bytes at every
      active entry, and nothing else changed: this determines `cur`. */
  ghost predicate Overlay(orig: VSpace, cur: VSpace, table: seq<SwBreak>) {
    && cur.bytes.Keys == orig.bytes.Keys
    && cur.readable == orig.readable && cur.writable == orig.writable
    && (forall i {:trigger HasBreak(cur.bytes, table[i].addr)} :: Active(table, i) ==>
        HasBreak(cur.bytes, table[i].addr))
    && (forall x {:trigger Covered(table, x)} :: x in orig.bytes && !Covered(table, x) ==>
        cur.bytes[x] == orig.bytes[x])
  }

  /** Every active entry remembers the original word at its address. */
  ghost predicate Remembered(orig: VSpace, table: seq<SwBreak>) {
    forall i :: Active(table, i) ==>
      && table[i].addr in orig.readable && table[i].addr in orig.writable
      && HasWord(orig.bytes, table[i].addr)
      && table[i].word == LoadWord(orig.bytes, table[i].addr)
  }

  ghost predicate Apart(table: seq<SwBreak>, distance: nat) {
    forall i, j :: Active(table, i) && Active(table, j) && i != j ==>
      table[i].addr + distance <= table[j].addr || table[j].addr + distance <= table[i].addr
  }

  ghost predicate Inv(orig: VSpace, p: Patched) {
    && orig.Valid() && p.vs.Valid()
    && Overlay(orig, p.vs, p.table)
    && Remembered(orig, p.table)
    && Apart(p.table, 8)
  }

  /** With no active entry the overlay is the original memory. */
  lemma EmptyOverlay(orig: VSpace, p: Patched)
    requires Overlay(orig, p.vs, p.table)
    requires forall i :: !Active(p.table, i)
    ensures p.vs == orig
  {
    forall x | x in orig.bytes ensures p.vs.bytes[x] == orig.bytes[x] {
      assert !Covered(p.table, x);
    }
    assert p.vs.bytes == orig.bytes;
  }

  /** Entry `n` covers its four bytes and changes nothing about the others. */
  lemma CoveredByEntry(table: seq<SwBreak>, n: nat, x: nat)
    requires Active(table, n)
    ensures Covered(table, x) <==>
            table[n].addr <= x < table[n].addr + 4 || Covered(Free(table, n), x)
  {
    var freed := Free(table, n);
    if Covered(table, x) {
      var i :| Active(table, i) && table[i].addr <= x < table[i].addr + 4;
      assert i != n ==> Active(freed, i);
    }
    if Covered(freed, x) {
      var i :| Active(freed, i) && freed[i].addr <= x < freed[i].addr + 4;
      assert Active(table, i);
    }
  }

  lemma CoveredBySame(table: seq<SwBreak>, table': seq<SwBreak>, x: nat)
    requires |table| == |table'|
    requires forall i :: 0 <= i < |table| ==> table[i].addr == table'[i].addr
    ensures Covered(table, x) == Covered(table', x)
  {
  }

  /** No other entry reaches into the word at entry `n`. */
  lemma WordUntouched(table: seq<SwBreak>, n: nat, x: nat)
    requires Apart(table, 8) && Active(table, n) && table[n].addr <= x < table[n].addr + 8
    ensures !Covered(Free(table, n), x)
  {
  }

  /** Setting a breakpoint keeps the overlay, whether the call succeeds, the word
      is inaccessible or the table is full. */
  lemma SetBreakKeeps(orig: VSpace, p: Patched, a: nat)
    requires Inv(orig, p) && a != 0
    requires Apart(SetBreak(p, a).state.table, 8)
    ensures Inv(orig, SetBreak(p, a).state)
    ensures !SetBreak(p, a).ok ==> SetBreak(p, a).state == p
  {
    if a in p.vs.readable && a in p.vs.writable {
      var w := LoadWord(p.vs.bytes, a);
      WriteBack(p.vs.bytes, a, WithBreak(w));
      var n := FirstAt(p.table, 0);
      if n < |p.table| {
        var table := p.table[n := SwBreak(a, w)];
        assert Active(table, n);
        forall x | a <= x < a + 8 ensures p.vs.bytes[x] == orig.bytes[x] {
          WordUntouched(table, n, x);
          CoveredBySame(p.table, Free(table, n), x);
        }
        assert w == LoadWord(orig.bytes, a);
        forall i | Active(table, i) && i != n ensures Active(p.table, i) && table[i] == p.table[i] {}
        SetBreakOverlay(orig, p, a, n);
      }
    }
  }

  lemma SetBreakOverlay(orig: VSpace, p: Patched, a: nat, n: nat)
    requires Overlay(orig, p.vs, p.table) && a != 0
    requires HasWord(p.vs.bytes, a)
    requires n < |p.table| && p.table[n].addr == 0
    requires Apart(p.table[n := SwBreak(a, LoadWord(p.vs.bytes, a))], 8)
    ensures var w := LoadWord(p.vs.bytes, a);
            Overlay(orig, p.vs.(bytes := StoreWord(p.vs.bytes, a, WithBreak(w))), p.table[n := SwBreak(a, w)])
  {
    var w := LoadWord(p.vs.bytes, a);
    var table := p.table[n := SwBreak(a, w)];
    var bytes := StoreWord(p.vs.bytes, a, WithBreak(w));
    assert Active(table, n);
    forall i | Active(table, i) ensures HasBreak(bytes, table[i].addr) {
      if i != n {
        assert Active(p.table, i) && HasBreak(p.vs.bytes, p.table[i].addr);
      }
    }
    forall x | x in orig.bytes && !Covered(table, x) ensures bytes[x] == orig.bytes[x] {
      CoveredByEntry(table, n, x);
      CoveredBySame(p.table, Free(table, n), x);
    }
  }

  /** Unsetting an address (tabled or not) keeps the overlay. */
  lemma UnsetBreakKeeps(orig: VSpace, p: Patched, a: nat)
    requires Inv(orig, p)
    requires a != 0 || 0 !in p.vs.writable
    ensures Inv(orig, UnsetBreak(p, a).state)
    ensures a != 0 ==> UnsetBreak(p, a).ok && FirstAt(UnsetBreak(p, a).state.table, a) == |p.table|
  {
    var n := FirstAt(p.table, a);
    if n < |p.table| && a != 0 {
      assert Active(p.table, n);
      var table := Free(p.table, n);
      forall i | Active(table, i) ensures Active(p.table, i) && table[i] == p.table[i] && i != n {}
      UnsetBreakOverlay(orig, p, n);
      forall k | 0 <= k < |table| ensures table[k].addr != a {
        assert k != n ==> Active(p.table, k) || p.table[k].addr == 0;
      }
    }
  }

  lemma UnsetBreakOverlay(orig: VSpace, p: Patched, n: nat)
    requires Overlay(orig, p.vs, p.table) && Active(p.table, n) && Apart(p.table, 8)
    requires HasWord(orig.bytes, p.table[n].addr) && p.table[n].word == LoadWord(orig.bytes, p.table[n].addr)
    ensures Overlay(orig, p.vs.(bytes := StoreWord(p.vs.bytes, p.table[n].addr, p.table[n].word)),
                    Free(p.table, n))
  {
    var a := p.table[n].addr;
    var table := Free(p.table, n);
    var bytes := StoreWord(p.vs.bytes, a, p.table[n].word);
    forall i | Active(table, i) ensures HasBreak(bytes, table[i].addr) {
      assert Active(p.table, i) && i != n && HasBreak(p.vs.bytes, p.table[i].addr);
    }
    forall x | x in orig.bytes && !Covered(table, x) ensures bytes[x] == orig.bytes[x] {
      CoveredByEntry(p.table, n, x);
    }
  }

  // ---------------------------------------------------------------------------
  // Runs

  datatype Op = Set(addr: nat) | Unset(addr: nat)

  function Step(p: Patched, op: Op): (r: Patched)
    requires p.vs.Valid()
    ensures r.vs.Valid() && |r.table| == |p.table|
  {
    match op
    case Set(a) => SetBreak(p, a).state
    case Unset(a) => UnsetBreak(p, a).state
  }

  function Run(p: Patched, ops: seq<Op>): (r: Patched)
    requires p.vs.Valid()
    ensures r.vs.Valid() && |r.table| == |p.table|
    decreases ops
  {
    if ops == [] then p else Run(Step(p, ops[0]), ops[1..])
  }

  /** Every state of the run has its active entries at least a word apart. */
  ghost predicate StaysApart(p: Patched, ops: seq<Op>)
    requires p.vs.Valid()
    decreases ops
  {
    Apart(p.table, 8) && (ops != [] ==> StaysApart(Step(p, ops[0]), ops[1..]))
  }

  lemma {:induction false} RunKeeps(orig: VSpace, p: Patched, ops: seq<Op>)
    requires Inv(orig, p) && StaysApart(p, ops)
    requires forall k :: 0 <= k < |ops| ==> ops[k].addr != 0
    ensures Inv(orig, Run(p, ops))
    decreases ops
  {
    if ops != [] {
      assert ops[0].addr != 0;
      match ops[0] {
        case Set(a) => SetBreakKeeps(orig, p, a);
        case Unset(a) => UnsetBreakKeeps(orig, p, a);
      }
      RunKeeps(orig, Step(p, ops[0]), ops[1..]);
    }
  }

  /** Over every sequence of set and unset calls, failing ones included, memory is
      the original one overlaid with the tabled breakpoints; and with none tabled
      it is the original one, byte for byte. */
  lemma OverlayOverRuns(orig: VSpace, free: seq<SwBreak>, ops: seq<Op>)
    requires orig.Valid() && forall k :: 0 <= k < |free| ==> free[k].addr == 0
    requires forall k :: 0 <= k < |ops| ==> ops[k].addr != 0
    requires StaysApart(Patched(orig, free), ops)
    ensures var r := Run(Patched(orig, free), ops);
            && Overlay(orig, r.vs, r.table)
            && Remembered(orig, r.table)
            && ((forall i :: !Active(r.table, i)) ==> r.vs == orig)
  {
    RunKeeps(orig, Patched(orig, free), ops);
    var r := Run(Patched(orig, free), ops);
    if forall i :: !Active(r.table, i) {
      EmptyOverlay(orig, r);
    }
  }

  // ---------------------------------------------------------------------------
  // Detach

  /** Where nothing can be written at address 0, detaching restores memory. */
  lemma {:induction false} DetachRestores(orig: VSpace, p: Patched, i: nat)
    requires Inv(orig, p) && i <= |p.table|
    requires 0 !in p.vs.writable
    requires forall k :: 0 <= k < i ==> p.table[k].addr == 0
    ensures DetachFrom(p, i).vs == orig
    decreases |p.table| - i
  {
    if i == |p.table| {
      EmptyOverlay(orig, p);
    } else {
      var a := p.table[i].addr;
      UnsetBreakKeeps(orig, p, a);
      var q := UnsetBreak(p, a).state;
      assert q.table[i].addr == 0 by {
        if a != 0 { assert FirstAt(q.table, a) == |q.table|; }
      }
      DetachRestores(orig, q, i + 1);
    }
  }

  function WithFirstWord(v: VSpace, on: bool, w: Word): VSpace
    requires HasWord(v.bytes, 0)
  {
    if on then v.(bytes := StoreWord(v.bytes, 0, w)) else v
  }

  ghost predicate AboveFirstWord(table: seq<SwBreak>) {
    forall i :: Active(table, i) ==> 8 <= table[i].addr
  }

  function StaleWord(table: seq<SwBreak>): Word {
    if |table| > 0 then table[0].word else ZERO_WORD
  }

  predicate FreeFrom(table: seq<SwBreak>, i: nat) {
    exists k :: i <= k < |table| && table[k].addr == 0
  }

  /** Visiting a free entry writes the stale word of entry 0 to address 0. */
  lemma StaleWrite(orig: VSpace, p: Patched, i: nat)
    requires Inv(orig, p) && AboveFirstWord(p.table) && 0 in p.vs.writable
    requires HasWord(orig.bytes, 0)
    requires i < |p.table| && forall k :: 0 <= k <= i ==> p.table[k].addr == 0
    ensures UnsetBreak(p, 0).state.table == p.table
    ensures Inv(WithFirstWord(orig, true, StaleWord(p.table)), UnsetBreak(p, 0).state)
  {
    assert FirstAt(p.table, 0) == 0;
    assert Free(p.table, 0) == p.table;
    var base := WithFirstWord(orig, true, StaleWord(p.table));
    var q := UnsetBreak(p, 0).state;
    assert base.Valid();
    forall k | Active(p.table, k) ensures HasBreak(q.vs.bytes, p.table[k].addr) {
      assert HasBreak(p.vs.bytes, p.table[k].addr);
    }
    forall x | x in orig.bytes && !Covered(p.table, x) ensures q.vs.bytes[x] == base.bytes[x] {
      assert p.vs.bytes[x] == orig.bytes[x];
      assert 8 <= x || x == 0 || x == 1 || x == 2 || x == 3 || x == 4 || x == 5 || x == 6 || x == 7;
    }
    assert Overlay(base, q.vs, p.table);
  }

  lemma FirstWordTwice(v: VSpace, on: bool, w: Word)
    requires HasWord(v.bytes, 0)
    ensures WithFirstWord(WithFirstWord(v, on, w), true, w) == WithFirstWord(v, true, w)
  {
  }

  /** Part way through the loop, the memory being that of `orig` with `w` at address 0 if
      a free entry has been visited. */
  ghost predicate Detaching(orig: VSpace, on: bool, w: Word, p: Patched, i: nat) {
    && i <= |p.table| && HasWord(orig.bytes, 0)
    && Inv(WithFirstWord(orig, on, w), p) && w == StaleWord(p.table)
    && AboveFirstWord(p.table) && 0 in p.vs.writable
    && forall k :: 0 <= k < i ==> p.table[k].addr == 0
  }

  lemma {:induction false} DetachWithZeroMapped(orig: VSpace, on: bool, w: Word, p: Patched, i: nat)
    requires Detaching(orig, on, w, p, i)
    ensures DetachFrom(p, i).vs == WithFirstWord(orig, on || FreeFrom(p.table, i), w)
    decreases |p.table| - i
  {
    if i == |p.table| {
      DetachEnds(orig, on, w, p);
    } else if p.table[i].addr == 0 {
      var q := DetachFree(orig, on, w, p, i);
      DetachWithZeroMapped(orig, true, w, q, i + 1);
    } else {
      var q := DetachNext(orig, on, w, p, i);
      DetachWithZeroMapped(orig, on, w, q, i + 1);
    }
  }

  lemma DetachEnds(orig: VSpace, on: bool, w: Word, p: Patched)
    requires Detaching(orig, on, w, p, |p.table|)
    ensures DetachFrom(p, |p.table|).vs == WithFirstWord(orig, on, w) && !FreeFrom(p.table, |p.table|)
  {
    EmptyOverlay(WithFirstWord(orig, on, w), p);
  }

  /** Visiting an active entry: only its own four bytes change. */
  lemma DetachNext(orig: VSpace, on: bool, w: Word, p: Patched, i: nat) returns (q: Patched)
    requires Detaching(orig, on, w, p, i) && Active(p.table, i)
    ensures |q.table| == |p.table| && Detaching(orig, on, w, q, i + 1)
    ensures DetachFrom(p, i) == DetachFrom(q, i + 1) && FreeFrom(q.table, i + 1) == FreeFrom(p.table, i)
  {
    q := DetachActive(WithFirstWord(orig, on, w), p, i);
  }

  /** Visiting a free entry leaves the tables alone and the stale word at address 0. */
  lemma DetachFree(orig: VSpace, on: bool, w: Word, p: Patched, i: nat) returns (q: Patched)
    requires i < |p.table| && Detaching(orig, on, w, p, i) && p.table[i].addr == 0
    ensures |q.table| == |p.table| && Detaching(orig, true, w, q, i + 1)
    ensures DetachFrom(p, i) == DetachFrom(q, i + 1) && FreeFrom(p.table, i)
  {
    q := UnsetBreak(p, 0).state;
    StaleWrite(WithFirstWord(orig, on, w), p, i);
    FirstWordTwice(orig, on, w);
  }

  /** Visiting an active entry removes that very entry. */
  lemma DetachActive(base: VSpace, p: Patched, i: nat) returns (q: Patched)
    requires Inv(base, p) && AboveFirstWord(p.table)
    requires Active(p.table, i) && forall k :: 0 <= k < i ==> p.table[k].addr == 0
    ensures q == UnsetBreak(p, p.table[i].addr).state
    ensures && Inv(base, q) && AboveFirstWord(q.table) && q.vs.writable == p.vs.writable
            && (forall k :: 0 <= k <= i ==> q.table[k].addr == 0)
            && StaleWord(q.table) == StaleWord(p.table)
            && FreeFrom(q.table, i + 1) == FreeFrom(p.table, i)
  {
    var a := p.table[i].addr;
    q := UnsetBreak(p, a).state;
    UnsetBreakKeeps(base, p, a);
    ActiveIsFirst(p.table, i);
    var table := Free(p.table, i);
    assert q.table == table;
    forall k | Active(table, k) ensures Active(p.table, k) {}
    if k :| i <= k < |p.table| && p.table[k].addr == 0 {
      assert i + 1 <= k && table[k].addr == 0;
    }
    if k :| i + 1 <= k < |table| && table[k].addr == 0 {
      assert p.table[k].addr == 0;
    }
  }

  lemma ActiveIsFirst(table: seq<SwBreak>, i: nat)
    requires Active(table, i) && forall k :: 0 <= k < i ==> table[k].addr == 0
    ensures FirstAt(table, table[i].addr) == i
  {
  }

  /** Where address 0 is writable and no breakpoint overlaps it, detaching restores
      memory exactly when no entry is free, or the word left in entry 0 happens to
      be the one at address 0. */
  lemma DetachRestoresExactly(orig: VSpace, p: Patched)
    requires Inv(orig, p) && AboveFirstWord(p.table) && 0 in p.vs.writable
    ensures DetachFrom(p, 0).vs == orig <==>
            || (forall k :: 0 <= k < |p.table| ==> p.table[k].addr != 0)
            || p.table[0].word == LoadWord(orig.bytes, 0)
  {
    DetachWithZeroMapped(orig, false, StaleWord(p.table), p, 0);
    StoreWordIsIdentity(orig.bytes, StaleWord(p.table));
  }

  lemma StoreWordIsIdentity(m: map<nat, byte>, w: Word)
    requires HasWord(m, 0)
    ensures StoreWord(m, 0, w) == m <==> w == LoadWord(m, 0)
  {
  }

  // ---------------------------------------------------------------------------
  // Breakpoints on adjacent instructions

  function HighHalf(w: Word): (byte, byte, byte, byte) { (w.b4, w.b5, w.b6, w.b7) }

  function LowHalf(w: Word): (byte, byte, byte, byte) { (w.b0, w.b1, w.b2, w.b3) }

  /** Removing a breakpoint keeps the overlay of the others exactly when the half
      word above the instruction is still the one saved when it was set. */
  lemma UnsetAdjacentExactly(orig: VSpace, p: Patched, a: nat)
    requires orig.Valid() && p.vs.Valid()
    requires Overlay(orig, p.vs, p.table) && Apart(p.table, 4)
    requires a != 0 && a in p.vs.writable && FirstAt(p.table, a) < |p.table|
    requires LowHalf(p.table[FirstAt(p.table, a)].word) == LowHalf(LoadWord(orig.bytes, a))
    ensures var q := UnsetBreak(p, a).state;
            Overlay(orig, q.vs, q.table) <==>
            HighHalf(p.table[FirstAt(p.table, a)].word) == HighHalf(LoadWord(p.vs.bytes, a))
  {
    var n := FirstAt(p.table, a);
    var q := UnsetBreak(p, a).state;
    assert Active(p.table, n);
    if Overlay(orig, q.vs, q.table) {
      forall x | a + 4 <= x < a + 8 ensures q.vs.bytes[x] == p.vs.bytes[x] {
        SameOverlay(orig, p.vs, p.table, q.vs, n, x);
      }
      assert LoadWord(q.vs.bytes, a) == p.table[n].word;
    }
    if HighHalf(p.table[n].word) == HighHalf(LoadWord(p.vs.bytes, a)) {
      forall x | x in p.vs.bytes && !(a <= x < a + 4) ensures q.vs.bytes[x] == p.vs.bytes[x] {
        assert !(a <= x < a + 8) || x == a + 4 || x == a + 5 || x == a + 6 || x == a + 7;
      }
      RemoveOverlay(orig, p.vs, p.table, q.vs, n);
    }
  }

  /** Restoring just the four bytes of entry `n` gives the overlay without it. */
  lemma RemoveOverlay(orig: VSpace, cur: VSpace, table: seq<SwBreak>, cur': VSpace, n: nat)
    requires Active(table, n) && Apart(table, 4) && Overlay(orig, cur, table)
    requires cur'.bytes.Keys == cur.bytes.Keys && cur'.readable == cur.readable && cur'.writable == cur.writable
    requires HasWord(orig.bytes, table[n].addr)
    requires LowHalf(LoadWord(cur'.bytes, table[n].addr)) == LowHalf(LoadWord(orig.bytes, table[n].addr))
    requires forall x :: x in cur.bytes && !(table[n].addr <= x < table[n].addr + 4) ==> cur'.bytes[x] == cur.bytes[x]
    ensures Overlay(orig, cur', Free(table, n))
  {
    var a := table[n].addr;
    var freed := Free(table, n);
    forall i | Active(freed, i) ensures HasBreak(cur'.bytes, freed[i].addr) {
      assert Active(table, i) && i != n && HasBreak(cur.bytes, table[i].addr);
    }
    forall x | x in orig.bytes && !Covered(freed, x) ensures cur'.bytes[x] == orig.bytes[x] {
      CoveredByEntry(table, n, x);
      assert !(a <= x < a + 4) || x == a || x == a + 1 || x == a + 2 || x == a + 3;
    }
  }

  /** Off the four bytes of entry `n`, the overlays with and without it agree. */
  lemma SameOverlay(orig: VSpace, cur: VSpace, table: seq<SwBreak>, cur': VSpace, n: nat, x: nat)
    requires Active(table, n)
    requires Overlay(orig, cur, table) && Overlay(orig, cur', Free(table, n))
    requires x in orig.bytes && !(table[n].addr <= x < table[n].addr + 4)
    ensures cur.bytes[x] == cur'.bytes[x]
  {
    CoveredByEntry(table, n, x);
    var freed := Free(table, n);
    if Covered(freed, x) {
      var i :| Active(freed, i) && freed[i].addr <= x < freed[i].addr + 4;
      assert Active(table, i) && table[i] == freed[i];
      var a := table[i].addr;
      assert HasBreak(cur.bytes, a) && HasBreak(cur'.bytes, a);
      assert x == a || x == a + 1 || x == a + 2 || x == a + 3;
    }
  }

  /** Breakpoints on two adjacent instructions, the lower one cleared first: the
      upper one is still in the table, but memory holds the original bytes. */
  lemma AdjacentBreakpointLost(v: VSpace, a: nat)
    requires v.Valid() && a != 0
    requires {a, a + 4} <= v.readable && {a, a + 4} <= v.writable
    ensures var free := [SwBreak(0, ZERO_WORD), SwBreak(0, ZERO_WORD)];
            var r := Run(Patched(v, free), [Set(a), Set(a + 4), Unset(a)]);
            && Active(r.table, 1) && r.table[1].addr == a + 4
            && r.vs == v
  {
    var p0 := Patched(v, [SwBreak(0, ZERO_WORD), SwBreak(0, ZERO_WORD)]);
    var p2 := AdjacentSet(v, a);
    UnsetFirst(v, p2, a);
    RunThree(p0, [Set(a), Set(a + 4), Unset(a)]);
  }

  lemma AdjacentSet(v: VSpace, a: nat) returns (q: Patched)
    requires v.Valid() && a != 0
    requires {a, a + 4} <= v.readable && {a, a + 4} <= v.writable
    ensures var p0 := Patched(v, [SwBreak(0, ZERO_WORD), SwBreak(0, ZERO_WORD)]);
            q == SetBreak(SetBreak(p0, a).state, a + 4).state && q.vs.Valid()
    ensures |q.table| == 2 && q.table[0] == SwBreak(a, LoadWord(v.bytes, a)) && q.table[1].addr == a + 4
    ensures var w := WithBreak(LoadWord(v.bytes, a));
            var m := StoreWord(v.bytes, a, w);
            HasWord(m, a + 4) && q.vs == v.(bytes := StoreWord(m, a + 4, WithBreak(LoadWord(m, a + 4))))
  {
    var p0 := Patched(v, [SwBreak(0, ZERO_WORD), SwBreak(0, ZERO_WORD)]);
    var p1 := SetInTable(p0, a, 0);
    q := SetInTable(p1, a + 4, 1);
  }

  lemma UnsetFirst(v: VSpace, p: Patched, a: nat)
    requires v.Valid() && p.vs.Valid() && a != 0 && {a, a + 4} <= v.readable && {a, a + 4} <= v.writable
    requires |p.table| == 2 && p.table[0] == SwBreak(a, LoadWord(v.bytes, a)) && p.table[1].addr == a + 4
    requires var w := WithBreak(LoadWord(v.bytes, a));
             var m := StoreWord(v.bytes, a, w);
             HasWord(m, a + 4) && p.vs == v.(bytes := StoreWord(m, a + 4, WithBreak(LoadWord(m, a + 4))))
    ensures UnsetBreak(p, a).state.vs == v && UnsetBreak(p, a).state.table[1].addr == a + 4
  {
  }

  lemma RunThree(p: Patched, ops: seq<Op>)
    requires p.vs.Valid() && |ops| == 3
    ensures Run(p, ops) == Step(Step(Step(p, ops[0]), ops[1]), ops[2])
  {
    var p1 := Step(p, ops[0]);
    var p2 := Step(p1, ops[1]);
    assert ops[1..][1..] == [ops[2]] && [ops[2]][1..] == [];
    assert Run(p, ops) == Run(p1, ops[1..]);
    assert Run(p1, ops[1..]) == Run(p2, [ops[2]]);
    assert Run(p2, [ops[2]]) == Run(Step(p2, ops[2]), []);
  }

  /** Setting a breakpoint where entry `n` is the first free one. */
  lemma SetInTable(p: Patched, a: nat, n: nat) returns (q: Patched)
    requires p.vs.Valid() && a in p.vs.readable && a in p.vs.writable
    requires n < |p.table| && p.table[n].addr == 0 && forall k :: 0 <= k < n ==> p.table[k].addr != 0
    ensures q == SetBreak(p, a).state && q.vs.Valid()
    ensures var w := LoadWord(p.vs.bytes, a);
            && q.table == p.table[n := SwBreak(a, w)]
            && q.vs == p.vs.(bytes := StoreWord(p.vs.bytes, a, WithBreak(w)))
  {
    q := SetBreak(p, a).state;
    assert FirstAt(p.table, 0) == n;
  }
}

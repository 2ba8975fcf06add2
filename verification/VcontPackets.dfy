/**
 vCont packets as text, and what handle_vcont has done to the tables part way
 through one (src/gdb.c).
 */
module VcontPackets {
  import opened Options
  import opened Words
  import opened Chars
  import opened Kernel
  import opened Debugger
  import opened Hex
  import opened ThreadIds
  import opened IdDigits
  import opened Vcont

  const SEMICOLON: byte := 59
  const LETTER_S: byte := 115
  const LETTER_C: byte := 99
  // "vCont"
  const VCONT: seq<byte> := [118, 67, 111, 110, 116]
  // "-1"
  const MINUS_ONE: seq<byte> := [MINUS, DIGIT_1]

  // ---------------------------------------------------------------------------
  // Text

  datatype WireTarget = WireTarget(proc: seq<byte>, thread: seq<byte>)

  datatype WireAction = WireAction(step: bool, targets: seq<WireTarget>)

  function TargetText(t: WireTarget): seq<byte> {
    [COLON, LETTER_P] + t.proc + [DOT] + t.thread
  }

  function TargetsText(targets: seq<WireTarget>): seq<byte> {
    if targets == [] then [] else TargetText(targets[0]) + TargetsText(targets[1..])
  }

  function ActionText(a: WireAction): seq<byte> {
    [SEMICOLON, if a.step then LETTER_S else LETTER_C] + TargetsText(a.targets)
  }

  function ActionsText(actions: seq<WireAction>): seq<byte> {
    if actions == [] then [] else ActionText(actions[0]) + ActionsText(actions[1..])
  }

  /** As the library reads it: a registered process, and all its threads or a thread id
      within the table. */
  predicate ValidTarget(infs: seq<Inferior>, t: WireTarget)
    requires |infs| == MAX_PDS
  {
    && IsId(t.proc) && IdOf(t.proc) > 0
    && (var i := (IdOf(t.proc) - 1) % MAX_PDS; infs[i].enabled && infs[i].gdbId == IdOf(t.proc))
    && (t.thread == MINUS_ONE || (IsId(t.thread) && 1 <= IdOf(t.thread) <= MAX_THREADS))
  }

  /** Targets followed by `rest`; -1 only stands at the end of the packet. */
  predicate ValidTargets(infs: seq<Inferior>, targets: seq<WireTarget>, rest: seq<byte>)
    requires |infs| == MAX_PDS && rest != []
  {
    targets == [] ||
    (&& ValidTarget(infs, targets[0])
     && (targets[0].thread == MINUS_ONE ==> |targets| == 1 && rest[0] == NUL)
     && ValidTargets(infs, targets[1..], rest))
  }

  predicate ValidActions(infs: seq<Inferior>, actions: seq<WireAction>, tail: seq<byte>)
    requires |infs| == MAX_PDS && tail != []
  {
    actions == [] ||
    (&& actions[0].targets != []
     && ValidTargets(infs, actions[0].targets, ActionsText(actions[1..]) + tail)
     && ValidActions(infs, actions[1..], tail))
  }

  /** The packet ends, or goes on with an action that is neither a step nor a continue. */
  predicate ValidTail(tail: seq<byte>) {
    && tail != []
    && (tail[0] == NUL || (tail[0] == SEMICOLON && |tail| > 1 && tail[1] != LETTER_S && tail[1] != LETTER_C))
  }

  /** What the library takes a target for. */
  function TargetAsRead(t: WireTarget): Target
    requires t.proc != [] && t.thread != []
  {
    Target(IdOf(t.proc), if t.thread == MINUS_ONE then AllThreads else OneThread(IdOf(t.thread)))
  }

  function TargetsAsRead(infs: seq<Inferior>, targets: seq<WireTarget>, rest: seq<byte>): (r: seq<Target>)
    requires |infs| == MAX_PDS && rest != [] && ValidTargets(infs, targets, rest)
    ensures |r| == |targets|
  {
    if targets == [] then [] else [TargetAsRead(targets[0])] + TargetsAsRead(infs, targets[1..], rest)
  }

  function AsRead(infs: seq<Inferior>, actions: seq<WireAction>, tail: seq<byte>): (r: seq<Action>)
    requires |infs| == MAX_PDS && tail != [] && ValidActions(infs, actions, tail)
    ensures |r| == |actions|
  {
    if actions == [] then []
    else [Action(actions[0].step, TargetsAsRead(infs, actions[0].targets, ActionsText(actions[1..]) + tail))]
         + AsRead(infs, actions[1..], tail)
  }

  // ---------------------------------------------------------------------------
  // What a packet means

  /** The ids of a target by the protocol: hexadecimal numbers, most significant digit
      first. */
  function TargetMeaning(t: WireTarget): Target
    requires AllHex(t.proc) && (t.thread == MINUS_ONE || AllHex(t.thread))
  {
    Target(Number(t.proc), if t.thread == MINUS_ONE then AllThreads else OneThread(Number(t.thread)))
  }

  predicate HexIds(t: WireTarget) {
    IsId(t.proc) && (t.thread == MINUS_ONE || IsId(t.thread))
  }

  predicate HexTargets(targets: seq<WireTarget>) {
    forall k :: 0 <= k < |targets| ==> HexIds(targets[k])
  }

  predicate HexActions(actions: seq<WireAction>) {
    forall k :: 0 <= k < |actions| ==> HexTargets(actions[k].targets)
  }

  function Meaning(actions: seq<WireAction>): (r: seq<Action>)
    requires HexActions(actions)
    ensures |r| == |actions|
  {
    seq(|actions|, k requires 0 <= k < |actions| => ActionMeaning(actions[k]))
  }

  function ActionMeaning(a: WireAction): Action
    requires HexTargets(a.targets)
  {
    Action(a.step, seq(|a.targets|, k requires 0 <= k < |a.targets| => TargetMeaning(a.targets[k])))
  }

  /** All ids are of the kind the parser gets right. */
  predicate RightIds(actions: seq<WireAction>)
    requires HexActions(actions)
  {
    forall k :: 0 <= k < |actions| ==> RightTargets(actions[k].targets)
  }

  predicate RightTarget(t: WireTarget)
    requires HexIds(t)
  {
    RightId(t.proc) && (t.thread == MINUS_ONE || RightId(t.thread))
  }

  /** One target is taken for what it means exactly when its ids are read right. */
  lemma TargetReadRight(t: WireTarget)
    requires HexIds(t)
    ensures TargetAsRead(t) == TargetMeaning(t) <==> RightTarget(t)
  {
    IdIsNumber(t.proc);
    if t.thread != MINUS_ONE {
      IdIsNumber(t.thread);
    }
  }

  lemma {:induction false} TargetsAsReadAt(infs: seq<Inferior>, targets: seq<WireTarget>, rest: seq<byte>)
    requires |infs| == MAX_PDS && rest != [] && ValidTargets(infs, targets, rest)
    ensures HexTargets(targets)
    ensures forall k :: 0 <= k < |targets| ==> TargetsAsRead(infs, targets, rest)[k] == TargetAsRead(targets[k])
  {
    if targets != [] {
      TargetsAsReadAt(infs, targets[1..], rest);
      forall k | 0 <= k < |targets|
        ensures HexIds(targets[k]) && TargetsAsRead(infs, targets, rest)[k] == TargetAsRead(targets[k])
      {
        assert k > 0 ==> targets[1..][k - 1] == targets[k];
      }
    }
  }

  lemma {:induction false} AsReadAt(infs: seq<Inferior>, actions: seq<WireAction>, tail: seq<byte>, k: nat)
    requires |infs| == MAX_PDS && tail != [] && ValidActions(infs, actions, tail) && k < |actions|
    ensures HexTargets(actions[k].targets)
    ensures var a := AsRead(infs, actions, tail)[k];
            && a.step == actions[k].step && |a.targets| == |actions[k].targets|
            && forall l :: 0 <= l < |a.targets| ==> a.targets[l] == TargetAsRead(actions[k].targets[l])
  {
    if k == 0 {
      TargetsAsReadAt(infs, actions[0].targets, ActionsText(actions[1..]) + tail);
    } else {
      AsReadAt(infs, actions[1..], tail, k - 1);
      assert actions[1..][k - 1] == actions[k];
    }
  }

  /** The library takes a packet for what it means by the protocol exactly when it reads
      all its ids right. */
  lemma ReadRightExactly(infs: seq<Inferior>, actions: seq<WireAction>, tail: seq<byte>)
    requires |infs| == MAX_PDS && tail != [] && ValidActions(infs, actions, tail)
    ensures HexActions(actions)
    ensures AsRead(infs, actions, tail) == Meaning(actions) <==> RightIds(actions)
  {
    forall k | 0 <= k < |actions| ensures HexTargets(actions[k].targets) {
      AsReadAt(infs, actions, tail, k);
    }
    forall k | 0 <= k < |actions|
      ensures AsRead(infs, actions, tail)[k] == ActionMeaning(actions[k]) <==> RightTargets(actions[k].targets)
    {
      AsReadAt(infs, actions, tail, k);
      ActionReadRight(AsRead(infs, actions, tail)[k], actions[k]);
    }
    if AsRead(infs, actions, tail) == Meaning(actions) {
      forall k | 0 <= k < |actions| ensures RightTargets(actions[k].targets) {
        assert Meaning(actions)[k] == ActionMeaning(actions[k]);
      }
    }
  }

  predicate RightTargets(targets: seq<WireTarget>)
    requires HexTargets(targets)
  {
    forall l :: 0 <= l < |targets| ==> RightTarget(targets[l])
  }

  lemma ActionReadRight(a: Action, w: WireAction)
    requires HexTargets(w.targets) && a.step == w.step && |a.targets| == |w.targets|
    requires forall l :: 0 <= l < |a.targets| ==> a.targets[l] == TargetAsRead(w.targets[l])
    ensures a == ActionMeaning(w) <==> RightTargets(w.targets)
  {
    forall l | 0 <= l < |w.targets| ensures a.targets[l] == TargetMeaning(w.targets[l]) <==> RightTarget(w.targets[l]) {
      TargetReadRight(w.targets[l]);
    }
    if a == ActionMeaning(w) {
      forall l | 0 <= l < |w.targets| ensures RightTarget(w.targets[l]) {
        assert a.targets[l] == ActionMeaning(w).targets[l];
      }
    }
    if RightTargets(w.targets) {
      assert a.targets == ActionMeaning(w).targets;
    }
  }

  /** A step of thread 256 of process 1 is taken for a step of its thread 16: that thread
      is stepped and woken, and the one meant is not. */
  lemma Thread256Misread(s: State, nb: nat, nw: nat)
    requires Inv(s, nb, nw) && s.inferiors[0].enabled && s.inferiors[0].gdbId == 1
    requires Live(s.inferiors, 0, 15) && Live(s.inferiors, 0, 255)
    ensures var packet := [WireAction(true, [WireTarget([DIGIT_1], [DIGIT_1, ZERO_DIGIT, ZERO_DIGIT])])];
            && ValidActions(s.inferiors, packet, [NUL]) && HexActions(packet) && !RightIds(packet)
            && Meaning(packet) == [Action(true, [Target(1, OneThread(256))])]
            && AsRead(s.inferiors, packet, [NUL]) == [Action(true, [Target(1, OneThread(16))])]
            && var r := Apply(s, AsRead(s.inferiors, packet, [NUL]));
            && Live(r.inferiors, 0, 15) && Live(r.inferiors, 0, 255)
            && TcbAt(r.inferiors, 0, 15) in r.machine.tcbs && r.machine.tcbs[TcbAt(r.inferiors, 0, 15)].stepping
            && r.inferiors[0].threads[15].wakeup && !r.inferiors[0].threads[255].wakeup
  {
    var t := WireTarget([DIGIT_1], [DIGIT_1, ZERO_DIGIT, ZERO_DIGIT]);
    var packet := [WireAction(true, [t])];
    Thread256Target(t);
    OneStep(s.inferiors, t);
    var read := [Action(true, [Target(1, OneThread(16))])];
    Thread16Only(read);
    ApplyThread(s, read, 0, 15);
    ApplyKeeps(s, read, nb, nw);
  }

  lemma Thread256Target(t: WireTarget)
    requires t == WireTarget([DIGIT_1], [DIGIT_1, ZERO_DIGIT, ZERO_DIGIT])
    ensures HexIds(t) && t.thread != MINUS_ONE && IdOf(t.proc) == 1 && IdOf(t.thread) == 16
    ensures TargetAsRead(t) == Target(1, OneThread(16)) && TargetMeaning(t) == Target(1, OneThread(256))
    ensures !RightTarget(t)
  {
    Thread256();
    NumberOfOne(DIGIT_1);
    IdIsNumber(t.proc);
    TargetReadRight(t);
  }

  /** A packet of one step of one target, which its text ends with. */
  lemma OneStep(infs: seq<Inferior>, t: WireTarget)
    requires |infs| == MAX_PDS && ValidTarget(infs, t) && t.thread != MINUS_ONE
    ensures var packet := [WireAction(true, [t])];
            && ValidActions(infs, packet, [NUL]) && HexActions(packet) && (RightIds(packet) <==> RightTarget(t))
            && Meaning(packet) == [Action(true, [TargetMeaning(t)])]
            && AsRead(infs, packet, [NUL]) == [Action(true, [TargetAsRead(t)])]
  {
    var packet := [WireAction(true, [t])];
    assert ActionsText([]) + [NUL] == [NUL];
    OneTarget(infs, t, [NUL]);
    assert packet[1..] == [];
    assert packet[0].targets == [t] && [t][0] == t;
    assert Meaning(packet)[0] == ActionMeaning(packet[0]);
    assert ActionMeaning(packet[0]).targets == [TargetMeaning(t)];
  }

  lemma OneTarget(infs: seq<Inferior>, t: WireTarget, rest: seq<byte>)
    requires |infs| == MAX_PDS && ValidTarget(infs, t) && t.thread != MINUS_ONE && rest != []
    ensures ValidTargets(infs, [t], rest) && TargetsAsRead(infs, [t], rest) == [TargetAsRead(t)]
  {
    assert [t][1..] == [];
  }

  lemma Thread16Only(read: seq<Action>)
    requires read == [Action(true, [Target(1, OneThread(16))])]
    ensures FirstMatch(read, 0, 15) == 0 && FirstMatch(read, 0, 255) == 1
    ensures Wakes(read, 0, 15) && !Wakes(read, 0, 255)
  {
    assert Hits(read[0].targets[0], 0, 15) && !Hits(read[0].targets[0], 0, 255);
    assert read[1..] == [];
  }

  // ---------------------------------------------------------------------------
  // Parsing

  lemma {:induction false} OverlaidShift(text: seq<byte>, k: nat, text': seq<byte>, k': nat, pairs: nat)
    requires k + 2 * pairs <= |text| && k' + 2 * pairs <= |text'|
    requires text[k..k + 2 * pairs] == text'[k'..k' + 2 * pairs]
    ensures Overlaid(text, k, pairs, 0) == Overlaid(text', k', pairs, 0)
    decreases pairs
  {
    if pairs > 0 {
      var a, b := text[k..k + 2 * pairs], text'[k'..k' + 2 * pairs];
      assert text[k] == a[0] == b[0] == text'[k'] && text[k + 1] == a[1] == b[1] == text'[k' + 1];
      assert text[k + 2..k + 2 * pairs] == a[2..] == b[2..] == text'[k' + 2..k' + 2 * pairs];
      OverlaidShift(text, k + 2, text', k' + 2, pairs - 1);
    }
  }

  /** An id reads the same wherever it stands, nothing being left in the int. */
  lemma IdAnywhere(text: seq<byte>, k: nat, digits: seq<byte>, prior: int)
    requires IsId(digits) && k + |digits| < |text| && text[k..k + |digits|] == digits
    ensures NothingLeft(|digits|, prior) ==> IdValue(text, k, k + |digits|, prior) == IdOf(digits)
  {
    IdReadExactly(text, k, k + |digits|, prior);
    var alone := digits + [NUL];
    var pairs := |digits| / 2;
    assert text[k] == digits[0] == alone[0];
    assert text[k..k + 2 * pairs] == digits[..2 * pairs] == alone[0..0 + 2 * pairs];
    OverlaidShift(text, k, alone, 0, pairs);
  }

  /** The characters of a target that stands at `at`. */
  lemma TargetChars(text: seq<byte>, at: nat, t: WireTarget, rest: seq<byte>)
    requires at <= |text| && text[at..] == TargetText(t) + rest && rest != []
    ensures var d := at + 2 + |t.proc|;
            var e := d + 1 + |t.thread|;
            && e < |text| && e == at + |TargetText(t)|
            && text[at] == COLON && text[at + 1] == LETTER_P
            && text[at + 2..d] == t.proc && text[d] == DOT && text[d + 1..e] == t.thread && text[e..] == rest
  {
  }

  /** Nothing is left of what the out-parameters held under the ids of a target. */
  predicate Fills(t: WireTarget, prior: WireId) {
    NothingLeft(|t.proc|, prior.proc) && (t.thread == MINUS_ONE || NothingLeft(|t.thread|, prior.thread))
  }

  /** parse_thread_id reads a target, given what may follow it. */
  lemma ParseTarget(text: seq<byte>, at: nat, t: WireTarget, rest: seq<byte>, prior: WireId)
    requires at <= |text| && text[at..] == TargetText(t) + rest
    requires rest != [] && !IsHex(rest[0])
    requires IsId(t.proc) && (if t.thread == MINUS_ONE then rest[0] == NUL else IsId(t.thread))
    ensures at + 1 <= |text| && Parsable(text, at + 1)
    ensures Clean(text, at + 1, prior) <==> Fills(t, prior)
    ensures Fills(t, prior) ==>
              Parse(text, at + 1, prior) ==
              Parsed(Some(at + |TargetText(t)|),
                     WireId(IdOf(t.proc), if t.thread == MINUS_ONE then -1 else IdOf(t.thread)))
    ensures text[at] == COLON && text[at + |TargetText(t)|..] == rest
  {
    TargetChars(text, at, t, rest);
    var d := at + 2 + |t.proc|;
    var e := d + 1 + |t.thread|;
    assert text[e] == text[e..][0] == rest[0];
    if t.thread == MINUS_ONE {
      assert text[d + 1] == t.thread[0] && text[d + 2] == t.thread[1];
      ParseAllAt(text, at + 1, t.proc, d, prior);
    } else {
      ParseOneAt(text, at + 1, t.proc, t.thread, d, e, prior);
    }
  }

  lemma ParseAllAt(text: seq<byte>, at: nat, proc: seq<byte>, d: nat, prior: WireId)
    requires at + 1 <= d && text != [] && MinusOne(text, d + 1)
    requires text[at] == LETTER_P && text[at + 1..d] == proc && text[d] == DOT && IsId(proc)
    ensures Parsable(text, at)
    ensures Clean(text, at, prior) <==> NothingLeft(|proc|, prior.proc)
    ensures Clean(text, at, prior) ==> Parse(text, at, prior) == Parsed(Some(d + 3), WireId(IdOf(proc), -1))
  {
    DotAfter(text, at + 1, d, proc);
    ParseAllThreads(text, at, d, prior);
    OneIds(text, at + 1, proc, d, prior.proc);
  }

  lemma ParseOneAt(text: seq<byte>, at: nat, proc: seq<byte>, thread: seq<byte>, d: nat, e: nat, prior: WireId)
    requires at + 1 <= d < e < |text| && !IsHex(text[e])
    requires text[at] == LETTER_P && text[at + 1..d] == proc && text[d] == DOT && text[d + 1..e] == thread
    requires IsId(proc) && IsId(thread)
    ensures Parsable(text, at)
    ensures Clean(text, at, prior) <==> NothingLeft(|proc|, prior.proc) && NothingLeft(|thread|, prior.thread)
    ensures Clean(text, at, prior) ==> Parse(text, at, prior) == Parsed(Some(e), WireId(IdOf(proc), IdOf(thread)))
  {
    OneIds(text, at + 1, proc, d, prior.proc);
    OneIds(text, d + 1, thread, e, prior.thread);
    assert |proc| == d - (at + 1) && |thread| == e - (d + 1);
    DotAfter(text, at + 1, d, proc);
    HexAfter(text, d + 1, e, thread);
    ParseOneThread(text, at, d, e, prior);
  }

  /** The same with the end of the id. */
  lemma OneIds(text: seq<byte>, k: nat, digits: seq<byte>, end: nat, prior: int)
    requires IsId(digits) && k <= end < |text| && text[k..end] == digits
    ensures |digits| == end - k
    ensures NothingLeft(end - k, prior) ==> IdValue(text, k, end, prior) == IdOf(digits)
  {
    IdAnywhere(text, k, digits, prior);
  }

  lemma ParseAllThreads(text: seq<byte>, at: nat, d: nat, prior: WireId)
    requires at + 1 <= d && text != [] && MinusOne(text, d + 1) && d - (at + 1) <= MAX_ID_DIGITS
    requires text[at] == LETTER_P && !MinusOne(text, at + 1) && FirstDot(text, at + 1) == d
    ensures Parsable(text, at)
    ensures Clean(text, at, prior) <==> NothingLeft(d - (at + 1), prior.proc)
    ensures Parse(text, at, prior) == Parsed(Some(d + 3), WireId(IdValue(text, at + 1, d, prior.proc), -1))
  {
    assert !IsHex(MINUS);
    assert HexEnd(text, d + 1) == d + 1;
  }

  lemma ParseOneThread(text: seq<byte>, at: nat, d: nat, e: nat, prior: WireId)
    requires at + 1 <= d < e < |text| && d - (at + 1) <= MAX_ID_DIGITS && e - (d + 1) <= MAX_ID_DIGITS
    requires text[at] == LETTER_P && !MinusOne(text, at + 1) && FirstDot(text, at + 1) == d
    requires !MinusOne(text, d + 1) && HexEnd(text, d + 1) == e
    ensures Parsable(text, at)
    ensures Clean(text, at, prior) <==>
            NothingLeft(d - (at + 1), prior.proc) && NothingLeft(e - (d + 1), prior.thread)
    ensures Parse(text, at, prior) ==
            Parsed(Some(e), WireId(IdValue(text, at + 1, d, prior.proc), IdValue(text, d + 1, e, prior.thread)))
  {
  }

  lemma DotAfter(text: seq<byte>, k: nat, d: nat, digits: seq<byte>)
    requires k < d < |text| && text[d] == DOT && text[k..d] == digits && IsId(digits)
    ensures FirstDot(text, k) == d && !MinusOne(text, k)
  {
  }

  lemma HexAfter(text: seq<byte>, k: nat, e: nat, digits: seq<byte>)
    requires k < e < |text| && !IsHex(text[e]) && text[k..e] == digits && IsId(digits)
    ensures HexEnd(text, k) == e && !MinusOne(text, k)
  {
  }

  lemma RestHead(actions: seq<WireAction>, tail: seq<byte>)
    requires ValidTail(tail)
    ensures var rest := ActionsText(actions) + tail;
            rest != [] && (rest[0] == NUL || rest[0] == SEMICOLON)
    ensures actions != [] ==> (ActionsText(actions) + tail)[0] == SEMICOLON
  {
  }

  /** The two characters an action starts with, and the targets after them. */
  lemma ActionHead(text: seq<byte>, at: nat, actions: seq<WireAction>, tail: seq<byte>)
    requires actions != [] && at <= |text| && text[at..] == ActionsText(actions) + tail
    ensures at + 2 <= |text| && text[at + 1] == (if actions[0].step then LETTER_S else LETTER_C)
    ensures text[at + 2..] == TargetsText(actions[0].targets) + (ActionsText(actions[1..]) + tail)
  {
    var letter := if actions[0].step then LETTER_S else LETTER_C;
    var targets, later := TargetsText(actions[0].targets), ActionsText(actions[1..]);
    TwoAndRest(SEMICOLON, letter, targets, later, tail);
    Dropped(text, at, SEMICOLON, letter, targets + (later + tail));
  }

  lemma TwoAndRest(x: byte, y: byte, a: seq<byte>, b: seq<byte>, c: seq<byte>)
    ensures (([x, y] + a) + b) + c == [x, y] + (a + (b + c))
  {
  }

  lemma Dropped(text: seq<byte>, at: nat, x: byte, y: byte, rest: seq<byte>)
    requires at <= |text| && text[at..] == [x, y] + rest
    ensures at + 2 <= |text| && text[at + 1] == y && text[at + 2..] == rest
  {
  }

  /** What follows the first of some targets. */
  function After(targets: seq<WireTarget>, rest: seq<byte>): seq<byte>
    requires targets != []
  {
    TargetsText(targets[1..]) + rest
  }

  lemma AfterHead(targets: seq<WireTarget>, rest: seq<byte>)
    requires targets != [] && rest != [] && (rest[0] == NUL || rest[0] == SEMICOLON)
    ensures After(targets, rest) != [] && !IsHex(After(targets, rest)[0])
    ensures After(targets, rest)[0] == (if |targets| > 1 then COLON else rest[0])
    ensures |targets| == 1 ==> After(targets, rest) == rest
    ensures TargetsText(targets) + rest == TargetText(targets[0]) + After(targets, rest)
  {
    assert !IsHex(COLON) && !IsHex(SEMICOLON) && !IsHex(NUL);
    Associate(TargetText(targets[0]), TargetsText(targets[1..]), rest);
    if |targets| > 1 {
      TargetsTextHead(targets[1..]);
    }
  }

  lemma TargetsTextHead(targets: seq<WireTarget>)
    requires targets != []
    ensures TargetsText(targets) != [] && TargetsText(targets)[0] == COLON
  {
  }

  lemma FirstValid(infs: seq<Inferior>, targets: seq<WireTarget>, rest: seq<byte>)
    requires |infs| == MAX_PDS && rest != [] && (rest[0] == NUL || rest[0] == SEMICOLON)
    requires targets != [] && ValidTargets(infs, targets, rest)
    ensures ValidTarget(infs, targets[0]) && IsId(targets[0].proc)
    ensures After(targets, rest) != [] && !IsHex(After(targets, rest)[0])
    ensures targets[0].thread == MINUS_ONE ==> After(targets, rest)[0] == NUL
    ensures targets[0].thread != MINUS_ONE ==> IsId(targets[0].thread)
  {
  }

  /** What the two uninitialised ints of handle_vcont happen to hold when the id at a
      place in the packet is read into them. */
  type Stale = nat -> WireId

  /** At every id of a packet, nothing is left of what the ints hold. */
  ghost predicate AllClean(text: seq<byte>, stale: Stale) {
    forall at: nat {:trigger stale(at)} ::
      0 < at < |text| && text[at - 1] == COLON && Parsable(text, at) ==> Clean(text, at, stale(at))
  }

  /** Reads the next target, given what may follow it. */
  method ReadTarget(text: seq<byte>, at: nat, stale: Stale, ghost t: WireTarget, ghost rest: seq<byte>)
    returns (next: nat, id: WireId)
    requires AllClean(text, stale)
    requires at <= |text| && text[at..] == TargetText(t) + rest
    requires rest != [] && !IsHex(rest[0])
    requires IsId(t.proc) && (if t.thread == MINUS_ONE then rest[0] == NUL else IsId(t.thread))
    ensures next < |text| && text[next..] == rest && text[next] == rest[0]
    ensures id == WireId(IdOf(t.proc), if t.thread == MINUS_ONE then -1 else IdOf(t.thread))
  {
    ParseTarget(text, at, t, rest, stale(at + 1));
    var n, i := ParseThreadId(text, at + 1, stale(at + 1));
    next, id := n.value, i;
    HeadOfRest(text, next, rest);
  }

  lemma AsReadNext(infs: seq<Inferior>, seen: seq<Target>, left: seq<WireTarget>, rest: seq<byte>)
    requires |infs| == MAX_PDS && rest != [] && left != [] && ValidTargets(infs, left, rest)
    ensures seen + TargetsAsRead(infs, left, rest) ==
            (seen + [TargetAsRead(left[0])]) + TargetsAsRead(infs, left[1..], rest)
    ensures |left| == 1 ==> seen + TargetsAsRead(infs, left, rest) == seen + [TargetAsRead(left[0])]
  {
    var first, later := TargetAsRead(left[0]), TargetsAsRead(infs, left[1..], rest);
    OneByOne(seen, first, later);
    if |left| == 1 {
      assert later == [];
    }
  }

  lemma OneByOne(seen: seq<Target>, t: Target, later: seq<Target>)
    ensures seen + ([t] + later) == (seen + [t]) + later
  {
  }

  /** Having done some of the actions `all`, the rest of the packet means the others. */
  ghost predicate Pending(infs: seq<Inferior>, all: seq<Action>, done: seq<Action>, left: seq<WireAction>,
                          tail: seq<byte>) {
    |infs| == MAX_PDS && tail != [] && ValidActions(infs, left, tail) && all == done + AsRead(infs, left, tail)
  }

  lemma PendingNext(infs: seq<Inferior>, all: seq<Action>, done: seq<Action>, left: seq<WireAction>, tail: seq<byte>,
                    a: Action)
    requires Pending(infs, all, done, left, tail) && left != []
    requires a == Action(left[0].step, TargetsAsRead(infs, left[0].targets, ActionsText(left[1..]) + tail))
    ensures Pending(infs, all, done + [a], left[1..], tail)
  {
  }

  lemma PendingDone(infs: seq<Inferior>, all: seq<Action>, done: seq<Action>, left: seq<WireAction>, tail: seq<byte>)
    requires Pending(infs, all, done, left, tail) && left == []
    ensures done == all
  {
  }

  lemma HeadOfRest(text: seq<byte>, at: nat, rest: seq<byte>)
    requires at <= |text| && text[at..] == rest && rest != []
    ensures at < |text| && text[at] == rest[0]
  {
  }

  /** The second character of what is left of a packet, if it is not over. */
  lemma SecondChar(text: seq<byte>, at: nat, actions: seq<WireAction>, tail: seq<byte>)
    requires ValidTail(tail) && at < |text| && text[at..] == ActionsText(actions) + tail && text[at] != NUL
    ensures text[at] == SEMICOLON && at + 2 <= |text|
    ensures text[at + 1] == if actions == [] then tail[1] else if actions[0].step then LETTER_S else LETTER_C
    ensures actions != [] ==> text[at + 2..] == TargetsText(actions[0].targets) + (ActionsText(actions[1..]) + tail)
    ensures actions == [] ==> tail[0] == SEMICOLON
  {
    RestHead(actions, tail);
    HeadOfRest(text, at, ActionsText(actions) + tail);
    if actions == [] {
      assert text[at..] == tail;
      assert text[at + 1] == text[at..][1];
    } else {
      ActionHead(text, at, actions, tail);
    }
  }

  /** Past the five characters of vCont. */
  lemma PacketBegins(input: seq<byte>, actions: seq<WireAction>, tail: seq<byte>)
    requires ValidTail(tail) && input == VCONT + ActionsText(actions) + tail
    ensures 5 < |input| && input[5..] == ActionsText(actions) + tail
  {
    Associate(VCONT, ActionsText(actions), tail);
  }

  lemma PacketOver(text: seq<byte>, at: nat, infs: seq<Inferior>, all: seq<Action>, done: seq<Action>,
                   left: seq<WireAction>, tail: seq<byte>)
    requires ValidTail(tail) && Pending(infs, all, done, left, tail)
    requires at < |text| && text[at..] == ActionsText(left) + tail && text[at] == NUL
    ensures done == all && tail[0] == NUL
  {
  }

  /** The range of table places a target hits. */
  lemma TargetRange(was: State, r: State, wire: WireTarget)
    requires |was.inferiors| == MAX_PDS && Frame(was, r) && ValidTarget(was.inferiors, wire)
    requires forall i :: 0 <= i < MAX_PDS ==> |was.inferiors[i].threads| == MAX_THREADS
    ensures var i := (IdOf(wire.proc) - 1) % MAX_PDS;
            && r.inferiors[i].enabled && r.inferiors[i].gdbId == IdOf(wire.proc)
            && |r.inferiors[i].threads| == MAX_THREADS
    ensures forall a, b :: Live(was.inferiors, a, b) ==>
              (Hits(TargetAsRead(wire), a, b) <==>
                 && a == (IdOf(wire.proc) - 1) % MAX_PDS
                 && (wire.thread == MINUS_ONE || b == IdOf(wire.thread) - 1))
  {
  }

  // ---------------------------------------------------------------------------
  // The walk

  /** What enable_single_step or disable_single_step and the two marks do to a thread. */
  function VisitAt(s: State, i: nat, j: nat, step: bool): State
    requires Live(s.inferiors, i, j)
  {
    var inf := s.inferiors[i];
    var th := inf.threads[j];
    var visited := th.(ssEnabled := th.ssEnabled || step, wakeup := true);
    s.(inferiors := s.inferiors[i := inf.(threads := inf.threads[j := visited])],
       machine := s.machine.(tcbs := OnAll(s.machine.tcbs, {th.tcb}, SingleStep(step))))
  }

  predicate SameThreadBut(a: Thread, b: Thread) {
    b == a.(wakeup := b.wakeup, ssEnabled := b.ssEnabled) && (!a.enabled ==> b == a)
  }

  /** All a vCont packet may change: wake and step marks of live threads, and their
      single-step bits. */
  ghost predicate Frame(s: State, r: State) {
    && |r.inferiors| == |s.inferiors|
    && r == s.(inferiors := r.inferiors, machine := r.machine)
    && r.machine.spaces == s.machine.spaces && r.machine.tcbs.Keys == s.machine.tcbs.Keys
    && (forall i :: 0 <= i < |s.inferiors| ==>
          && r.inferiors[i] == s.inferiors[i].(threads := r.inferiors[i].threads)
          && |r.inferiors[i].threads| == |s.inferiors[i].threads|
          && (!s.inferiors[i].enabled ==> r.inferiors[i] == s.inferiors[i]))
    && (forall i, j :: 0 <= i < |s.inferiors| && 0 <= j < |s.inferiors[i].threads| ==>
          SameThreadBut(s.inferiors[i].threads[j], r.inferiors[i].threads[j]))
    && (forall t :: t in s.machine.tcbs ==>
          r.machine.tcbs[t] == s.machine.tcbs[t].(stepping := r.machine.tcbs[t].stepping))
    && (forall t :: t in s.machine.tcbs && t !in LiveTcbs(s.inferiors) ==> r.machine.tcbs[t] == s.machine.tcbs[t])
  }

  function ViewOf(s: State, marks: set<Slot>, i: nat, j: nat): View
    requires Live(s.inferiors, i, j) && TcbAt(s.inferiors, i, j) in s.machine.tcbs
  {
    var th := s.inferiors[i].threads[j];
    View(th.wakeup, th.ssEnabled, s.machine.tcbs[th.tcb].stepping, Slot(i, j) in marks)
  }

  lemma FrameLive(s: State, r: State)
    requires Frame(s, r)
    ensures forall i, j :: Live(r.inferiors, i, j) <==> Live(s.inferiors, i, j)
    ensures forall i, j :: Live(s.inferiors, i, j) ==> TcbAt(r.inferiors, i, j) == TcbAt(s.inferiors, i, j)
    ensures OwnTcbs(s) ==> OwnTcbs(r)
    ensures LiveTcbs(r.inferiors) == LiveTcbs(s.inferiors)
  {
  }

  lemma FrameTransitive(s: State, m: State, r: State)
    requires Frame(s, m) && Frame(m, r)
    ensures Frame(s, r)
  {
  }

  /** One visit changes the view of the visited thread only. */
  lemma VisitEffect(s: State, marks: set<Slot>, i: nat, j: nat, step: bool)
    requires OwnTcbs(s) && Live(s.inferiors, i, j) && Slot(i, j) !in marks
    ensures Frame(s, VisitAt(s, i, j, step))
    ensures var r := VisitAt(s, i, j, step);
            forall a, b :: Live(s.inferiors, a, b) ==>
              && Live(r.inferiors, a, b) && TcbAt(r.inferiors, a, b) in r.machine.tcbs
              && ViewOf(r, marks + {Slot(i, j)}, a, b) ==
                 if a == i && b == j then Visit(ViewOf(s, marks, a, b), step) else ViewOf(s, marks, a, b)
  {
    var r := VisitAt(s, i, j, step);
    var t := TcbAt(s.inferiors, i, j);
    assert t in LiveTcbs(s.inferiors) by {
      assert s.inferiors[i].threads[j].tcb == t;
    }
    forall a, b | Live(s.inferiors, a, b)
      ensures Live(r.inferiors, a, b) && TcbAt(r.inferiors, a, b) == TcbAt(s.inferiors, a, b)
      ensures ViewOf(r, marks + {Slot(i, j)}, a, b) ==
              if a == i && b == j then Visit(ViewOf(s, marks, a, b), step) else ViewOf(s, marks, a, b)
    {}
  }

  /** After whole actions, every live thread is as the walk over them leaves it. */
  ghost predicate Walked(s: State, r: State, marks: set<Slot>, done: seq<Action>) {
    && OwnTcbs(s) && OwnTcbs(r) && Frame(s, r)
    && forall i, j :: Live(s.inferiors, i, j) ==>
         && Live(r.inferiors, i, j) && TcbAt(r.inferiors, i, j) in r.machine.tcbs
         && ViewOf(r, marks, i, j) == AfterActions(ViewOf(s, {}, i, j), done, i, j)
  }

  /** And part way through the targets of one more. */
  ghost predicate WalkedInto(s: State, r: State, marks: set<Slot>, done: seq<Action>, step: bool,
                             targets: seq<Target>) {
    && OwnTcbs(s) && OwnTcbs(r) && Frame(s, r)
    && forall i, j :: Live(s.inferiors, i, j) ==>
         && Live(r.inferiors, i, j) && TcbAt(r.inferiors, i, j) in r.machine.tcbs
         && ViewOf(r, marks, i, j) ==
            AfterTargets(AfterActions(ViewOf(s, {}, i, j), done, i, j).(wakeup := !step), step, targets, i, j)
  }

  lemma WalkBegins(s: State)
    requires OwnTcbs(s)
    ensures Walked(s, s, {}, [])
  {
  }

  lemma WalkedAction(s: State, r: State, marks: set<Slot>, done: seq<Action>, a: Action)
    requires WalkedInto(s, r, marks, done, a.step, a.targets)
    ensures Walked(s, r, marks, done + [a])
  {
  }

  function SetWakeups(s: State, value: bool): State {
    s.(inferiors := seq(|s.inferiors|, i requires 0 <= i < |s.inferiors| => SetWakeup(s.inferiors[i], value)))
  }

  function SetWakeup(inf: Inferior, value: bool): Inferior {
    if !inf.enabled then inf else
    inf.(threads := seq(|inf.threads|, j requires 0 <= j < |inf.threads| =>
           if inf.threads[j].enabled then inf.threads[j].(wakeup := value) else inf.threads[j]))
  }

  lemma WalkedWakeups(s: State, r: State, marks: set<Slot>, done: seq<Action>, step: bool)
    requires Walked(s, r, marks, done)
    ensures WalkedInto(s, SetWakeups(r, !step), marks, done, step, [])
  {
    var r' := SetWakeups(r, !step);
    SetWakeupsFrame(r, !step);
    SetWakeupsViews(r, marks, !step);
    FrameTransitive(s, r, r');
    FrameLive(r, r');
  }

  lemma SetWakeupsViews(r: State, marks: set<Slot>, value: bool)
    requires OwnTcbs(r)
    ensures var r' := SetWakeups(r, value);
            forall i, j :: Live(r.inferiors, i, j) ==>
              && Live(r'.inferiors, i, j) && TcbAt(r'.inferiors, i, j) in r'.machine.tcbs
              && ViewOf(r', marks, i, j) == ViewOf(r, marks, i, j).(wakeup := value)
  {
  }

  lemma SetWakeupsFrame(r: State, value: bool)
    ensures Frame(r, SetWakeups(r, value))
  {
  }

  /** Visiting all unmarked live threads in places from..n of inferior `i`. */
  ghost predicate Visited(s: State, marks: set<Slot>, r: State, marks': set<Slot>, i: nat, from: nat, n: nat,
                          step: bool) {
    && OwnTcbs(s) && OwnTcbs(r) && Frame(s, r)
    && forall a, b :: Live(s.inferiors, a, b) ==>
         && Live(r.inferiors, a, b) && TcbAt(r.inferiors, a, b) in r.machine.tcbs
         && ViewOf(r, marks', a, b) ==
            if a == i && from <= b < n then Visit(ViewOf(s, marks, a, b), step) else ViewOf(s, marks, a, b)
  }

  /** A thread that is not live or already marked is passed over... */
  lemma VisitedPast(s: State, marks: set<Slot>, r: State, marks': set<Slot>, i: nat, from: nat, j: nat, step: bool)
    requires Visited(s, marks, r, marks', i, from, j, step) && from <= j
    requires !Live(r.inferiors, i, j) || Slot(i, j) in marks'
    ensures Visited(s, marks, r, marks', i, from, j + 1, step)
  {
  }

  /** ...and any other is visited. */
  lemma VisitedNext(s: State, marks: set<Slot>, r: State, marks': set<Slot>, i: nat, from: nat, j: nat, step: bool)
    requires Visited(s, marks, r, marks', i, from, j, step) && from <= j
    requires Live(r.inferiors, i, j) && Slot(i, j) !in marks'
    ensures Visited(s, marks, VisitAt(r, i, j, step), marks' + {Slot(i, j)}, i, from, j + 1, step)
  {
    FrameLive(s, r);
    VisitEffect(r, marks', i, j, step);
    var r' := VisitAt(r, i, j, step);
    FrameTransitive(s, r, r');
    FrameLive(r, r');
    forall a, b | Live(s.inferiors, a, b)
      ensures ViewOf(r', marks' + {Slot(i, j)}, a, b) ==
              if a == i && from <= b < j + 1 then Visit(ViewOf(s, marks, a, b), step) else ViewOf(s, marks, a, b)
    {
      assert Live(r.inferiors, a, b);
    }
  }

  lemma WalkedTarget(s: State, r: State, marks: set<Slot>, r': State, marks': set<Slot>, done: seq<Action>,
                     step: bool, targets: seq<Target>, t: Target, i: nat, from: nat, n: nat)
    requires WalkedInto(s, r, marks, done, step, targets)
    requires Visited(r, marks, r', marks', i, from, n, step)
    requires forall a, b :: Live(s.inferiors, a, b) ==> (Hits(t, a, b) <==> a == i && from <= b < n)
    ensures WalkedInto(s, r', marks', done, step, targets + [t])
  {
    FrameLive(s, r);
    FrameTransitive(s, r, r');
    assert (targets + [t])[..|targets|] == targets;
  }

  lemma WalkedWireTarget(s: State, r: State, marks: set<Slot>, r': State, marks': set<Slot>, done: seq<Action>,
                         step: bool, targets: seq<Target>, wire: WireTarget, id: WireId)
    requires |s.inferiors| == MAX_PDS && ValidTarget(s.inferiors, wire)
    requires forall i :: 0 <= i < MAX_PDS ==> |s.inferiors[i].threads| == MAX_THREADS
    requires id == WireId(IdOf(wire.proc), if wire.thread == MINUS_ONE then -1 else IdOf(wire.thread))
    requires WalkedInto(s, r, marks, done, step, targets)
    requires Visited(r, marks, r', marks', (id.proc - 1) % MAX_PDS,
                     if id.thread == -1 then 0 else id.thread - 1,
                     if id.thread == -1 then MAX_THREADS else id.thread, step)
    ensures WalkedInto(s, r', marks', done, step, targets + [TargetAsRead(wire)])
  {
    TargetRange(s, r, wire);
    WalkedTarget(s, r, marks, r', marks', done, step, targets, TargetAsRead(wire), (id.proc - 1) % MAX_PDS,
                 if id.thread == -1 then 0 else id.thread - 1, if id.thread == -1 then MAX_THREADS else id.thread);
  }

  /** Having walked a whole packet is having applied its leftmost matches. */
  lemma WalkedIsApply(s: State, r: State, marks: set<Slot>, actions: seq<Action>)
    requires Walked(s, r, marks, actions)
    ensures r == Apply(s, actions)
  {
    var q := Apply(s, actions);
    forall i | 0 <= i < |s.inferiors| ensures r.inferiors[i] == q.inferiors[i] {
      if s.inferiors[i].enabled {
        forall j | 0 <= j < |s.inferiors[i].threads| ensures r.inferiors[i].threads[j] == q.inferiors[i].threads[j] {
          assert SameThreadBut(s.inferiors[i].threads[j], r.inferiors[i].threads[j]);
          if Live(s.inferiors, i, j) {
            WalkIsLeftmost(ViewOf(s, {}, i, j), actions, i, j);
          }
        }
        assert r.inferiors[i].threads == q.inferiors[i].threads;
      }
    }
    assert r.inferiors == q.inferiors;
    forall t | t in s.machine.tcbs ensures r.machine.tcbs[t] == q.machine.tcbs[t] {
      if t in LiveTcbs(s.inferiors) {
        var i, j :| 0 <= i < |s.inferiors| && 0 <= j < |s.inferiors[i].threads| && Live(s.inferiors, i, j) &&
            s.inferiors[i].threads[j].tcb == t;
        assert TcbAt(s.inferiors, i, j) == t;
        WalkIsLeftmost(ViewOf(s, {}, i, j), actions, i, j);
        ApplyThread(s, actions, i, j);
        FrameLive(s, r);
        assert r.machine.tcbs[t].stepping == ViewOf(r, marks, i, j).stepping;
      }
    }
    assert r.machine.tcbs == q.machine.tcbs;
  }
}

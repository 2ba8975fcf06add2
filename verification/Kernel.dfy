/**
 The part of the seL4 kernel the library drives: per thread (TCB) a file of
 hardware breakpoint and watchpoint registers, a single-step bit and a running
 bit, and per vspace a memory. Capability pointers are numbers.
 */
module Kernel {
  import opened Options
  import opened Memory

  datatype Access = OnRead | OnWrite | OnReadWrite

  datatype Watch = Watch(addr: nat, size: nat, access: Access)

  // The all-zero entry memset leaves.
  const NO_WATCH := Watch(0, 0, OnRead)

  datatype Tcb = Tcb(breaks: seq<Option<nat>>, watches: seq<Option<Watch>>, stepping: bool, running: bool)

  /** One kernel call on one thread. */
  datatype Call =
    | Suspend
    | Resume
    | SingleStep(on: bool)
    | SetBreak(n: nat, addr: nat)
    | UnsetBreak(n: nat)
    | SetWatch(n: nat, watch: Watch)
    | UnsetWatch(n: nat)

  function Perform(call: Call, t: Tcb): Tcb {
    match call
    case Suspend => t.(running := false)
    case Resume => t.(running := true)
    case SingleStep(on) => t.(stepping := on)
    case SetBreak(n, addr) => if n < |t.breaks| then t.(breaks := t.breaks[n := Some(addr)]) else t
    case UnsetBreak(n) => if n < |t.breaks| then t.(breaks := t.breaks[n := None]) else t
    case SetWatch(n, w) => if n < |t.watches| then t.(watches := t.watches[n := Some(w)]) else t
    case UnsetWatch(n) => if n < |t.watches| then t.(watches := t.watches[n := None]) else t
  }

  type Tcbs = map<nat, Tcb>

  /** The same call on every thread of a set. */
  function OnAll(tcbs: Tcbs, s: set<nat>, call: Call): (r: Tcbs)
    ensures r.Keys == tcbs.Keys
  {
    map t | t in tcbs :: if t in s then Perform(call, tcbs[t]) else tcbs[t]
  }

  lemma PerformTwice(call: Call, t: Tcb)
    ensures Perform(call, Perform(call, t)) == Perform(call, t)
  {
  }

  /** Calling thread after thread is calling all of them at once. */
  lemma OnAllAdd(tcbs: Tcbs, s: set<nat>, s': set<nat>, call: Call)
    ensures OnAll(OnAll(tcbs, s, call), s', call) == OnAll(tcbs, s + s', call)
  {
    forall t | t in tcbs ensures Perform(call, Perform(call, tcbs[t])) == Perform(call, tcbs[t]) {
      PerformTwice(call, tcbs[t]);
    }
  }

  datatype Machine = Machine(tcbs: Tcbs, spaces: map<nat, VSpace>)
}

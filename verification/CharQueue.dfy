/**
 The byte queue of the network example (char_queue.h): free-running 32-bit indices
 into a buffer of 2048 bytes, with batches and locally enqueued bytes.
 */
module CharQueue {
  import opened Options
  import opened Words

  const CAPACITY := 2048
  const UINT32 := 0x1_0000_0000

  type uint32 = x: int | 0 <= x < UINT32

  function Add(a: uint32, k: nat): uint32 {
    (a + k) % UINT32
  }

  function Sub(a: uint32, b: uint32): uint32 {
    (a - b) % UINT32
  }

  /** The slot `k` places after an index. */
  function Slot(i: nat, k: nat): nat {
    (i + k) % CAPACITY
  }

  lemma Wraps(x: int, y: int, m: int)
    requires x == y + UINT32 * m && 0 <= y < UINT32
    ensures x % UINT32 == y
  {
  }

  lemma SameSlot(x: int, y: int, m: int)
    requires x == y + CAPACITY * m && 0 <= y < CAPACITY
    ensures x % CAPACITY == y
  {
  }

  /** The capacity divides the index range, so a wrapping index keeps its place. */
  lemma WrapKeepsSlot(a: uint32, k: nat)
    ensures Add(a, k) % CAPACITY == Slot(a, k)
  {
    var q, r := (a + k) / UINT32, (a + k) % UINT32;
    SameSlot(a + k, r % CAPACITY, UINT32 / CAPACITY * q + r / CAPACITY);
  }

  lemma DistanceAfterAdd(tail: uint32, head: uint32, k: nat)
    requires Sub(tail, head) + k < UINT32
    ensures Sub(Add(tail, k), head) == Sub(tail, head) + k
    ensures Add(head, Sub(tail, head) + k) == Add(tail, k)
  {
    var q, e := (tail + k) / UINT32, if tail < head then 1 else 0;
    Wraps(tail - head, tail - head + UINT32 * e, -e);
    Wraps(Add(tail, k) - head, Sub(tail, head) + k, -q - e);
    Wraps(head + Sub(tail, head) + k, Add(tail, k), q + e);
  }

  lemma DistanceAfterTake(tail: uint32, head: uint32)
    requires tail != head
    ensures Sub(tail, Add(head, 1)) == Sub(tail, head) - 1 && Sub(tail, head) > 0
  {
    var q, e := (head + 1) / UINT32, if tail < head then 1 else 0;
    Wraps(tail - head, tail - head + UINT32 * e, -e);
    Wraps(tail - Add(head, 1), Sub(tail, head) - 1, q - e);
  }

  /** The slot of a tail, as seen from the head. */
  lemma TailSlot(tail: uint32, head: uint32)
    ensures Slot(head, Sub(tail, head)) == tail % CAPACITY
  {
    var e := if tail < head then 1 else 0;
    Wraps(tail - head, tail - head + UINT32 * e, -e);
    SameSlot(head + Sub(tail, head), tail % CAPACITY, tail / CAPACITY + UINT32 / CAPACITY * e);
  }

  /** The bytes in `n` slots from index `head` on. */
  function Window(buf: seq<byte>, head: uint32, n: nat): (r: seq<byte>)
    requires |buf| == CAPACITY
    ensures |r| == n
  {
    seq(n, k requires 0 <= k < n => buf[Slot(head, k)])
  }

  /** Writing the slot after the window extends it and leaves all of it alone. */
  lemma WindowExtend(buf: seq<byte>, buf': seq<byte>, head: uint32, n: nat, c: byte)
    requires |buf| == CAPACITY && n < CAPACITY && buf' == buf[Slot(head, n) := c]
    ensures forall m: nat :: m <= n ==> Window(buf', head, m) == Window(buf, head, m)
    ensures Window(buf', head, n + 1) == Window(buf, head, n) + [c]
  {
  }

  /** Filling all slots after the window appends the bytes. */
  lemma WindowBatch(buf: seq<byte>, buf': seq<byte>, head: uint32, n: nat, src: seq<byte>)
    requires |buf| == |buf'| == CAPACITY && n + |src| <= CAPACITY
    requires forall k :: 0 <= k < |src| ==> buf'[Slot(head, n + k)] == src[k]
    requires forall k :: 0 <= k < n ==> buf'[Slot(head, k)] == buf[Slot(head, k)]
    ensures Window(buf', head, n + |src|) == Window(buf, head, n) + src
    ensures Window(buf', head, n) == Window(buf, head, n)
  {
  }

  class CharQueue {
    var tail: uint32
    var head: uint32
    const buf: array<byte>
    // All bytes ever published, and all bytes ever taken out.
    ghost var accepted: seq<byte>
    ghost var delivered: seq<byte>

    function Length(): uint32
      reads this
    {
      Sub(tail, head)
    }

    ghost function Contents(): seq<byte>
      reads this, buf
      requires buf.Length == CAPACITY
    {
      Window(buf[..], head, Length())
    }

    /** First in, first out, over the whole life of the queue. */
    ghost predicate Valid()
      reads this, buf
    {
      buf.Length == CAPACITY && Length() <= CAPACITY && accepted == delivered + Contents()
    }

    /** A producer's own tail, at or after the shared one. */
    ghost predicate LocalTail(local: uint32)
      reads this
    {
      Length() <= Sub(local, head) <= CAPACITY
    }

    /** The bytes up to a local tail, published or not. */
    ghost function LocalContents(local: uint32): seq<byte>
      reads this, buf
      requires buf.Length == CAPACITY
    {
      Window(buf[..], head, Sub(local, head))
    }

    constructor ()
      ensures Valid() && Contents() == [] && accepted == [] && delivered == []
    {
      tail, head := 0, 0;
      buf := new byte[CAPACITY];
      accepted, delivered := [], [];
    }

    method Full(local: uint32) returns (r: bool)
      ensures r == (Sub(local, head) == CAPACITY)
    {
      r := Sub(local, head) == CAPACITY;
    }

    method EnqueueLocal(local: uint32, c: byte) returns (ok: bool, local': uint32)
      requires Valid() && LocalTail(local)
      modifies buf
      ensures Valid() && LocalTail(local')
      ensures ok == (Sub(local, head) < CAPACITY)
      // Nothing a consumer can see changes.
      ensures Contents() == old(Contents())
      ensures LocalContents(local') == old(LocalContents(local)) + (if ok then [c] else [])
    {
      var full := Full(local);
      if full {
        return false, local;
      }
      ghost var n := Sub(local, head);
      TailSlot(local, head);
      DistanceAfterAdd(local, head, 1);
      ghost var before := buf[..];
      buf[local % CAPACITY] := c;
      WindowExtend(before, buf[..], head, n, c);
      return true, Add(local, 1);
    }

    method Enqueue(c: byte) returns (ok: bool)
      requires Valid()
      modifies this`tail, this`accepted, buf
      ensures Valid() && head == old(head) && delivered == old(delivered)
      ensures ok == (|old(Contents())| < CAPACITY)
      ensures Contents() == old(Contents()) + (if ok then [c] else [])
      ensures accepted == old(accepted) + (if ok then [c] else [])
    {
      var local;
      ok, local := EnqueueLocal(tail, c);
      if ok {
        tail := local;
        accepted := accepted + [c];
      }
    }

    method Dequeue() returns (r: Option<byte>)
      requires Valid()
      modifies this`head, this`delivered
      ensures Valid() && tail == old(tail) && accepted == old(accepted)
      ensures r == if old(Contents()) == [] then None else Some(old(Contents())[0])
      ensures Contents() == if r.None? then old(Contents()) else old(Contents())[1..]
      ensures delivered == old(delivered) + (if r.None? then [] else [r.value])
    {
      if head == tail {
        return None;
      }
      DistanceAfterTake(tail, head);
      ghost var before := Contents();
      var c := buf[head % CAPACITY];
      assert c == before[0];
      TakeOne(buf[..], head, Length());
      head := Add(head, 1);
      delivered := delivered + [c];
      return Some(c);
    }

    /** Reads ahead without taking anything out. */
    method DequeueLocal(local: uint32) returns (r: Option<byte>, local': uint32)
      requires Valid() && Sub(local, head) <= Length()
      ensures var k := Sub(local, head);
              if k < |Contents()| then r == Some(Contents()[k]) && Sub(local', head) == k + 1
              else r == None && local' == local
    {
      if local == tail {
        return None, local;
      }
      ReadAhead(tail, head, local);
      TailSlot(local, head);
      return Some(buf[local % CAPACITY]), Add(local, 1);
    }

    /** Makes locally enqueued bytes visible; for a producer's own tail the two
        assertions always hold. */
    method UpdateSharedTail(local: uint32)
      requires Valid() && LocalTail(local)
      modifies this`tail, this`accepted
      ensures Valid() && tail == local
      ensures Contents() == old(LocalContents(local))
      ensures accepted == old(delivered) + Contents()
    {
      var currentLength := Length();
      var newLength := Sub(local, head);
      assert newLength >= currentLength;
      assert newLength <= CAPACITY;
      tail := local;
      accepted := delivered + Contents();
    }

    method Memcpy(at: nat, src: seq<byte>, from: nat, n: nat)
      requires at + n <= buf.Length && from + n <= |src|
      modifies buf
      ensures forall k :: 0 <= k < buf.Length ==>
                buf[k] == if at <= k < at + n then src[from + (k - at)] else old(buf[k])
    {
      for j := 0 to n
        invariant forall k :: 0 <= k < buf.Length ==>
                    buf[k] == if at <= k < at + j then src[from + (k - at)] else old(buf[k])
      {
        buf[at + j] := src[from + j];
      }
    }

    /** The copy up to the end of the buffer and the one from its start. */
    method CopyBatch(dst: nat, src: seq<byte>, prewrap: nat, postwrap: nat)
      requires buf.Length == CAPACITY && prewrap + postwrap <= |src|
      requires dst + prewrap <= CAPACITY && postwrap <= dst
      modifies buf
      ensures forall i :: 0 <= i < CAPACITY ==>
                buf[i] == if i < postwrap then src[prewrap + i]
                          else if dst <= i < dst + prewrap then src[i - dst] else old(buf[i])
    {
      Memcpy(dst, src, 0, prewrap);
      if postwrap != 0 {
        Memcpy(0, src, prewrap, postwrap);
      }
    }

    /** Enqueues as many of the bytes as fit, with at most one wrap of the buffer. */
    method EnqueueBatch(num0: uint32, src: seq<byte>) returns (num: uint32)
      requires Valid() && num0 <= |src|
      modifies this`tail, this`accepted, buf
      ensures Valid() && head == old(head)
      ensures num == Min(num0, CAPACITY - |old(Contents())|)
      ensures Contents() == old(Contents()) + src[..num]
      ensures accepted == old(accepted) + src[..num]
    {
      ghost var n := Length();
      ghost var before := buf[..];
      var dst := tail % CAPACITY;
      var avail := CAPACITY - Length();
      num := Min(num0, avail);
      var prewrap := Min(num, Min(CAPACITY - tail % CAPACITY, avail));
      var postwrap := num - prewrap;
      CopyBatch(dst, src, prewrap, postwrap);
      BatchEffect(before, buf[..], head, tail, src, num, prewrap);
      DistanceAfterAdd(tail, head, num);
      UpdateSharedTail(Add(tail, num));
    }
  }

  /** The two copies append the bytes to the window. */
  lemma BatchEffect(buf: seq<byte>, buf': seq<byte>, head: uint32, tail: uint32, src: seq<byte>, num: nat, prewrap: nat)
    requires |buf| == |buf'| == CAPACITY && num <= |src|
    requires Sub(tail, head) <= CAPACITY && num <= CAPACITY - Sub(tail, head)
    requires prewrap == Min(num, Min(CAPACITY - tail % CAPACITY, CAPACITY - Sub(tail, head)))
    requires var t := tail % CAPACITY;
             forall i :: 0 <= i < CAPACITY ==>
               buf'[i] == if i < num - prewrap then src[prewrap + i] else if t <= i < t + prewrap then src[i - t]
                   else buf[i]
    ensures var n := Sub(tail, head);
            && Window(buf', head, n) == Window(buf, head, n)
            && Window(buf', head, n + num) == Window(buf, head, n) + src[..num]
  {
    var n, t := Sub(tail, head), tail % CAPACITY;
    BatchSlots(head, tail, n, num, prewrap);
    forall k | 0 <= k < num ensures buf'[Slot(head, n + k)] == src[..num][k] {
      BatchSlot(t, num, prewrap, k);
      assert Slot(head, n + k) == Slot(t, k);
    }
    forall k | 0 <= k < n ensures buf'[Slot(head, k)] == buf[Slot(head, k)] {
      assert OffBatch(Slot(head, k), t, num, prewrap);
    }
    WindowBatch(buf, buf', head, n, src[..num]);
  }

  function Min(a: nat, b: nat): nat {
    if a < b then a else b
  }

  lemma TakeOne(buf: seq<byte>, head: uint32, n: nat)
    requires |buf| == CAPACITY && 0 < n
    ensures Window(buf, Add(head, 1), n - 1) == Window(buf, head, n)[1..]
  {
    WrapKeepsSlot(head, 1);
    forall k | 0 <= k < n - 1 ensures Slot(Add(head, 1), k) == Slot(head, k + 1) {
      ModShift(Add(head, 1), head + 1, k);
    }
  }

  lemma ModShift(a: nat, b: nat, k: nat)
    requires a % CAPACITY == b % CAPACITY
    ensures (a + k) % CAPACITY == (b + k) % CAPACITY
  {
  }

  /** An index between head and tail other than the tail has a byte to read. */
  lemma ReadAhead(tail: uint32, head: uint32, local: uint32)
    requires Sub(local, head) <= Sub(tail, head) <= CAPACITY && local != tail
    ensures Sub(local, head) < Sub(tail, head) && Sub(Add(local, 1), head) == Sub(local, head) + 1
  {
    DistanceAfterAdd(local, head, 1);
    SubInjective(local, tail, head);
  }

  lemma SubInjective(a: uint32, b: uint32, head: uint32)
    ensures Sub(a, head) == Sub(b, head) ==> a == b
  {
  }

  /** Where the bytes of a batch go: up to the end of the buffer, then from its start;
      and none of these slots is in the window. */
  lemma BatchSlots(head: uint32, tail: uint32, n: nat, num: nat, prewrap: nat)
    requires n == Sub(tail, head) <= CAPACITY && num <= CAPACITY - n
    requires prewrap == Min(num, Min(CAPACITY - tail % CAPACITY, CAPACITY - n))
    ensures prewrap <= num && num - prewrap <= tail % CAPACITY
    ensures forall k: nat {:trigger Slot(tail % CAPACITY, k)} :: k < num ==>
            Slot(tail % CAPACITY, k) == Slot(head, n + k)
    ensures forall k :: 0 <= k < n ==> OffBatch(Slot(head, k), tail % CAPACITY, num, prewrap)
  {
    TailSlot(tail, head);
    var t := tail % CAPACITY;
    forall k: nat {:trigger Slot(t, k)} | k < num ensures Slot(t, k) == Slot(head, n + k) {
      ModShift(head + n, t, k);
    }
    forall k | 0 <= k < n ensures OffBatch(Slot(head, k), t, num, prewrap) {
      BeforeTail(head, n, k, t);
    }
  }

  predicate OffBatch(i: nat, t: nat, num: nat, prewrap: nat) {
    !(t <= i < t + prewrap) && !(i < num - prewrap)
  }

  lemma BatchSlot(t: nat, num: nat, prewrap: nat, k: nat)
    requires t < CAPACITY && k < num <= CAPACITY
    requires prewrap == Min(num, CAPACITY - t)
    ensures Slot(t, k) == if k < prewrap then t + k else k - prewrap
  {
  }

  /** Slots of the window seen from the tail's slot. */
  lemma BeforeTail(head: nat, n: nat, k: nat, t: nat)
    requires (head + n) % CAPACITY == t && k < n <= CAPACITY
    ensures Slot(head, k) == if n - k <= t then t - (n - k) else t - (n - k) + CAPACITY
  {
  }

  /** Enqueuing bytes one by one until the queue is full. */
  function EnqueueEach(contents: seq<byte>, src: seq<byte>): seq<byte>
    decreases |src|
  {
    if src == [] then contents
    else EnqueueEach(if |contents| < CAPACITY then contents + [src[0]] else contents, src[1..])
  }

  /** A batch has the effect of that many single enqueues, those that find the queue
      full failing. */
  lemma {:induction false} BatchIsSingles(contents: seq<byte>, src: seq<byte>)
    requires |contents| <= CAPACITY
    ensures EnqueueEach(contents, src) == contents + src[..Min(|src|, CAPACITY - |contents|)]
    decreases |src|
  {
    if src == [] {
      assert contents + src[..0] == contents;
    } else if |contents| < CAPACITY {
      BatchIsSingles(contents + [src[0]], src[1..]);
      var n := Min(|src|, CAPACITY - |contents|);
      assert [src[0]] + src[1..][..n - 1] == src[..n];
    } else {
      BatchIsSingles(contents, src[1..]);
      assert contents + src[1..][..0] == contents == contents + src[..0];
    }
  }
}

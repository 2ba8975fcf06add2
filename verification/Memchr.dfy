/**
 memchr of src/util.c: a scan that goes a word at a time where it can. An address
 is an index into the memory.
 */
module Memchr {
  import opened Options
  import opened Words

  /** The place of the first byte equal to `c` in m[from..end], or `end`. */
  function FirstByte(m: seq<bv8>, from: nat, end: nat, c: bv8): (r: nat)
    requires from <= end <= |m|
    ensures from <= r <= end
    ensures r < end ==> m[r] == c
    ensures forall k :: from <= k < r ==> m[k] != c
    decreases end - from
  {
    if from == end || m[from] == c then from else FirstByte(m, from + 1, end, c)
  }

  lemma {:induction false} FirstByteSkip(m: seq<bv8>, from: nat, mid: nat, end: nat, c: bv8)
    requires from <= mid <= end <= |m| && forall k :: from <= k < mid ==> m[k] != c
    ensures FirstByte(m, from, end, c) == FirstByte(m, mid, end, c)
    decreases mid - from
  {
  }

  /** An aligned word read; all eight bytes must lie in the region searched. */
  method ReadWord(m: seq<bv8>, a: nat, ghost from: nat, ghost end: nat) returns (w: bv64)
    requires a % 8 == 0 && from <= a && a + 8 <= end <= |m|
    ensures ByteOf(w, 0) == m[a] && ByteOf(w, 1) == m[a + 1] && ByteOf(w, 2) == m[a + 2] && ByteOf(w, 3) == m[a + 3]
    ensures ByteOf(w, 4) == m[a + 4] && ByteOf(w, 5) == m[a + 5] && ByteOf(w, 6) == m[a + 6] && ByteOf(w, 7) == m[a + 7]
  {
    PackBytes(m[a], m[a + 1], m[a + 2], m[a + 3], m[a + 4], m[a + 5], m[a + 6], m[a + 7]);
    w := Pack(m[a], m[a + 1], m[a + 2], m[a + 3], m[a + 4], m[a + 5], m[a + 6], m[a + 7]);
  }

  method ReadByte(m: seq<bv8>, a: nat, ghost from: nat, ghost end: nat) returns (b: bv8)
    requires from <= a < end <= |m|
    ensures b == m[a]
  {
    b := m[a];
  }

  method SplatWord(c: bv8) returns (k: bv64)
    ensures k == ONES * (c as bv64) && IsSplat(k, c)
  {
    Splat(c);
    k := ONES * (c as bv64);
  }

  /** The word loop: passes over whole words without the byte. */
  method SkipWords(m: seq<bv8>, s0: nat, n0: nat, c: bv8, ghost src: nat) returns (s: nat, n: nat)
    requires s0 % 8 == 0 && src <= s0 && s0 + n0 <= |m|
    ensures s0 <= s && s + n == s0 + n0
    ensures forall k :: s0 <= k < s ==> m[k] != c
  {
    s, n := s0, n0;
    var k := SplatWord(c);
    while n >= 8
      invariant s % 8 == 0 && s0 <= s && s + n == s0 + n0
      invariant forall k :: s0 <= k < s ==> m[k] != c
    {
      var w := ReadWord(m, s, src, s0 + n0);
      WordTest(w, k, c);
      if HasZero(w ^ k) != 0 { break; }
      s, n := s + 8, n - 8;
    }
  }

  /** Finds the first byte equal to the low byte of `c` among the n bytes at src,
      reading nothing outside them. */
  method Memchr(m: seq<bv8>, src: nat, c: bv8, n0: nat) returns (r: Option<nat>)
    requires src + n0 <= |m|
    ensures var first := FirstByte(m, src, src + n0, c);
            r == if first < src + n0 then Some(first) else None
  {
    var s: nat := src;
    var n: nat := n0;
    ghost var end := src + n0;
    while s % 8 != 0 && n != 0
      invariant src <= s && s + n == end
      invariant forall k :: src <= k < s ==> m[k] != c
      decreases n
    {
      var b := ReadByte(m, s, src, end);
      if b == c { break; }
      s, n := s + 1, n - 1;
    }
    if n != 0 {
      var b := ReadByte(m, s, src, end);
      if b != c {
        s, n := SkipWords(m, s, n, c, src);
        while n != 0
          invariant src <= s && s + n == end
          invariant forall k :: src <= k < s ==> m[k] != c
          decreases n
        {
          b := ReadByte(m, s, src, end);
          if b == c { break; }
          s, n := s + 1, n - 1;
        }
      }
    }
    FirstByteSkip(m, src, s, end, c);
    return if n != 0 then Some(s) else None;
  }
}

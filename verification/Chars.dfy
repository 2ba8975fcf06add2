/** Characters of the remote serial protocol, and texts of them. */
module Chars {
  import opened Words

  const NUL: byte := 0
  const DOLLAR: byte := 36
  const HASH: byte := 35
  const PLUS: byte := 43
  const MINUS: byte := 45
  const COLON: byte := 58
  const DOT: byte := 46

  // Size of the packet buffers.
  const BUFSIZE := 2048

  /** The bytes of a text in ASCII. */
  function Ascii(s: string): (r: seq<byte>)
    requires forall k :: 0 <= k < |s| ==> s[k] < 128 as char
    ensures |r| == |s| && forall k :: 0 <= k < |s| ==> r[k] == s[k] as int
  {
    seq(|s|, k requires 0 <= k < |s| => s[k] as int)
  }

  /** The buffer starts with a C string of these characters. */
  predicate IsString(buf: seq<byte>, text: seq<byte>) {
    |text| < |buf| && buf[..|text|] == text && buf[|text|] == NUL && NUL !in text
  }

  lemma Associate(a: seq<byte>, b: seq<byte>, c: seq<byte>)
    ensures (a + b) + c == a + (b + c)
  {
  }
}

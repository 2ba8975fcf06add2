/**
 The number a thread id stands for, and the number parse_thread_id reads (src/gdb.c):
 pairs of digits go into an int lowest byte first, and an odd last digit is dropped.
 */
module IdDigits {
  import opened Words
  import opened Chars
  import opened Hex
  import opened ThreadIds

  const ZERO_DIGIT: byte := 48

  predicate AllHex(digits: seq<byte>) {
    forall k :: 0 <= k < |digits| ==> IsHex(digits[k])
  }

  /** As many hex digits as the parser's int has room for. */
  predicate IsId(digits: seq<byte>) {
    1 <= |digits| <= MAX_ID_DIGITS && AllHex(digits)
  }

  /** What the parser makes of an id, into a zeroed int. */
  function IdOf(digits: seq<byte>): int
    requires digits != []
  {
    IdValue(digits + [NUL], 0, |digits|, 0)
  }

  /** The whole pairs of digits, last pair first. */
  function Swapped(digits: seq<byte>): (r: seq<byte>)
    ensures |r| <= |digits| <= |r| + 1
  {
    if |digits| < 2 then [] else Swapped(digits[2..]) + digits[..2]
  }

  predicate SameDigits(a: seq<byte>, b: seq<byte>) {
    |a| == |b| && forall k :: 0 <= k < |a| ==> HexcharToInt(a[k]) == HexcharToInt(b[k])
  }

  predicate AllZero(digits: seq<byte>) {
    forall k :: 0 <= k < |digits| ==> digits[k] == ZERO_DIGIT
  }

  /** The ids the parser gets right: a single digit; whole pairs that read the same in
      both orders, and fit a signed int; or nothing but zeros. */
  predicate RightId(digits: seq<byte>)
    requires IsId(digits)
  {
    || |digits| == 1
    || AllZero(digits)
    || (|digits| % 2 == 0 && SameDigits(digits, Swapped(digits)) && Number(digits) < 0x8000_0000)
  }

  // ---------------------------------------------------------------------------
  // Numbers

  lemma {:induction false} NumberBound(digits: seq<byte>)
    requires AllHex(digits)
    ensures Number(digits) < Power(|digits|)
  {
    if digits != [] {
      NumberBound(digits[..|digits| - 1]);
    }
  }

  /** 16 to the power of n. */
  function Power(n: nat): nat {
    if n == 0 then 1 else 16 * Power(n - 1)
  }

  /** Texts of one length stand for the same number exactly when all their digits agree. */
  lemma {:induction false} NumberInjective(a: seq<byte>, b: seq<byte>)
    requires AllHex(a) && AllHex(b) && |a| == |b|
    ensures Number(a) == Number(b) <==> SameDigits(a, b)
  {
    if a != [] {
      var n := |a| - 1;
      NumberInjective(a[..n], b[..n]);
      assert IsHex(a[n]) && IsHex(b[n]);
      LastDigit(Number(a[..n]), HexcharToInt(a[n]), Number(b[..n]), HexcharToInt(b[n]));
      SameDigitsNext(a, b, n);
    }
  }

  lemma LastDigit(x: nat, c: int, y: nat, d: int)
    requires 0 <= c < 16 && 0 <= d < 16
    ensures 16 * x + c == 16 * y + d <==> x == y && c == d
  {
  }

  lemma SameDigitsNext(a: seq<byte>, b: seq<byte>, n: nat)
    requires |a| == |b| == n + 1
    ensures SameDigits(a, b) <==> SameDigits(a[..n], b[..n]) && HexcharToInt(a[n]) == HexcharToInt(b[n])
  {
    if SameDigits(a[..n], b[..n]) && HexcharToInt(a[n]) == HexcharToInt(b[n]) {
      forall k | 0 <= k <= n ensures HexcharToInt(a[k]) == HexcharToInt(b[k]) {
        assert k < n ==> a[..n][k] == a[k] && b[..n][k] == b[k];
      }
    }
    if SameDigits(a, b) {
      forall k | 0 <= k < n ensures HexcharToInt(a[..n][k]) == HexcharToInt(b[..n][k]) {
        assert a[..n][k] == a[k] && b[..n][k] == b[k];
      }
    }
  }

  lemma NumberPair(digits: seq<byte>, hi: byte, lo: byte)
    requires AllHex(digits) && IsHex(hi) && IsHex(lo)
    ensures Number(digits + [hi, lo]) == 256 * Number(digits) + PairByte(hi, lo)
  {
    var all := digits + [hi, lo];
    assert all[..|all| - 1] == digits + [hi];
    assert (digits + [hi])[..|digits|] == digits;
  }

  lemma {:induction false} LeadingZero(digits: seq<byte>)
    requires AllHex(digits)
    ensures Number([ZERO_DIGIT] + digits) == Number(digits)
  {
    var all := [ZERO_DIGIT] + digits;
    if digits == [] {
      assert all[..0] == [];
    } else {
      var n := |digits| - 1;
      assert all[..|all| - 1] == [ZERO_DIGIT] + digits[..n];
      LeadingZero(digits[..n]);
    }
  }

  // ---------------------------------------------------------------------------
  // What the parser reads

  lemma {:induction false} SwappedHex(digits: seq<byte>)
    requires AllHex(digits)
    ensures AllHex(Swapped(digits))
  {
    if |digits| >= 2 {
      SwappedHex(digits[2..]);
    }
  }

  /** The bytes stored lowest first are the number of the pairs, last pair first. */
  lemma {:induction false} OverlaidIsSwapped(text: seq<byte>, k: nat, digits: seq<byte>, pairs: nat)
    requires AllHex(digits) && |digits| == 2 * pairs && k + |digits| <= |text| && text[k..k + |digits|] == digits
    ensures AllHex(Swapped(digits)) && Overlaid(text, k, pairs, 0) == Number(Swapped(digits))
    decreases |digits|
  {
    SwappedHex(digits);
    if digits != [] {
      var rest := digits[2..];
      assert text[k] == digits[0] && text[k + 1] == digits[1];
      assert text[k + 2..k + 2 + |rest|] == rest;
      OverlaidIsSwapped(text, k + 2, rest, pairs - 1);
      assert digits[..2] == [digits[0], digits[1]];
      NumberPair(Swapped(rest), digits[0], digits[1]);
    }
  }

  lemma {:induction false} SwappedLength(digits: seq<byte>)
    ensures |digits| == if |digits| % 2 == 0 then |Swapped(digits)| else |Swapped(digits)| + 1
  {
    if |digits| >= 2 {
      SwappedLength(digits[2..]);
    }
  }

  lemma {:induction false} SwappedPairs(digits: seq<byte>)
    requires |digits| % 2 == 1
    ensures Swapped(digits) == Swapped(digits[..|digits| - 1])
  {
    if |digits| > 1 {
      var n := |digits| - 1;
      SwappedPairs(digits[2..]);
      assert digits[2..][..n - 2] == digits[..n][2..];
      assert digits[..n][..2] == digits[..2];
    }
  }

  /** In closed form: one digit's value, or the number of the swapped pairs as an int. */
  lemma IdOfIs(digits: seq<byte>)
    requires IsId(digits)
    ensures AllHex(Swapped(digits)) && Number(Swapped(digits)) < 0x1_0000_0000
    ensures IdOf(digits) ==
            if |digits| == 1 then Number(digits)
            else if Number(Swapped(digits)) < 0x8000_0000 then Number(Swapped(digits))
            else Number(Swapped(digits)) - 0x1_0000_0000
  {
    if |digits| == 1 {
      SingleDigit(digits);
    } else if |digits| % 2 == 0 {
      ManyDigits(digits, |digits| / 2);
    } else {
      ManyDigits(digits, (|digits| - 1) / 2);
    }
  }

  lemma SingleDigit(digits: seq<byte>)
    requires IsId(digits) && |digits| == 1
    ensures IdOf(digits) == Number(digits) && Swapped(digits) == []
  {
    assert digits[..0] == [];
  }

  lemma ManyDigits(digits: seq<byte>, pairs: nat)
    requires AllHex(digits) && 2 * pairs <= |digits| <= 2 * pairs + 1 && 1 <= pairs <= 4
    ensures AllHex(Swapped(digits)) && Number(Swapped(digits)) < 0x1_0000_0000
    ensures IdOf(digits) ==
            if Number(Swapped(digits)) < 0x8000_0000 then Number(Swapped(digits))
            else Number(Swapped(digits)) - 0x1_0000_0000
  {
    PairsRead(digits, pairs);
    IdOfPairs(digits, pairs);
    SwappedBound(Swapped(digits));
    if pairs < 4 {
      SmallIds(Swapped(digits), pairs);
    } else {
      IntOfWord(Number(Swapped(digits)));
    }
  }

  lemma IdOfPairs(digits: seq<byte>, pairs: nat)
    requires digits != [] && 2 * pairs <= |digits| <= 2 * pairs + 1 && 1 <= pairs <= 4
    ensures IdOf(digits) == var v := Overlaid(digits + [NUL], 0, pairs, 0); if pairs < 4 then v else ToInt(v)
  {
    assert (|digits| - 0) / 2 == pairs;
  }

  lemma IntOfWord(v: nat)
    requires v < 0x1_0000_0000
    ensures ToInt(v) == if v < 0x8000_0000 then v else v - 0x1_0000_0000
  {
  }

  lemma PairsRead(digits: seq<byte>, pairs: nat)
    requires AllHex(digits) && 2 * pairs <= |digits| <= 2 * pairs + 1
    ensures AllHex(Swapped(digits)) && |Swapped(digits)| == 2 * pairs
    ensures Overlaid(digits + [NUL], 0, pairs, 0) == Number(Swapped(digits))
  {
    SwappedLength(digits);
    var whole := digits[..2 * pairs];
    if |digits| == 2 * pairs {
      assert whole == digits;
    } else {
      SwappedPairs(digits);
    }
    assert (digits + [NUL])[0..0 + |whole|] == whole;
    OverlaidIsSwapped(digits + [NUL], 0, whole, pairs);
  }

  lemma SwappedBound(digits: seq<byte>)
    requires AllHex(digits) && |digits| <= 8
    ensures Number(digits) < 0x1_0000_0000
  {
    NumberBound(digits);
    PowerUpTo(|digits|, 8);
    assert Power(8) == 0x1_0000_0000 by {
      assert Power(2) == 0x100 && Power(4) == 0x1_0000 && Power(6) == 0x100_0000;
    }
  }

  lemma SmallIds(digits: seq<byte>, pairs: nat)
    requires AllHex(digits) && |digits| == 2 * pairs && pairs < 4
    ensures Number(digits) < 0x100_0000
  {
    NumberBound(digits);
    PowerUpTo(|digits|, 6);
    assert Power(6) == 0x100_0000 by {
      assert Power(2) == 0x100 && Power(4) == 0x1_0000;
    }
  }

  lemma {:induction false} PowerUpTo(m: nat, n: nat)
    requires m <= n
    ensures Power(m) <= Power(n)
  {
    if m < n {
      PowerUpTo(m, n - 1);
    }
  }

  /** The parser reads the number of an id exactly when it is one it gets right. */
  lemma IdIsNumber(digits: seq<byte>)
    requires IsId(digits)
    ensures IdOf(digits) == Number(digits) <==> RightId(digits)
  {
    IdOfIs(digits);
    ZeroNumber(digits);
    if AllZero(digits) {
      ZeroSwapped(digits);
      ZeroNumber(Swapped(digits));
    }
    if |digits| > 1 {
      SwappedLength(digits);
      if |digits| % 2 == 0 {
        NumberInjective(digits, Swapped(digits));
      } else {
        OddId(digits);
      }
    }
  }

  lemma {:induction false} ZeroNumber(digits: seq<byte>)
    requires AllHex(digits)
    ensures AllZero(digits) <==> Number(digits) == 0
  {
    if digits != [] {
      var n := |digits| - 1;
      ZeroNumber(digits[..n]);
      assert IsHex(digits[n]);
      ZeroDigit(digits[n]);
      AllZeroNext(digits, n);
    }
  }

  lemma AllZeroNext(digits: seq<byte>, n: nat)
    requires |digits| == n + 1
    ensures AllZero(digits) <==> AllZero(digits[..n]) && digits[n] == ZERO_DIGIT
  {
    if AllZero(digits[..n]) {
      forall k | 0 <= k < n ensures digits[k] == ZERO_DIGIT {
        assert digits[..n][k] == digits[k];
      }
    }
  }

  lemma ZeroDigit(c: byte)
    ensures HexcharToInt(c) == 0 <==> c == ZERO_DIGIT
  {
  }

  lemma {:induction false} ZeroSwapped(digits: seq<byte>)
    requires AllZero(digits)
    ensures AllZero(Swapped(digits))
  {
    if |digits| >= 2 {
      ZeroSwapped(digits[2..]);
    }
  }

  /** An odd number of digits, more than one, is read right only if all are zero. */
  lemma OddId(digits: seq<byte>)
    requires IsId(digits) && |digits| == |Swapped(digits)| + 1 && |digits| > 1
    requires AllHex(Swapped(digits))
    ensures Number(digits) == Number(Swapped(digits)) <==> AllZero(digits)
  {
    var padded := [ZERO_DIGIT] + Swapped(digits);
    LeadingZero(Swapped(digits));
    NumberInjective(digits, padded);
    if AllZero(digits) {
      ZeroSwapped(digits);
      ZeroNumber(digits);
      ZeroNumber(Swapped(digits));
    } else if SameDigits(digits, padded) {
      OddChain(digits);
    }
  }

  /** Read right, digit after digit equals one further to the front, and the first of
      them is the zero the odd digit leaves. */
  lemma OddChain(digits: seq<byte>)
    requires IsId(digits) && |Swapped(digits)| + 1 == |digits| && |digits| > 1
    requires SameDigits(digits, [ZERO_DIGIT] + Swapped(digits))
    ensures AllZero(digits)
  {
    SwappedLength(digits);
    OddSizes(|digits|);
    var values := seq(|digits|, k requires 0 <= k < |digits| => HexcharToInt(digits[k]));
    ChainStep(digits, 0);
    if |digits| > 3 { ChainStep(digits, 1); }
    if |digits| > 5 { ChainStep(digits, 2); }
    if |digits| > 7 { ChainStep(digits, 3); }
    Zeros(values);
    forall k | 0 <= k < |digits| ensures digits[k] == ZERO_DIGIT {
      assert values[k] == 0;
      ZeroDigit(digits[k]);
    }
  }

  lemma OddSizes(n: nat)
    requires 1 < n <= 9 && n % 2 == 1
    ensures n == 3 || n == 5 || n == 7 || n == 9
  {
  }

  lemma Zeros(v: seq<int>)
    requires |v| == 3 || |v| == 5 || |v| == 7 || |v| == 9
    requires v[0] == 0 && v[1] == v[|v| - 3] && v[2] == v[|v| - 2]
    requires |v| > 3 ==> v[3] == v[|v| - 5] && v[4] == v[|v| - 4]
    requires |v| > 5 ==> v[5] == v[|v| - 7] && v[6] == v[|v| - 6]
    requires |v| > 7 ==> v[7] == v[|v| - 9] && v[8] == v[|v| - 8]
    ensures forall k :: 0 <= k < |v| ==> v[k] == 0
  {
  }

  lemma ChainStep(digits: seq<byte>, q: nat)
    requires |Swapped(digits)| + 1 == |digits| && |Swapped(digits)| % 2 == 0 && 2 * q + 2 < |digits|
    requires SameDigits(digits, [ZERO_DIGIT] + Swapped(digits))
    ensures HexcharToInt(digits[2 * q + 1]) == HexcharToInt(digits[|digits| - 3 - 2 * q])
    ensures HexcharToInt(digits[2 * q + 2]) == HexcharToInt(digits[|digits| - 2 - 2 * q])
  {
    SwappedAt(digits, q);
    BehindZero(digits, Swapped(digits), 2 * q);
    BehindZero(digits, Swapped(digits), 2 * q + 1);
  }

  lemma BehindZero(a: seq<byte>, b: seq<byte>, k: nat)
    requires SameDigits(a, [ZERO_DIGIT] + b) && k < |b|
    ensures HexcharToInt(a[k + 1]) == HexcharToInt(b[k])
  {
    assert ([ZERO_DIGIT] + b)[k + 1] == b[k];
  }

  /** Pair number q from the end stands at pair number q. */
  lemma {:induction false} SwappedAt(digits: seq<byte>, q: nat)
    requires |Swapped(digits)| % 2 == 0 && 2 * q + 1 < |Swapped(digits)|
    ensures var m := |Swapped(digits)|;
            && Swapped(digits)[2 * q] == digits[m - 2 - 2 * q]
            && Swapped(digits)[2 * q + 1] == digits[m - 1 - 2 * q]
  {
    if 2 * q + 3 < |Swapped(digits)| {
      SwappedAt(digits[2..], q);
    }
  }

  // ---------------------------------------------------------------------------
  // By number of digits

  /** One or two digits are always read right; three never are, unless zero. */
  lemma ShortIds(digits: seq<byte>)
    requires IsId(digits) && |digits| <= 3
    ensures IdOf(digits) == Number(digits) <==> |digits| <= 2 || AllZero(digits)
  {
    IdIsNumber(digits);
    if |digits| == 2 {
      assert Swapped(digits) == digits by {
        assert digits[2..] == [] && digits[..2] == digits;
      }
      NumberBound(digits);
      assert Power(2) == 256;
    }
  }

  lemma NumberOfOne(a: byte)
    requires IsHex(a)
    ensures Number([a]) == HexcharToInt(a)
  {
    assert [a][..0] == [];
  }

  lemma NumberOfThree(a: byte, b: byte, c: byte)
    requires IsHex(a) && IsHex(b) && IsHex(c)
    ensures Number([a, b, c]) == 256 * HexcharToInt(a) + PairByte(b, c)
  {
    NumberOfOne(a);
    assert [a, b, c] == [a] + [b, c];
    NumberPair([a], b, c);
  }

  lemma NumberOfTwo(a: byte, b: byte)
    requires IsHex(a) && IsHex(b)
    ensures Number([a, b]) == 16 * HexcharToInt(a) + HexcharToInt(b)
  {
    NumberPair([], a, b);
    assert [] + [a, b] == [a, b];
  }

  /** Thread 256, which the tables have room for, is read as thread 16. */
  lemma Thread256()
    ensures IsId([49, 48, 48]) && Number([49, 48, 48]) == 256 && IdOf([49, 48, 48]) == 16
  {
    NumberOfThree(49, 48, 48);
    NumberOfTwo(49, 48);
    var three: seq<byte> := [49, 48, 48];
    assert three[2..] == [48] && three[..2] == [49, 48];
    assert Swapped([48]) == [];
    assert Swapped(three) == [49, 48];
    IdOfIs(three);
  }
}

/** The checksum in numbers: what the PTC client computes is the usual arithmetic on 32-bit numbers, with
    the preset 0xffffffff and the polynomial 0x04c11db7, each byte's most significant bit first. */
module Crc32Numbers {
  import opened Bytes
  import opened Crc32

  // ---------------------------------------------------------------- bits and numbers

  /** Bit `i` of `n`, the most significant being bit 0 */
  lemma {:induction false} BitOfNumber(v: nat, n: nat, i: nat)
    requires i < n
    ensures BitsOf(v, n)[i] <==> v / Pow2(n - 1 - i) % 2 == 1
  {
    if i < n - 1 {
      BitOfNumber(v / 2, n - 1, i);
      HalfThenMore(v, Pow2(n - 2 - i));
    }
  }

  lemma HalfThenMore(v: nat, p: nat)
    requires p > 0
    ensures v / 2 / p == v / (2 * p)
  {
    var q, m := v / 2 / p, v / 2 % p;
    assert v / 2 == q * p + m;
    assert v == q * (2 * p) + (2 * m + v % 2);
    Quotient(v, 2 * p, q, 2 * m + v % 2);
  }

  lemma Quotient(v: nat, d: nat, q: nat, m: nat)
    requires d > 0 && v == q * d + m && m < d
    ensures v / d == q
  {
    var a, b := v / d, v % d;
    assert v == a * d + b;
    assert (a - q) * d == a * d - q * d;
    NoMultiple(a - q, d);
  }

  lemma NoMultiple(k: int, d: int)
    requires -d < k * d < d
    ensures k == 0
  {
  }

  function Bit(b: bool): nat { if b then 1 else 0 }

  lemma PrefixMore(w: seq<bool>, m: nat)
    requires m < |w|
    ensures ValueOf(w[..m + 1]) == 2 * ValueOf(w[..m]) + Bit(w[m])
  {
    assert w[..m + 1][..m] == w[..m];
  }

  /** Hexadecimal digit `k` of some bits */
  function Digit(w: seq<bool>, k: nat): nat
    requires 4 * k + 4 <= |w|
  {
    8 * Bit(w[4 * k]) + 4 * Bit(w[4 * k + 1]) + 2 * Bit(w[4 * k + 2]) + Bit(w[4 * k + 3])
  }

  lemma TwoMore(w: seq<bool>, m: nat)
    requires m + 2 <= |w|
    ensures ValueOf(w[..m + 2]) == 4 * ValueOf(w[..m]) + 2 * Bit(w[m]) + Bit(w[m + 1])
  {
    PrefixMore(w, m);
    PrefixMore(w, m + 1);
  }

  lemma DigitMore(w: seq<bool>, k: nat)
    requires 4 * k + 4 <= |w|
    ensures ValueOf(w[..4 * k + 4]) == 16 * ValueOf(w[..4 * k]) + Digit(w, k)
  {
    TwoMore(w, 4 * k);
    TwoMore(w, 4 * k + 2);
  }

  /** Four digits from digit `k` on */
  function Digits(w: Word, k: nat): nat
    requires k <= 4
  {
    0x1000 * Digit(w, k) + 0x100 * Digit(w, k + 1) + 0x10 * Digit(w, k + 2) + Digit(w, k + 3)
  }

  lemma ValueByDigits(w: Word)
    ensures ValueOf(w) == 0x1_0000 * Digits(w, 0) + Digits(w, 4)
  {
    assert w[..0] == [] && w[..32] == w;
    DigitMore(w, 0);
    DigitMore(w, 1);
    DigitMore(w, 2);
    DigitMore(w, 3);
    DigitMore(w, 4);
    DigitMore(w, 5);
    DigitMore(w, 6);
    DigitMore(w, 7);
  }

  lemma PolynomialHigh()
    ensures Digits(POLY, 0) == 0x04c1
  {
  }

  lemma PolynomialLow()
    ensures Digits(POLY, 4) == 0x1db7
  {
  }

  lemma Polynomial()
    ensures ValueOf(POLY) == 0x04c1_1db7
  {
    PolynomialHigh();
    PolynomialLow();
    ValueByDigits(POLY);
  }

  lemma {:induction false} OnesValue(n: nat)
    ensures ValueOf(Repeat(true, n)) == Pow2(n) - 1
  {
    if n > 0 {
      OnesValue(n - 1);
      assert Repeat(true, n)[..n - 1] == Repeat(true, n - 1);
    }
  }

  lemma {:induction false} PowAdds(m: nat, n: nat)
    ensures Pow2(m + n) == Pow2(m) * Pow2(n)
  {
    if n > 0 {
      PowAdds(m, n - 1);
    }
  }

  lemma Powers()
    ensures Pow2(31) == 0x8000_0000 && Pow2(32) == U32
  {
    assert Pow2(4) == 16 && Pow2(7) == 128 && Pow2(8) == 16 * Pow2(4);
    PowAdds(8, 8);
    PowAdds(16, 8);
    PowAdds(24, 7);
  }

  // ---------------------------------------------------------------- the register in numbers

  /** Exclusive or of two numbers */
  function XorOf(a: nat, b: nat): nat {
    if a == 0 && b == 0 then 0 else 2 * XorOf(a / 2, b / 2) + if a % 2 != b % 2 then 1 else 0
  }

  lemma {:induction false} XorValue(a: seq<bool>, b: seq<bool>)
    requires |a| == |b|
    ensures ValueOf(Xor(a, b)) == XorOf(ValueOf(a), ValueOf(b))
    decreases |a|
  {
    if a != [] {
      var n := |a| - 1;
      XorValue(a[..n], b[..n]);
      assert Xor(a, b)[..n] == Xor(a[..n], b[..n]);
      XorMore(Xor(a, b), a, b, ValueOf(a[..n]), ValueOf(b[..n]));
    }
  }

  lemma XorMore(c: seq<bool>, a: seq<bool>, b: seq<bool>, x: nat, y: nat)
    requires |a| == |b| == |c| > 0 && c[|c| - 1] == (a[|a| - 1] != b[|b| - 1])
    requires x == ValueOf(a[..|a| - 1]) && y == ValueOf(b[..|b| - 1]) && ValueOf(c[..|c| - 1]) == XorOf(x, y)
    ensures ValueOf(c) == XorOf(ValueOf(a), ValueOf(b))
  {
    XorOfDoubled(x, a[|a| - 1], y, b[|b| - 1]);
  }

  lemma XorOfDoubled(a: nat, x: bool, b: nat, y: bool)
    ensures XorOf(2 * a + Bit(x), 2 * b + Bit(y)) == 2 * XorOf(a, b) + Bit(x != y)
  {
  }

  /** One clock: shift within 32 bits, and take the polynomial off if the bit shifted out and the incoming
      bit differ. */
  function Feed(v: nat, bit: bool): nat {
    if (v >= 0x8000_0000) != bit then XorOf(2 * v % U32, 0x04c1_1db7) else 2 * v % U32
  }

  lemma {:induction false} TopBit(w: seq<bool>)
    requires w != []
    ensures ValueOf(w) == (if w[0] then Pow2(|w| - 1) else 0) + ValueOf(w[1..])
    decreases |w|
  {
    var n := |w| - 1;
    if n > 0 {
      TopBit(w[..n]);
      assert w[1..][..n - 1] == w[..n][1..];
    }
  }

  lemma ShiftValue(w: Word)
    ensures ValueOf(Shl(w, 1)) == 2 * ValueOf(w) % U32
    ensures w[0] <==> ValueOf(w) >= 0x8000_0000
  {
    Powers();
    TopBit(w);
    assert Shl(w, 1)[..31] == w[1..];
  }

  lemma ClockInNumbers(w: Word, bit: bool)
    ensures ValueOf(Clock(w, bit)) == Feed(ValueOf(w), bit)
  {
    ShiftValue(w);
    Polynomial();
    XorValue(Shl(w, 1), POLY);
  }

  function FeedBits(v: nat, bits: seq<bool>): nat
    decreases |bits|
  {
    if bits == [] then v else FeedBits(Feed(v, bits[0]), bits[1..])
  }

  lemma {:induction false} BitsInNumbers(w: Word, bits: seq<bool>)
    ensures ValueOf(Divide(w, bits)) == FeedBits(ValueOf(w), bits)
    decreases |bits|
  {
    if bits != [] {
      ClockInNumbers(w, bits[0]);
      BitsInNumbers(Clock(w, bits[0]), bits[1..]);
    }
  }

  /** The bits of a byte, the most significant first */
  function BitsOfByte(b: nat): seq<bool> {
    [b / 128 % 2 == 1, b / 64 % 2 == 1, b / 32 % 2 == 1, b / 16 % 2 == 1,
     b / 8 % 2 == 1, b / 4 % 2 == 1, b / 2 % 2 == 1, b % 2 == 1]
  }

  lemma ByteBitAt(b: nat, i: nat, p: nat)
    requires i < 8 && p == Pow2(7 - i)
    ensures ByteBits(b)[i] <==> b / p % 2 == 1
  {
    BitOfNumber(b, 8, i);
  }

  lemma SmallPowers()
    ensures Pow2(0) == 1 && Pow2(1) == 2 && Pow2(2) == 4 && Pow2(3) == 8
    ensures Pow2(4) == 16 && Pow2(5) == 32 && Pow2(6) == 64 && Pow2(7) == 128
  {
  }

  lemma ByteInBits(b: nat)
    ensures ByteBits(b) == BitsOfByte(b)
  {
    SmallPowers();
    ByteBitAt(b, 0, 128);
    ByteBitAt(b, 1, 64);
    ByteBitAt(b, 2, 32);
    ByteBitAt(b, 3, 16);
    ByteBitAt(b, 4, 8);
    ByteBitAt(b, 5, 4);
    ByteBitAt(b, 6, 2);
    ByteBitAt(b, 7, 1);
  }

  function FeedAll(v: nat, msg: seq<byte>): nat
    decreases |msg|
  {
    if msg == [] then v else FeedAll(FeedBits(v, BitsOfByte(msg[0] as nat)), msg[1..])
  }

  lemma {:induction false} MessageInNumbers(w: Word, msg: seq<byte>)
    ensures ValueOf(Divide(w, Bits(msg))) == FeedAll(ValueOf(w), msg)
    decreases |msg|
  {
    if msg != [] {
      var bits := ByteBits(msg[0] as nat);
      DivideConcat(w, bits, Bits(msg[1..]));
      ByteInBits(msg[0] as nat);
      BitsInNumbers(w, bits);
      MessageInNumbers(Divide(w, bits), msg[1..]);
    }
  }

  /** For every message, the checksum is that of the arithmetic on numbers. */
  lemma ChecksumInNumbers(msg: seq<byte>)
    ensures ValueOf(Checksum(msg)) == FeedAll(0xffff_ffff, msg)
  {
    OnesValue(32);
    Powers();
    MessageInNumbers(PRESET, msg);
  }

  // ---------------------------------------------------------------- a zero byte

  // Words in halves: the bits that are set, clocked with one zero bit after the other

  const POLY_HIGH: seq<bool> :=
    [false, false, false, false, false, true, false, false, true, true, false, false, false, false, false, true]

  const POLY_LOW: seq<bool> :=
    [false, false, false, true, true, true, false, true, true, false, true, true, false, true, true, true]

  const HIGH0: seq<bool> :=
    [true, true, true, true, true, true, true, true, true, true, true, true, true, true, true, true]

  const LOW0: seq<bool> :=
    [true, true, true, true, true, true, true, true, true, true, true, true, true, true, true, true]

  const HIGH1: seq<bool> :=
    [true, true, true, true, true, false, true, true, false, false, true, true, true, true, true, false]

  const LOW1: seq<bool> :=
    [true, true, true, false, false, false, true, false, false, true, false, false, true, false, false, true]

  const HIGH2: seq<bool> :=
    [true, true, true, true, false, false, true, false, true, false, true, true, true, true, false, false]

  const LOW2: seq<bool> :=
    [true, true, false, true, true, false, false, true, false, false, true, false, false, true, false, true]

  const HIGH3: seq<bool> :=
    [true, true, true, false, false, false, false, true, true, false, true, true, true, false, false, false]

  const LOW3: seq<bool> :=
    [true, false, true, false, true, true, true, true, true, true, true, true, true, true, false, true]

  const HIGH4: seq<bool> :=
    [true, true, false, false, false, true, true, true, true, false, true, true, false, false, false, false]

  const LOW4: seq<bool> :=
    [false, true, false, false, false, false, true, false, false, true, false, false, true, true, false, true]

  const HIGH5: seq<bool> :=
    [true, false, false, false, true, false, true, true, true, false, true, false, false, false, false, true]

  const LOW5: seq<bool> :=
    [true, false, false, true, true, false, false, true, false, false, true, false, true, true, false, true]

  const HIGH6: seq<bool> :=
    [false, false, false, true, false, false, true, true, true, false, false, false, false, false, true, false]

  const LOW6: seq<bool> :=
    [false, false, true, false, true, true, true, true, true, true, true, false, true, true, false, true]

  const HIGH7: seq<bool> :=
    [false, false, true, false, false, true, true, true, false, false, false, false, false, true, false, false]

  const LOW7: seq<bool> :=
    [false, true, false, true, true, true, true, true, true, true, false, true, true, false, true, false]

  const HIGH8: seq<bool> :=
    [false, true, false, false, true, true, true, false, false, false, false, false, true, false, false, false]

  const LOW8: seq<bool> :=
    [true, false, true, true, true, true, true, true, true, false, true, true, false, true, false, false]

  /** A half of the register after a clock with feedback, `next` being the bit that follows the half */
  predicate HalfClocked(half: seq<bool>, next: bool, taps: seq<bool>, feedback: bool, after: seq<bool>)
    requires |half| == |taps| == |after| == 16
  {
    && (forall i :: 0 <= i < 15 ==> after[i] == (half[i + 1] != (feedback && taps[i])))
    && after[15] == (next != (feedback && taps[15]))
  }

  lemma ClockByHalves(high: seq<bool>, low: seq<bool>, high': seq<bool>, low': seq<bool>)
    requires |high| == |low| == |high'| == |low'| == 16
    requires HalfClocked(high, low[0], POLY_HIGH, high[0], high') && HalfClocked(low, false, POLY_LOW, high[0], low')
    ensures Clock(high + low, false) == high' + low'
  {
    var crc, after := high + low, high' + low';
    assert POLY == POLY_HIGH + POLY_LOW;
    forall i | 0 <= i < 32
      ensures Clock(crc, false)[i] == after[i]
    {
    }
  }

  lemma Clocked1()
    ensures Clock(HIGH0 + LOW0, false) == HIGH1 + LOW1
  {
    ClockByHalves(HIGH0, LOW0, HIGH1, LOW1);
  }

  lemma Clocked2()
    ensures Clock(HIGH1 + LOW1, false) == HIGH2 + LOW2
  {
    ClockByHalves(HIGH1, LOW1, HIGH2, LOW2);
  }

  lemma Clocked3()
    ensures Clock(HIGH2 + LOW2, false) == HIGH3 + LOW3
  {
    ClockByHalves(HIGH2, LOW2, HIGH3, LOW3);
  }

  lemma Clocked4()
    ensures Clock(HIGH3 + LOW3, false) == HIGH4 + LOW4
  {
    ClockByHalves(HIGH3, LOW3, HIGH4, LOW4);
  }

  lemma Clocked5()
    ensures Clock(HIGH4 + LOW4, false) == HIGH5 + LOW5
  {
    ClockByHalves(HIGH4, LOW4, HIGH5, LOW5);
  }

  lemma Clocked6()
    ensures Clock(HIGH5 + LOW5, false) == HIGH6 + LOW6
  {
    ClockByHalves(HIGH5, LOW5, HIGH6, LOW6);
  }

  lemma Clocked7()
    ensures Clock(HIGH6 + LOW6, false) == HIGH7 + LOW7
  {
    ClockByHalves(HIGH6, LOW6, HIGH7, LOW7);
  }

  lemma Clocked8()
    ensures Clock(HIGH7 + LOW7, false) == HIGH8 + LOW8
  {
    ClockByHalves(HIGH7, LOW7, HIGH8, LOW8);
  }

  lemma ZeroBits(crc: Word, n: nat)
    ensures Divide(crc, Zeros(n + 1)) == Divide(Clock(crc, false), Zeros(n))
  {
    assert Zeros(n + 1)[1..] == Zeros(n);
  }

  lemma ZeroByte()
    ensures Divide(PRESET, ByteBits(0)) == HIGH8 + LOW8
  {
    ByteInBits(0);
    assert ByteBits(0) == Zeros(8);
    Clocked1();
    Clocked2();
    Clocked3();
    Clocked4();
    Clocked5();
    Clocked6();
    Clocked7();
    Clocked8();
    assert PRESET == HIGH0 + LOW0;
    ZeroBits(HIGH0 + LOW0, 7);
    ZeroBits(HIGH1 + LOW1, 6);
    ZeroBits(HIGH2 + LOW2, 5);
    ZeroBits(HIGH3 + LOW3, 4);
    ZeroBits(HIGH4 + LOW4, 3);
    ZeroBits(HIGH5 + LOW5, 2);
    ZeroBits(HIGH6 + LOW6, 1);
    ZeroBits(HIGH7 + LOW7, 0);
    assert Zeros(0) == [];
  }

  lemma HalvesValue(high: seq<bool>, low: seq<bool>)
    requires |high| == |low| == 16
    ensures ValueOf(high + low) == 0x1_0000 * DigitsOf(high) + DigitsOf(low)
  {
    ValueByDigits(high + low);
    assert forall i :: 0 <= i < 16 ==> (high + low)[i] == high[i] && (high + low)[16 + i] == low[i];
  }

  /** The number written by four digits */
  function DigitsOf(half: seq<bool>): nat
    requires |half| == 16
  {
    0x1000 * Digit(half, 0) + 0x100 * Digit(half, 1) + 0x10 * Digit(half, 2) + Digit(half, 3)
  }

  lemma ZeroByteDigits()
    ensures DigitsOf(HIGH8) == 0x4e08 && DigitsOf(LOW8) == 0xbfb4
  {
  }

  lemma ZeroByteChecksum()
    ensures Checksum([0]) == HIGH8 + LOW8
  {
    ZeroByte();
    assert [0 as byte][1..] == [];
    assert Bits([0]) == ByteBits(0) + Bits([]) == ByteBits(0);
  }

  /** Known values: of no message, and of a single zero byte */
  lemma KnownChecksums()
    ensures ValueOf(Checksum([])) == 0xffff_ffff
    ensures ValueOf(Checksum([0])) == 0x4e08_bfb4
  {
    ChecksumInNumbers([]);
    ZeroByteChecksum();
    ZeroByteDigits();
    HalvesValue(HIGH8, LOW8);
  }

  /** A zero byte put in front of any message changes the checksum. */
  lemma LeadingZeroSeen(msg: seq<byte>)
    ensures Checksum([0] + msg) != Checksum(msg)
  {
    assert ([0] + msg)[1..] == msg;
    ZeroByte();
    DivideConcat(PRESET, ByteBits(0), Bits(msg));
    assert !(HIGH8 + LOW8)[0] && PRESET[0];
    if Checksum([0] + msg) == Checksum(msg) {
      DivideInjective(HIGH8 + LOW8, PRESET, Bits(msg));
    }
  }
}

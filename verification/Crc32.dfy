/** The CRC-32 of the PTC client: polynomial 0x04c11db7, most significant bit first,
    register preset to all ones, no final inversion. This is the CRC decoder model of
    Annex A of ISO/IEC 13818-1.

    `Divide` is the bit-serial shift register and the reference. `PtcCrc` holds the
    table-driven code of the client, proved equal to it; error detection is then
    proved on the register. A `uint32_t` is the list of its 32 bits, most significant
    bit first. */
module Crc32 {
  import opened Bytes

  type Word = w: seq<bool> | |w| == 32 witness seq(32, _ => false)

  function Repeat(bit: bool, n: nat): (r: seq<bool>)
    ensures |r| == n && forall i :: 0 <= i < n ==> r[i] == bit
  {
    seq(n, _ => bit)
  }

  function Zeros(n: nat): (r: seq<bool>)
    ensures |r| == n && forall i :: 0 <= i < n ==> !r[i]
  {
    Repeat(false, n)
  }

  /** 0x04c11db7 */
  const POLY: Word :=
    [false, false, false, false, false, true, false, false,
     true, true, false, false, false, false, false, true,
     false, false, false, true, true, true, false, true,
     true, false, true, true, false, true, true, true]

  /** 0xffffffff */
  const PRESET: Word := Repeat(true, 32)

  function Xor(a: seq<bool>, b: seq<bool>): (r: seq<bool>)
    requires |a| == |b|
    ensures |r| == |a| && forall i :: 0 <= i < |a| ==> r[i] == (a[i] != b[i])
  {
    seq(|a|, i requires 0 <= i < |a| => a[i] != b[i])
  }

  function Or(a: seq<bool>, b: seq<bool>): (r: seq<bool>)
    requires |a| == |b|
    ensures |r| == |a| && forall i :: 0 <= i < |a| ==> r[i] == (a[i] || b[i])
  {
    seq(|a|, i requires 0 <= i < |a| => a[i] || b[i])
  }

  function Shl(w: Word, n: nat): Word
    requires n <= 32
  {
    w[n..] + Zeros(n)
  }

  function Shr(w: Word, n: nat): Word
    requires n <= 32
  {
    Zeros(n) + w[..32 - n]
  }

  // ---------------------------------------------------------------- reference model

  /** One clock of the shift register: the incoming bit meets the bit shifted out. */
  function Clock(crc: Word, bit: bool): Word {
    if crc[0] != bit then Xor(Shl(crc, 1), POLY) else Shl(crc, 1)
  }

  /** The register after a whole bit string. */
  function Divide(crc: Word, bits: seq<bool>): Word
    decreases |bits|
  {
    if bits == [] then crc else Divide(Clock(crc, bits[0]), bits[1..])
  }

  function Pow2(n: nat): (r: nat)
    ensures r > 0
  {
    if n == 0 then 1 else 2 * Pow2(n - 1)
  }

  /** The `n` low bits of a number, most significant first. */
  function BitsOf(v: nat, n: nat): (r: seq<bool>)
    ensures |r| == n
  {
    if n == 0 then [] else BitsOf(v / 2, n - 1) + [v % 2 == 1]
  }

  /** The number written by some bits. */
  function ValueOf(w: seq<bool>): (v: nat)
    ensures v < Pow2(|w|)
    decreases |w|
  {
    if w == [] then 0 else 2 * ValueOf(w[..|w| - 1]) + if w[|w| - 1] then 1 else 0
  }

  /** The bits of a byte in transmission order. */
  function ByteBits(b: nat): (r: seq<bool>)
    ensures |r| == 8
  {
    BitsOf(b, 8)
  }

  /** The value of eight bits, used as a table index. */
  function ByteValue(w: seq<bool>): (n: nat)
    requires |w| == 8
    ensures n < 256
  {
    assert Pow2(3) == 8 && Pow2(6) == 8 * Pow2(3) && Pow2(8) == 4 * Pow2(6);
    ValueOf(w)
  }

  function Bits(msg: seq<byte>): (r: seq<bool>)
    ensures |r| == 8 * |msg|
    decreases |msg|
  {
    if msg == [] then [] else ByteBits(msg[0] as nat) + Bits(msg[1..])
  }

  /** The checksum of a message, by bit-serial division. */
  function Checksum(msg: seq<byte>): Word {
    Divide(PRESET, Bits(msg))
  }

  lemma {:induction false} ValueOfRoundTrip(w: seq<bool>)
    ensures BitsOf(ValueOf(w), |w|) == w
    decreases |w|
  {
    if w != [] {
      var v := ValueOf(w[..|w| - 1]);
      assert ValueOf(w) / 2 == v && (ValueOf(w) % 2 == 1) == w[|w| - 1];
      ValueOfRoundTrip(w[..|w| - 1]);
      assert w == w[..|w| - 1] + [w[|w| - 1]];
    }
  }

  lemma {:induction false} BitsOfRoundTrip(v: nat, n: nat)
    requires v < Pow2(n)
    ensures ValueOf(BitsOf(v, n)) == v
  {
    if n > 0 {
      BitsOfRoundTrip(v / 2, n - 1);
      assert BitsOf(v, n)[..n - 1] == BitsOf(v / 2, n - 1);
    }
  }

  lemma ByteValueRoundTrip(w: seq<bool>)
    requires |w| == 8
    ensures ByteBits(ByteValue(w)) == w
  {
    ValueOfRoundTrip(w);
  }

  lemma ByteBitsRoundTrip(b: nat)
    requires b < 256
    ensures ByteValue(ByteBits(b)) == b
  {
    assert Pow2(3) == 8 && Pow2(6) == 8 * Pow2(3) && Pow2(8) == 4 * Pow2(6);
    BitsOfRoundTrip(b, 8);
  }

  // ---------------------------------------------------------------- algebra of the register

  lemma {:induction false} DivideConcat(crc: Word, a: seq<bool>, b: seq<bool>)
    ensures Divide(crc, a + b) == Divide(Divide(crc, a), b)
    decreases |a|
  {
    if a == [] {
      assert a + b == b;
    } else {
      assert (a + b)[1..] == a[1..] + b;
      DivideConcat(Clock(crc, a[0]), a[1..], b);
    }
  }

  lemma ClockLinear(a: Word, b: Word, x: bool, y: bool)
    ensures Clock(Xor(a, b), x != y) == Xor(Clock(a, x), Clock(b, y))
  {
  }

  /** Division is linear over exclusive-or, in the register and the message together. */
  lemma {:induction false} DivideLinear(a: Word, b: Word, u: seq<bool>, v: seq<bool>)
    requires |u| == |v|
    ensures Divide(Xor(a, b), Xor(u, v)) == Xor(Divide(a, u), Divide(b, v))
    decreases |u|
  {
    if u != [] {
      ClockLinear(a, b, u[0], v[0]);
      assert Xor(u, v)[1..] == Xor(u[1..], v[1..]);
      DivideLinear(Clock(a, u[0]), Clock(b, v[0]), u[1..], v[1..]);
    }
  }

  /** A register fed its own leading bits never takes the feedback: it only shifts. */
  lemma {:induction false} DivideOwnBits(s: Word, n: nat)
    requires n <= 32
    ensures Divide(s, s[..n]) == Shl(s, n)
    decreases n
  {
    if n == 0 {
      assert s[..0] == [];
      assert Shl(s, 0) == s;
    } else {
      assert s[..n][1..] == Shl(s, 1)[..n - 1];
      DivideOwnBits(Shl(s, 1), n - 1);
      assert Shl(Shl(s, 1), n - 1) == Shl(s, n);
    }
  }

  /** What a register does to up to 32 bits, told by the all-zero register. */
  lemma DivideFromZero(s: Word, w: seq<bool>)
    requires |w| <= 32
    ensures Divide(s, w) == Xor(Shl(s, |w|), Divide(Zeros(32), Xor(s[..|w|], w)))
  {
    var n := |w|;
    DivideLinear(s, Zeros(32), s[..n], Xor(s[..n], w));
    assert Xor(s, Zeros(32)) == s;
    assert Xor(s[..n], Xor(s[..n], w)) == w;
    DivideOwnBits(s, n);
  }

  /** The clock loses nothing: the polynomial's last bit tells whether feedback happened. */
  lemma ClockInjective(a: Word, b: Word, x: bool)
    requires Clock(a, x) == Clock(b, x)
    ensures a == b
  {
    var ca, cb := Clock(a, x), Clock(b, x);
    assert ca[31] == (a[0] != x) && cb[31] == (b[0] != x);
    forall i | 1 <= i < 32
      ensures a[i] == b[i]
    {
      assert ca[i - 1] == cb[i - 1];
      assert Shl(a, 1)[i - 1] == a[i] && Shl(b, 1)[i - 1] == b[i];
    }
  }

  lemma {:induction false} DivideInjective(a: Word, b: Word, w: seq<bool>)
    requires Divide(a, w) == Divide(b, w)
    ensures a == b
    decreases |w|
  {
    if w != [] {
      DivideInjective(Clock(a, w[0]), Clock(b, w[0]), w[1..]);
      ClockInjective(a, b, w[0]);
    }
  }

  lemma ShiftedOut(u: seq<bool>)
    requires |u| <= 32
    ensures Shl(u + Zeros(32 - |u|), |u|) == Zeros(32)
    ensures Xor(u, Zeros(|u|)) == u
  {
  }

  lemma ZeroXor(w: Word)
    ensures Xor(Zeros(32), w) == w
  {
  }

  /** A register that starts with these bits, and the all-zero register that is fed them */
  lemma OwnBitsFromZero(s: Word, u: seq<bool>)
    requires |u| <= 32 && s == u + Zeros(32 - |u|)
    ensures Divide(s, Zeros(|u|)) == Divide(Zeros(32), u)
  {
    DivideFromZero(s, Zeros(|u|));
    ShiftedOut(u);
    assert s[..|u|] == u;
    ZeroXor(Divide(Zeros(32), u));
  }

  /** Up to 32 bits, the all-zero register tells any two strings apart. */
  lemma ZeroRegisterInjective(u: seq<bool>, v: seq<bool>)
    requires |u| == |v| <= 32
    requires Divide(Zeros(32), u) == Divide(Zeros(32), v)
    ensures u == v
  {
    var n := |u|;
    var su: Word, sv: Word := u + Zeros(32 - n), v + Zeros(32 - n);
    OwnBitsFromZero(su, u);
    OwnBitsFromZero(sv, v);
    DivideInjective(su, sv, Zeros(n));
    assert su[..n] == u && sv[..n] == v;
  }

  // ---------------------------------------------------------------- error detection

  lemma {:induction false} BitsInjective(a: seq<byte>, b: seq<byte>)
    requires Bits(a) == Bits(b)
    ensures a == b
    decreases |a|
  {
    assert |a| == |b|;
    if a != [] {
      assert Bits(a)[..8] == ByteBits(a[0] as nat) && Bits(b)[..8] == ByteBits(b[0] as nat);
      assert Bits(a)[8..] == Bits(a[1..]) && Bits(b)[8..] == Bits(b[1..]);
      ByteBitsRoundTrip(a[0] as nat);
      ByteBitsRoundTrip(b[0] as nat);
      BitsInjective(a[1..], b[1..]);
    }
  }

  /** From one register, two bursts before the same bits give the same value only if they are equal. */
  lemma SameBurst(c: Word, u: seq<bool>, v: seq<bool>, rest: seq<bool>)
    requires |u| == |v| <= 32 && Divide(c, u + rest) == Divide(c, v + rest)
    ensures u == v
  {
    var n := |u|;
    DivideConcat(c, u, rest);
    DivideConcat(c, v, rest);
    DivideInjective(Divide(c, u), Divide(c, v), rest);
    DivideFromZero(c, u);
    DivideFromZero(c, v);
    XorCancel(Shl(c, n), Divide(Zeros(32), Xor(c[..n], u)), Divide(Zeros(32), Xor(c[..n], v)));
    ZeroRegisterInjective(Xor(c[..n], u), Xor(c[..n], v));
    XorCancel(c[..n], u, v);
  }

  lemma DivideCut(b: seq<bool>, i: nat, j: nat)
    requires i <= j <= |b|
    ensures Divide(PRESET, b) == Divide(Divide(PRESET, b[..i]), b[i..j] + b[j..])
  {
    assert b == b[..i] + (b[i..j] + b[j..]);
    DivideConcat(PRESET, b[..i], b[i..j] + b[j..]);
  }

  lemma Joined(a: seq<bool>, b: seq<bool>, i: nat, j: nat)
    requires |a| == |b| && i <= j <= |a| && a[..i] == b[..i] && a[i..j] == b[i..j] && a[j..] == b[j..]
    ensures a == b
  {
    assert a == a[..i] + a[i..j] + a[j..];
    assert b == b[..i] + b[i..j] + b[j..];
  }

  lemma BurstInBits(a: seq<bool>, b: seq<bool>, i: nat, j: nat)
    requires |a| == |b| && i <= j <= |a| && j - i <= 32
    requires a[..i] == b[..i] && a[j..] == b[j..] && Divide(PRESET, a) == Divide(PRESET, b)
    ensures a == b
  {
    DivideCut(a, i, j);
    DivideCut(b, i, j);
    SameBurst(Divide(PRESET, a[..i]), a[i..j], b[i..j], a[j..]);
    Joined(a, b, i, j);
  }

  /** Every change confined to at most 32 consecutive bits changes the checksum. */
  lemma BurstDetected(m1: seq<byte>, m2: seq<byte>, i: nat, n: nat)
    requires |m1| == |m2| && m1 != m2
    requires n <= 32 && i + n <= 8 * |m1|
    requires Bits(m1)[..i] == Bits(m2)[..i] && Bits(m1)[i + n..] == Bits(m2)[i + n..]
    ensures Checksum(m1) != Checksum(m2)
  {
    if Checksum(m1) == Checksum(m2) {
      BurstInBits(Bits(m1), Bits(m2), i, i + n);
      BitsInjective(m1, m2);
      assert false;
    }
  }

  lemma XorCancel(a: seq<bool>, x: seq<bool>, y: seq<bool>)
    requires |a| == |x| == |y| && Xor(a, x) == Xor(a, y)
    ensures x == y
  {
    forall i | 0 <= i < |a|
      ensures x[i] == y[i]
    {
      assert Xor(a, x)[i] == Xor(a, y)[i];
    }
  }

  /** The 33 coefficients of the generator polynomial divide to zero. */
  lemma GeneratorDivides()
    ensures Divide(Zeros(32), [true] + POLY) == Zeros(32)
  {
    var g := [true] + POLY;
    assert g[1..] == POLY == POLY[..32];
    assert Clock(Zeros(32), true) == POLY;
    DivideOwnBits(POLY, 32);
  }

  lemma MultipleInvisible(crc: Word, u: seq<bool>, g: seq<bool>, rest: seq<bool>)
    requires |u| == |g| && Divide(Zeros(32), g) == Zeros(32)
    ensures Divide(crc, Xor(u, g) + rest) == Divide(crc, u + rest)
  {
    DivideLinear(crc, Zeros(32), u, g);
    assert Xor(crc, Zeros(32)) == crc;
    assert Xor(Divide(crc, u), Zeros(32)) == Divide(crc, u);
    DivideConcat(crc, Xor(u, g), rest);
    DivideConcat(crc, u, rest);
  }

  /** 32 is the largest such length: adding the 33-bit generator anywhere is invisible. */
  lemma BurstBoundIsTight(crc: Word, u: seq<bool>, rest: seq<bool>)
    requires |u| == 33
    ensures Divide(crc, Xor(u, [true] + POLY) + rest) == Divide(crc, u + rest)
    ensures Xor(u, [true] + POLY) != u
  {
    GeneratorDivides();
    MultipleInvisible(crc, u, [true] + POLY, rest);
    assert Xor(u, [true] + POLY)[0] != u[0];
  }

  /** A word as four bytes in network order. */
  function BigEndian(w: Word): (r: seq<byte>)
    ensures |r| == 4
  {
    [ByteValue(w[..8]) as byte, ByteValue(w[8..16]) as byte,
     ByteValue(w[16..24]) as byte, ByteValue(w[24..]) as byte]
  }

  lemma BigEndianBits(w: Word)
    ensures Bits(BigEndian(w)) == w
  {
    var r := BigEndian(w);
    ByteValueRoundTrip(w[..8]);
    ByteValueRoundTrip(w[8..16]);
    ByteValueRoundTrip(w[16..24]);
    ByteValueRoundTrip(w[24..]);
    assert r[1..][1..][1..][1..] == [];
    assert Bits(r[1..][1..][1..]) == w[24..];
    assert Bits(r[1..][1..]) == w[16..24] + w[24..];
    assert Bits(r[1..]) == w[8..16] + (w[16..24] + w[24..]);
  }

  lemma {:induction false} BitsConcat(a: seq<byte>, b: seq<byte>)
    ensures Bits(a + b) == Bits(a) + Bits(b)
    decreases |a|
  {
    if a == [] {
      assert a + b == b;
    } else {
      assert (a + b)[1..] == a[1..] + b;
      BitsConcat(a[1..], b);
    }
  }

  /** A message followed by its own checksum divides to zero, and no other trailer does. */
  lemma ChecksumAppended(msg: seq<byte>, trailer: Word)
    ensures Checksum(msg + BigEndian(trailer)) == Zeros(32) <==> trailer == Checksum(msg)
  {
    var c := Checksum(msg);
    BitsConcat(msg, BigEndian(trailer));
    BigEndianBits(trailer);
    DivideConcat(PRESET, Bits(msg), trailer);
    assert c[..32] == c && trailer[..32] == trailer;
    DivideOwnBits(c, 32);
    DivideOwnBits(trailer, 32);
    assert Shl(c, 32) == Zeros(32) == Shl(trailer, 32);
    if Divide(c, trailer) == Zeros(32) {
      DivideInjective(c, trailer, trailer);
    }
  }

  // ---------------------------------------------------------------- the table-driven code

  /** What entry `i` of the table has to be: the byte divided from an all-zero register. */
  function Entry(i: nat): Word
    requires i < 256
  {
    Divide(Zeros(32), ByteBits(i))
  }

  /** A byte held in a `uint32_t`. */
  function WordOfByte(b: nat): Word
    requires b < 256
  {
    Zeros(24) + ByteBits(b)
  }

  /** 0x00800000 and 0x80000000 */
  const MARK: Word := Zeros(8) + [true] + Zeros(23)
  const STOP: Word := [true] + Zeros(31)

  /** The table-driven step is eight clocks of the register. */
  lemma TableStep(crc: Word, b: nat)
    requires b < 256
    ensures var index := ByteValue(Xor(Shr(crc, 24), WordOfByte(b))[24..]);
            Xor(Shl(crc, 8), Entry(index)) == Divide(crc, ByteBits(b))
  {
    var low := Xor(Shr(crc, 24), WordOfByte(b))[24..];
    assert low == Xor(crc[..8], ByteBits(b));
    ByteValueRoundTrip(low);
    DivideFromZero(crc, ByteBits(b));
  }

  /** The value the inner loop of the table set-up starts from: the byte, then a mark. */
  function Marked(b: nat): Word
    requires b < 256
  {
    Or(Shl(WordOfByte(b), 24), MARK)
  }

  /** The conditional expression `msb ? 0x04c11db7 : 0`. */
  function Taps(msb: bool): Word {
    if msb then POLY else Zeros(32)
  }

  /** One round of the inner loop is one clock, fed the top bit of `j`. */
  lemma RoundConsumesBit(k: Word, j: Word, bits: seq<bool>)
    requires bits != [] && j[0] == bits[0]
    ensures Divide(Xor(Shl(k, 1), Taps(Xor(k, j)[0])), bits[1..]) == Divide(k, bits)
  {
    assert Xor(Shl(k, 1), Zeros(32)) == Shl(k, 1);
    assert Xor(Shl(k, 1), Taps(Xor(k, j)[0])) == Clock(k, j[0]);
  }

  /** The mark reaches the top after eight shifts and not before. */
  lemma MarkArrives(b: nat, n: nat)
    requires b < 256 && n <= 8
    ensures (Shl(Marked(b), n) == STOP) <==> n == 8
    ensures n < 8 ==> Shl(Marked(b), n)[0] == ByteBits(b)[n]
    ensures n < 8 ==> Shl(Shl(Marked(b), n), 1) == Shl(Marked(b), n + 1)
  {
    var m := Marked(b);
    assert m[..8] == ByteBits(b) && m[8] && forall i :: 9 <= i < 32 ==> !m[i];
    assert Shl(m, n)[8 - n];
    assert n < 8 ==> !STOP[8 - n] && Shl(m, n)[0] == m[n];
  }

  /** The inner loop of the table set-up. It stops on a sentinel bit instead of a count,
      and the sentinel arrives after exactly eight rounds. */
  method TableEntry(i: nat) returns (k: Word)
    requires i < 256
    ensures k == Entry(i)
  {
    k := Zeros(32);
    var j: Word := Marked(i);
    ghost var rounds := 0;
    assert Shl(j, 0) == j && ByteBits(i)[0..] == ByteBits(i);
    while j != STOP
      invariant 0 <= rounds <= 8
      invariant j == Shl(Marked(i), rounds)
      invariant Entry(i) == Divide(k, ByteBits(i)[rounds..])
      decreases 8 - rounds
    {
      MarkArrives(i, rounds);
      RoundConsumesBit(k, j, ByteBits(i)[rounds..]);
      k := Xor(Shl(k, 1), Taps(Xor(k, j)[0]));
      j := Shl(j, 1);
      rounds := rounds + 1;
    }
    MarkArrives(i, rounds);
    assert rounds == 8;
  }

  class PtcCrc {
    const table: array<seq<bool>>

    ghost predicate Valid()
      reads table
    {
      table.Length == 256 && forall t :: 0 <= t < 256 ==> table[t] == Entry(t)
    }

    constructor ()
      ensures Valid() && fresh(table)
    {
      table := new seq<bool>[256](_ => Zeros(32));
      new;
      CRCInit();
    }

    method CRCInit()
      requires table.Length == 256
      modifies table
      ensures Valid()
    {
      for i := 0 to 256
        invariant forall t :: 0 <= t < i ==> table[t] == Entry(t)
      {
        var k := TableEntry(i);
        table[i] := k;
      }
    }

    /** The table-driven checksum is the bit-serial one. */
    method CRCCalc(bytes: seq<byte>) returns (crc: Word)
      requires Valid()
      ensures crc == Checksum(bytes)
    {
      crc := PRESET;
      for i := 0 to |bytes|
        invariant Divide(crc, Bits(bytes[i..])) == Checksum(bytes)
      {
        assert bytes[i..][1..] == bytes[i + 1..];
        DivideConcat(crc, ByteBits(bytes[i] as nat), Bits(bytes[i + 1..]));
        TableStep(crc, bytes[i] as nat);
        var index := ByteValue(Xor(Shr(crc, 24), WordOfByte(bytes[i] as nat))[24..]);
        crc := Xor(Shl(crc, 8), table[index]);
      }
      assert bytes[|bytes|..] == [];
    }
  }
}

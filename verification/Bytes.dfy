/** Bytes and the fixed-width integers the wire formats are made of. */
module Bytes {

  newtype byte = x: int | 0 <= x < 256

  const U16: nat := 0x1_0000
  const U32: nat := 0x1_0000_0000

  /** Two bytes, least significant first. */
  function Le16(v: nat): (r: seq<byte>)
    requires v < U16
    ensures |r| == 2
  {
    [(v % 256) as byte, (v / 256) as byte]
  }

  function FromLe16(lo: byte, hi: byte): (v: nat)
    ensures v < U16
  {
    lo as nat + 256 * hi as nat
  }

  /** Four bytes, least significant first. */
  function Le32(v: nat): (r: seq<byte>)
    requires v < U32
    ensures |r| == 4
  {
    Le16(v % U16) + Le16(v / U16)
  }

  function FromLe32(s: seq<byte>): (v: nat)
    requires |s| == 4
    ensures v < U32
  {
    FromLe16(s[0], s[1]) + U16 * FromLe16(s[2], s[3])
  }

  /** Two bytes in network order. */
  function Be16(v: nat): (r: seq<byte>)
    requires v < U16
    ensures |r| == 2
  {
    [(v / 256) as byte, (v % 256) as byte]
  }

  function FromBe16(hi: byte, lo: byte): (v: nat)
    ensures v < U16
  {
    FromLe16(lo, hi)
  }

  /** Four bytes in network order. */
  function Be32(v: nat): (r: seq<byte>)
    requires v < U32
    ensures |r| == 4
  {
    Be16(v / U16) + Be16(v % U16)
  }

  function FromBe32(s: seq<byte>): (v: nat)
    requires |s| == 4
    ensures v < U32
  {
    FromBe16(s[2], s[3]) + U16 * FromBe16(s[0], s[1])
  }

  lemma Le16RoundTrip(v: nat)
    requires v < U16
    ensures FromLe16(Le16(v)[0], Le16(v)[1]) == v
    ensures FromBe16(Be16(v)[0], Be16(v)[1]) == v
  {
  }

  lemma Le32RoundTrip(v: nat)
    requires v < U32
    ensures FromLe32(Le32(v)) == v
    ensures FromBe32(Be32(v)) == v
  {
    Le16RoundTrip(v % U16);
    Le16RoundTrip(v / U16);
  }

  lemma FromBe32RoundTrip(s: seq<byte>)
    requires |s| == 4
    ensures Be32(FromBe32(s)) == s
  {
    assert s == [s[0], s[1], s[2], s[3]];
    assert FromBe32(s) / U16 == FromBe16(s[0], s[1]) && FromBe32(s) % U16 == FromBe16(s[2], s[3]);
  }

  lemma Associative(a: seq<byte>, b: seq<byte>, c: seq<byte>)
    ensures (a + b) + c == a + (b + c)
  {
  }

  /** Taking `n` bytes of a chunk and what follows it. */
  lemma TakeAcross(chunk: seq<byte>, rest: seq<byte>, n: nat)
    requires |chunk| <= n <= |chunk| + |rest|
    ensures (chunk + rest)[..n] == chunk + rest[..n - |chunk|]
    ensures (chunk + rest)[n..] == rest[n - |chunk|..]
  {
  }

  /** Bytes `a` stand at offset `at` of `data`. */
  predicate Stands(data: seq<byte>, at: nat, a: seq<byte>) {
    at + |a| <= |data| && data[at..at + |a|] == a
  }

  lemma Part(data: seq<byte>, at: nat, a: seq<byte>, i: nat, j: nat)
    requires Stands(data, at, a) && i <= j <= |a|
    ensures Stands(data, at + i, a[i..j]) && data[at + i..at + j] == a[i..j]
  {
    forall k | i <= k < j
      ensures data[at + k] == a[k]
    {
      assert data[at..at + |a|][k] == data[at + k];
    }
    assert data[at + i..at + j] == a[i..j];
  }

  lemma StandsInTwo(data: seq<byte>, at: nat, a: seq<byte>, b: seq<byte>)
    requires Stands(data, at, a + b)
    ensures Stands(data, at, a) && Stands(data, at + |a|, b)
  {
    Part(data, at, a + b, 0, |a|);
    Part(data, at, a + b, |a|, |a + b|);
    assert (a + b)[0..|a|] == a && (a + b)[|a|..|a + b|] == b;
  }

  /** The bytes of a number, each by what it counts: in network order, and least significant first */
  lemma ByteOrder(v: nat)
    requires v < U32
    ensures Be32(v)[0] as nat == v / 0x100_0000 == Le32(v)[3] as nat
    ensures Be32(v)[1] as nat == v / 0x1_0000 % 256 == Le32(v)[2] as nat
    ensures Be32(v)[2] as nat == v / 0x100 % 256 == Le32(v)[1] as nat
    ensures Be32(v)[3] as nat == v % 256 == Le32(v)[0] as nat
  {
    HighBytes(v, v / U16, v % U16);
    LowBytes(v, v / U16, v % U16);
  }

  lemma HighBytes(v: nat, hi: nat, lo: nat)
    requires v == hi * U16 + lo && lo < U16 && hi < U16
    ensures v / 0x100_0000 == hi / 256 && v / 0x1_0000 % 256 == hi % 256
  {
  }

  lemma LowBytes(v: nat, hi: nat, lo: nat)
    requires v == hi * U16 + lo && lo < U16
    ensures v / 0x100 % 256 == lo / 256 && v % 256 == lo % 256
  {
    assert v / 0x100 == hi * 256 + lo / 256;
  }
}

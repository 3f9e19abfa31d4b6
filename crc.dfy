// The 5-bit CRC `bmcrc` of driver-bm1397.c: a five-stage linear feedback
// shift register fed the first n bits of the input, most significant bit of
// each byte first, starting from all ones.

module Crc5 {
  import opened Utils

  type bit = x: int | 0 <= x < 2

  /** Bit k of a byte, most significant first: `b & (0x80 >> k)` is set. */
  function ByteBit(b: byte, k: nat): bit
    requires k < 8
  {
    if b as bv8 & (0x80 as bv8 >> k) != 0 then 1 else 0
  }

  /** Bit i of the input stream: bit i % 8 (MSB first) of byte i / 8. */
  function BitAt(data: seq<byte>, i: nat): bit
    requires i < 8 * |data|
  {
    ByteBit(data[i / 8], i % 8)
  }

  /** The register c[0..5). */
  datatype Reg = Reg(c0: bit, c1: bit, c2: bit, c3: bit, c4: bit)

  const START := Reg(1, 1, 1, 1, 1)

  function Xor(a: bit, b: bit): bit { (a + b) % 2 }

  /** One iteration of the loop: c1 = c[1]; c[1] = c[0]; c[0] = c[4] ^ in;
      c[4] = c[3]; c[3] = c[2]; c[2] = c1 ^ c[0]. */
  function Shift(r: Reg, b: bit): Reg
  {
    var c0 := Xor(r.c4, b);
    Reg(c0, r.c0, Xor(r.c1, c0), r.c2, r.c3)
  }

  /** The register after the first n bits of data. */
  function RegAfter(data: seq<byte>, n: nat): Reg
    requires n <= 8 * |data|
  {
    if n == 0 then START else Shift(RegAfter(data, n - 1), BitAt(data, n - 1))
  }

  /** c[4]*0x10 | c[3]*0x08 | c[2]*0x04 | c[1]*0x02 | c[0]: the stages hold
      single bits, so the OR of their place values is their sum. */
  function Pack(r: Reg): (v: nat)
    ensures v < 32
  {
    r.c4 * 0x10 + r.c3 * 0x08 + r.c2 * 0x04 + r.c1 * 0x02 + r.c0
  }

  /** The value `bmcrc(data, n)` returns. */
  function Crc(data: seq<byte>, n: nat): (v: nat)
    requires n <= 8 * |data|
    ensures v < 32
  {
    Pack(RegAfter(data, n))
  }

  /** `bmcrc`: the loop over the bits with the local register c[5]. */
  method BmCrc(data: seq<byte>, n: nat) returns (crc: nat)
    requires n <= 8 * |data|
    ensures crc == Crc(data, n)
    ensures crc < 32
  {
    var c := new bit[5] [1, 1, 1, 1, 1];
    var i := 0;
    var ptrIdx := 0;
    while i < n
      invariant 0 <= i <= n
      invariant ptrIdx == i / 8
      invariant Reg(c[0], c[1], c[2], c[3], c[4]) == RegAfter(data, i)
    {
      ShiftIn(c, ByteBit(data[ptrIdx], i % 8));
      RegAfterStep(data, i);
      ByteIndexStep(i);
      if (i + 1) % 8 == 0 {
        ptrIdx := ptrIdx + 1;
      }
      i := i + 1;
    }
    crc := c[4] as int * 0x10 + c[3] as int * 0x08 + c[2] as int * 0x04 + c[1] as int * 0x02 + c[0] as int;
  }

  /** The body of the bit loop on the register c[0..5) for one input bit:
      c1 = c[1]; c[1] = c[0]; c[0] = c[4] ^ in; c[4] = c[3]; c[3] = c[2];
      c[2] = c1 ^ c[0]. */
  method ShiftIn(c: array<bit>, input: bit)
    requires c.Length == 5
    modifies c
    ensures Reg(c[0], c[1], c[2], c[3], c[4]) == Shift(old(Reg(c[0], c[1], c[2], c[3], c[4])), input)
  {
    var c1 := c[1];
    c[1] := c[0];
    c[0] := Xor(c[4], input);
    c[4] := c[3];
    c[3] := c[2];
    c[2] := Xor(c1, c[0]);
  }

  /** One more bit shifts the register once. */
  lemma RegAfterStep(data: seq<byte>, i: nat)
    requires i < 8 * |data|
    ensures RegAfter(data, i + 1) == Shift(RegAfter(data, i), BitAt(data, i))
  {
  }

  /** The byte index moves on exactly when a byte's eighth bit is done. */
  lemma ByteIndexStep(i: nat)
    ensures (i + 1) / 8 == i / 8 + (if (i + 1) % 8 == 0 then 1 else 0)
  {
  }

  /** The first n bits of the input stream. */
  function Bits(data: seq<byte>, n: nat): (b: seq<bit>)
    requires n <= 8 * |data|
    ensures |b| == n && forall i :: 0 <= i < n ==> b[i] == BitAt(data, i)
  {
    seq(n, i requires 0 <= i < n => BitAt(data, i))
  }

  /** The register after the first n bits of the bit stream b. */
  function RegOf(b: seq<bit>, n: nat): Reg
    requires n <= |b|
  {
    if n == 0 then START else Shift(RegOf(b, n - 1), b[n - 1])
  }

  /** The register after n bits of the input is the register after the
      first n bits of any stream carrying the same bits. */
  lemma {:induction false} RegAfterBits(data: seq<byte>, b: seq<bit>, n: nat)
    requires n <= |b| && n <= 8 * |data|
    requires forall i :: 0 <= i < n ==> b[i] == BitAt(data, i)
    ensures RegAfter(data, n) == RegOf(b, n)
    decreases n
  {
    if n > 0 {
      RegAfterBits(data, b, n - 1);
    }
  }

  /** Two bit streams whose first m bits agree leave the register in the
      same state. */
  lemma {:induction false} PrefixAgree(b1: seq<bit>, b2: seq<bit>, m: nat)
    requires m <= |b1| && m <= |b2|
    requires forall i :: 0 <= i < m ==> b1[i] == b2[i]
    ensures RegOf(b1, m) == RegOf(b2, m)
  {
    if m > 0 {
      PrefixAgree(b1, b2, m - 1);
    }
  }

  /** So the CRC of n bits depends on those n bits only. */
  lemma CrcPrefix(d1: seq<byte>, d2: seq<byte>, n: nat)
    requires n <= 8 * |d1| && n <= 8 * |d2|
    requires forall i :: 0 <= i < n ==> BitAt(d1, i) == BitAt(d2, i)
    ensures Crc(d1, n) == Crc(d2, n)
  {
    RegAfterBits(d1, Bits(d1, n), n);
    RegAfterBits(d2, Bits(d2, n), n);
    PrefixAgree(Bits(d1, n), Bits(d2, n), n);
  }

  /** One shift with the same input bit never merges two register states. */
  lemma ShiftInjective(r1: Reg, r2: Reg, b: bit)
    requires r1 != r2
    ensures Shift(r1, b) != Shift(r2, b)
  {
  }

  /** Different input bits into the same register give different registers. */
  lemma ShiftSeparates(r: Reg, b1: bit, b2: bit)
    requires b1 != b2
    ensures Shift(r, b1) != Shift(r, b2)
  {
  }

  /** Distinct registers pack to distinct CRC values. */
  lemma PackInjective(r1: Reg, r2: Reg)
    requires r1 != r2
    ensures Pack(r1) != Pack(r2)
  {
    UnpackPack(r1);
    UnpackPack(r2);
  }

  /** The stages read back from a packed value, lowest bit first. */
  function Unpack(v: nat): Reg
  {
    var q1 := v / 2;
    var q2 := q1 / 2;
    var q3 := q2 / 2;
    Reg(v % 2, q1 % 2, q2 % 2, q3 % 2, q3 / 2 % 2)
  }

  lemma Halve(v: int, q: int, b: int)
    requires 0 <= b < 2 && v == q * 2 + b
    ensures v / 2 == q && v % 2 == b
  {
  }

  lemma UnpackPack(r: Reg)
    ensures Unpack(Pack(r)) == r
  {
    var q1 := r.c4 * 8 + r.c3 * 4 + r.c2 * 2 + r.c1;
    var q2 := r.c4 * 4 + r.c3 * 2 + r.c2;
    var q3 := r.c4 * 2 + r.c3;
    Halve(Pack(r), q1, r.c0);
    Halve(q1, q2, r.c1);
    Halve(q2, q3, r.c2);
    Halve(q3, r.c4, r.c3);
    Halve(r.c4, 0, r.c4);
  }

  /** Bit streams that differ in exactly bit j leave different registers
      after every later bit. */
  lemma RegsDiffer(b1: seq<bit>, b2: seq<bit>, j: nat, m: nat)
    requires j < m <= |b1| && m <= |b2|
    requires b1[j] != b2[j]
    requires forall i :: 0 <= i < m && i != j ==> b1[i] == b2[i]
    ensures RegOf(b1, m) != RegOf(b2, m)
  {
    PrefixAgree(b1, b2, j);
    ShiftSeparates(RegOf(b1, j), b1[j], b2[j]);
    StayApart(b1, b2, j + 1, m);
  }

  /** Registers apart after bit `from` stay apart while the streams agree. */
  lemma {:induction false} StayApart(b1: seq<bit>, b2: seq<bit>, from: nat, m: nat)
    requires from <= m <= |b1| && m <= |b2|
    requires RegOf(b1, from) != RegOf(b2, from)
    requires forall i :: from <= i < m ==> b1[i] == b2[i]
    ensures RegOf(b1, m) != RegOf(b2, m)
    decreases m
  {
    if m > from {
      StayApart(b1, b2, from, m - 1);
      ShiftInjective(RegOf(b1, m - 1), RegOf(b2, m - 1), b1[m - 1]);
    }
  }

  /** The CRC detects every single-bit error within the bits it covers. */
  lemma SingleBitError(d1: seq<byte>, d2: seq<byte>, n: nat, j: nat)
    requires n <= 8 * |d1| && n <= 8 * |d2|
    requires j < n
    requires BitAt(d1, j) != BitAt(d2, j)
    requires forall i :: 0 <= i < n && i != j ==> BitAt(d1, i) == BitAt(d2, i)
    ensures Crc(d1, n) != Crc(d2, n)
  {
    RegAfterBits(d1, Bits(d1, n), n);
    RegAfterBits(d2, Bits(d2, n), n);
    RegsDiffer(Bits(d1, n), Bits(d2, n), j, n);
    PackInjective(RegAfter(d1, n), RegAfter(d2, n));
  }

  /** Appending bytes does not change the bits already there. */
  lemma BitAtAppend(a: seq<byte>, b: seq<byte>, i: nat)
    requires i < 8 * |a|
    ensures BitAt(a + b, i) == BitAt(a, i)
  {
    assert (a + b)[i / 8] == a[i / 8];
  }

  /** A byte at most 0x1f has its three top bits clear. */
  lemma TopBitsClear(x: byte, k: nat)
    requires x <= 0x1f && k < 3
    ensures ByteBit(x, k) == 0
  {
  }
}

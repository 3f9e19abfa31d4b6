// Byte helpers of driver_bm1397_utils.c: a clamp, a byte reversal and the
// little- and big-endian stores of a 32-bit value.

module Utils {

  /** An unsigned char. */
  newtype byte = x: int | 0 <= x < 256

  /** uint32_t and uint64_t values. */
  type u32 = x: int | 0 <= x < 0x1_0000_0000
  type u64 = x: int | 0 <= x < 0x1_0000_0000_0000_0000

  datatype Option<T> = None | Some(value: T)

  /** `bound`: the lower bound wins when the value is below it, then the
      upper bound when the value is above it. */
  function Bound(value: u64, lower: u64, upper: u64): (r: u64)
    ensures value < lower ==> r == lower
    ensures lower <= value && upper < value ==> r == upper
    ensures lower <= value <= upper ==> r == value
    ensures lower <= upper ==> lower <= r <= upper
    ensures r == value || r == lower || r == upper
  {
    if value < lower then lower
    else if value > upper then upper
    else value
  }

  /** The byte sequence read back to front. */
  function Reverse<T>(s: seq<T>): (r: seq<T>)
    ensures |r| == |s|
    ensures forall i :: 0 <= i < |s| ==> r[i] == s[|s| - 1 - i]
  {
    if s == [] then [] else Reverse(s[1..]) + [s[0]]
  }

  /** Reversing twice gives back the original sequence. */
  lemma {:induction false} ReverseReverse<T>(s: seq<T>)
    ensures Reverse(Reverse(s)) == s
  {
    var r := Reverse(Reverse(s));
    assert |r| == |s|;
    forall i | 0 <= i < |s| ensures r[i] == s[i] {
      assert r[i] == Reverse(s)[|s| - 1 - i];
    }
  }

  /** Concatenation is associative (stated once, so that provers need not
      rediscover it inside larger goals). */
  lemma AppendAssoc<T>(a: seq<T>, b: seq<T>, c: seq<T>)
    ensures a + (b + c) == (a + b) + c
  {
  }

  /** A prefix one longer is the prefix and the next element. */
  lemma TakeSnoc<T>(s: seq<T>, i: nat)
    requires i < |s|
    ensures s[..i + 1] == s[..i] + [s[i]]
  {
  }

  /** `stuff_reverse(dst, src, len)`: dst[i] = src[len - 1 - i] for i < len.
      Each C buffer address is an array with an offset into it. */
  method StuffReverse(dst: array<byte>, dOff: nat, src: array<byte>, sOff: nat, len: nat)
    requires dOff + len <= dst.Length && sOff + len <= src.Length
    requires dst != src
    modifies dst
    ensures forall k :: dOff <= k < dOff + len ==> dst[k] == src[sOff + len - 1 - (k - dOff)]
    ensures dst[dOff..dOff + len] == Reverse(src[sOff..sOff + len])
    ensures forall k :: 0 <= k < dst.Length && !(dOff <= k < dOff + len) ==> dst[k] == old(dst[k])
  {
    var i := 0;
    while i < len
      invariant 0 <= i <= len
      invariant forall k :: dOff <= k < dOff + i ==> dst[k] == src[sOff + len - 1 - (k - dOff)]
      invariant forall k :: 0 <= k < dst.Length && !(dOff <= k < dOff + i) ==> dst[k] == old(dst[k])
    {
      dst[dOff + i] := src[sOff + len - i - 1];
      i := i + 1;
    }
    ghost var r := Reverse(src[sOff..sOff + len]);
    forall j | 0 <= j < len ensures dst[dOff..dOff + len][j] == r[j] {
      assert dst[dOff + j] == src[sOff + len - 1 - j];
    }
  }

  /** The four bytes of x, least significant first. */
  function LeBytes(x: u32): (r: seq<byte>)
    ensures |r| == 4
  {
    [(x % 0x100) as byte, (x / 0x100 % 0x100) as byte,
     (x / 0x1_0000 % 0x100) as byte, (x / 0x100_0000 % 0x100) as byte]
  }

  /** The four bytes of x, most significant first. */
  function BeBytes(x: u32): (r: seq<byte>)
    ensures |r| == 4
  {
    [(x / 0x100_0000 % 0x100) as byte, (x / 0x1_0000 % 0x100) as byte,
     (x / 0x100 % 0x100) as byte, (x % 0x100) as byte]
  }

  /** The value of four bytes read little-endian. */
  function LeValue(b: seq<byte>): int
    requires |b| == 4
  {
    b[0] as int + 0x100 * b[1] as int + 0x1_0000 * b[2] as int + 0x100_0000 * b[3] as int
  }

  /** The value of four bytes read big-endian. */
  function BeValue(b: seq<byte>): (r: u32)
    requires |b| == 4
    ensures r == LeValue(Reverse(b))
  {
    0x100_0000 * b[0] as int + 0x1_0000 * b[1] as int + 0x100 * b[2] as int + b[3] as int
  }

  /** Splitting x into base-256 digits and adding them back gives x. */
  lemma DigitsOf(x: u32)
    ensures x == x % 0x100 + 0x100 * (x / 0x100 % 0x100)
               + 0x1_0000 * (x / 0x1_0000 % 0x100) + 0x100_0000 * (x / 0x100_0000 % 0x100)
  {
    var q1 := x / 0x100;
    var q2 := q1 / 0x100;
    var q3 := q2 / 0x100;
    assert x == x % 0x100 + 0x100 * q1;
    assert q1 == q1 % 0x100 + 0x100 * q2;
    assert q2 == q2 % 0x100 + 0x100 * q3;
    assert q2 == x / 0x1_0000;
    assert q3 == x / 0x100_0000;
    assert q3 < 0x100;
  }

  /** Division by 0x100 of a value written as quotient and digit. */
  lemma Div256(v: int, q: int, b: int)
    requires 0 <= b < 0x100 && v == q * 0x100 + b
    ensures v / 0x100 == q && v % 0x100 == b
  {
  }

  /** Division by 0x1_0000 and 0x100_0000 as repeated division by 0x100. */
  lemma DivDiv256(x: nat)
    ensures x / 0x1_0000 == x / 0x100 / 0x100
    ensures x / 0x100_0000 == x / 0x1_0000 / 0x100
  {
    var q1 := x / 0x100;
    var q2 := q1 / 0x100;
    var q3 := q2 / 0x100;
    assert x == q2 * 0x1_0000 + (q1 % 0x100) * 0x100 + x % 0x100;
    assert q2 == q3 * 0x100 + q2 % 0x100;
    assert x == q3 * 0x100_0000 + (q2 % 0x100) * 0x1_0000 + (q1 % 0x100) * 0x100 + x % 0x100;
  }

  /** Four bytes read big-endian and stored back by `stuff_msb` are the same
      four bytes. */
  lemma BeBytesValue(b: seq<byte>)
    requires |b| == 4
    ensures BeValue(b) == b[0] as int * 0x100_0000 + b[1] as int * 0x1_0000 + b[2] as int * 0x100 + b[3] as int
    ensures BeBytes(BeValue(b)) == b
  {
    var x := BeValue(b);
    var d0, d1, d2, d3 := b[0] as int, b[1] as int, b[2] as int, b[3] as int;
    var h2 := d0 * 0x100 + d1;
    var h3 := h2 * 0x100 + d2;
    Div256(x, h3, d3);
    Div256(h3, h2, d2);
    Div256(h2, d0, d1);
    Div256(d0, 0, d0);
    DivDiv256(x);
    assert x / 0x1_0000 == h2 && x / 0x100_0000 == d0;
  }

  /** What `stuff_lsb` stores reads back as x little-endian. */
  lemma LeRoundTrip(x: u32)
    ensures LeValue(LeBytes(x)) == x
  {
    DigitsOf(x);
  }

  /** What `stuff_msb` stores reads back as x big-endian, and it is the
      byte-reverse of what `stuff_lsb` stores. */
  lemma BeRoundTrip(x: u32)
    ensures BeValue(BeBytes(x)) == x
    ensures BeBytes(x) == Reverse(LeBytes(x))
  {
    DigitsOf(x);
  }

  /** `stuff_lsb(dst, x)`: writes x little-endian into dst[0..4). */
  method StuffLsb(dst: array<byte>, off: nat, x: u32)
    requires off + 4 <= dst.Length
    modifies dst
    ensures dst[off..off + 4] == LeBytes(x)
    ensures LeValue(dst[off..off + 4]) == x
    ensures forall k :: 0 <= k < dst.Length && !(off <= k < off + 4) ==> dst[k] == old(dst[k])
  {
    dst[off] := (x % 0x100) as byte;
    dst[off + 1] := (x / 0x100 % 0x100) as byte;
    dst[off + 2] := (x / 0x1_0000 % 0x100) as byte;
    dst[off + 3] := (x / 0x100_0000 % 0x100) as byte;
    LeRoundTrip(x);
  }

  /** `stuff_msb(dst, x)`: writes x big-endian into dst[0..4). */
  method StuffMsb(dst: array<byte>, off: nat, x: u32)
    requires off + 4 <= dst.Length
    modifies dst
    ensures dst[off..off + 4] == BeBytes(x)
    ensures BeValue(dst[off..off + 4]) == x
    ensures dst[off..off + 4] == Reverse(LeBytes(x))
    ensures forall k :: 0 <= k < dst.Length && !(off <= k < off + 4) ==> dst[k] == old(dst[k])
  {
    dst[off] := (x / 0x100_0000 % 0x100) as byte;
    dst[off + 1] := (x / 0x1_0000 % 0x100) as byte;
    dst[off + 2] := (x / 0x100 % 0x100) as byte;
    dst[off + 3] := (x % 0x100) as byte;
    BeRoundTrip(x);
  }
}

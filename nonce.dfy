// Decoding of a nonce reply in `compac_gsf_nonce` (driver-bm1397.c): the
// nonce and job id bytes, the work slot and midstate the job id names, and
// the chip the nonce is charged to.

module Nonce {
  import opened Utils

  /** A nonce reply as `compac_listen2` queues it: rx_len (9) bytes. */
  const RX_LEN: nat := 9

  /** `job_id = buf[7]`. */
  function JobId(buf: seq<byte>): (j: byte)
    requires |buf| == RX_LEN
    ensures j == buf[RX_LEN - 2]
  {
    buf[7]
  }

  /** `nonce = buf[2]<<24 | buf[3]<<16 | buf[4]<<8 | buf[5]`. */
  function NonceOf(buf: seq<byte>): (n: u32)
    requires |buf| == RX_LEN
    ensures n == BeValue(buf[2..6])
    ensures BeBytes(n) == buf[2..6]
  {
    BeBytesValue(buf[2..6]);
    buf[2] as int * 0x100_0000 + buf[3] as int * 0x1_0000 + buf[4] as int * 0x100 + buf[5] as int
  }

  /** `job_id & 0xfc`: the work slot of the job id. */
  function Slot(jobId: byte): (w: nat)
    ensures w % 4 == 0 && w <= jobId as int < w + 4
  {
    jobId as int / 4 * 4
  }

  /** `job_id & 3`: the midstate the nonce was found for with AsicBoost. */
  function Midstate(jobId: byte): (m: nat)
    ensures m < 4
  {
    jobId as int % 4
  }

  /** Slot and midstate split the job id and give it back. */
  lemma SlotMidstateSplit(jobId: byte)
    ensures Slot(jobId) + Midstate(jobId) == jobId as int
  {
  }

  /** A job id is given back by its slot and midstate alone: two job ids
      with the same slot and midstate are the same. */
  lemma SlotMidstateInjective(a: byte, b: byte)
    requires Slot(a) == Slot(b) && Midstate(a) == Midstate(b)
    ensures a == b
  {
    SlotMidstateSplit(a);
    SlotMidstateSplit(b);
  }

  /** The job ids that name slot w (a multiple of 4) are w to w + 3, with
      midstates 0 to 3. */
  lemma SlotOfSent(w: nat, m: nat)
    requires w % 4 == 0 && m < 4 && w + m < 256
    ensures Slot((w + m) as byte) == w && Midstate((w + m) as byte) == m
  {
  }

  /** `floor(buf[4] / (256.0 / chips))`: the share of the 256 address values
      that falls to each chip. */
  function SpreadId(b4: byte, chips: nat): (r: int)
    requires chips > 0
    ensures r >= 0
  {
    ((b4 as real) / (256.0 / chips as real)).Floor
  }

  /** The proportional chip of an address byte always names a chip. */
  lemma SpreadInRange(b4: byte, chips: nat)
    requires chips > 0
    ensures 0 <= SpreadId(b4, chips) < chips
    ensures SpreadId(b4, chips) == b4 as int * chips / 256
  {
    var x := (b4 as real) / (256.0 / chips as real);
    assert x == (b4 as int * chips) as real / 256.0;
    var q := b4 as int * chips / 256;
    assert q * 256 <= b4 as int * chips < q * 256 + 256;
    assert q as real <= x < q as real + 1.0;
    assert chips * 256 > b4 as int * chips;
  }

  /** The chip a nonce is charged to, before clamping: from the `nb2chip`
      table of address byte `buf[3]` once it is set up, else proportionally
      from `buf[4]`. */
  function RawAsicId(buf: seq<byte>, chips: nat, nb2cSetup: bool, nb2chip: seq<nat>): int
    requires |buf| == RX_LEN && chips > 0 && |nb2chip| == 256
  {
    if nb2cSetup then nb2chip[buf[3]] else SpreadId(buf[4], chips)
  }

  /** `if (asic_id >= chips) asic_id = chips - 1`: always a chip, the raw
      one when that is a chip. */
  function AsicId(buf: seq<byte>, chips: nat, nb2cSetup: bool, nb2chip: seq<nat>): (a: nat)
    requires |buf| == RX_LEN && chips > 0 && |nb2chip| == 256
    ensures a < chips
    ensures RawAsicId(buf, chips, nb2cSetup, nb2chip) < chips ==> a == RawAsicId(buf, chips, nb2cSetup, nb2chip)
    ensures RawAsicId(buf, chips, nb2cSetup, nb2chip) >= chips ==> a == chips - 1
  {
    var raw := RawAsicId(buf, chips, nb2cSetup, nb2chip);
    if raw >= chips then chips - 1 else raw
  }

  /** Without the table the clamp never fires. */
  lemma AsicIdSpread(buf: seq<byte>, chips: nat, nb2chip: seq<nat>)
    requires |buf| == RX_LEN && chips > 0 && |nb2chip| == 256
    ensures AsicId(buf, chips, false, nb2chip) == buf[4] as int * chips / 256
  {
    SpreadInRange(buf[4], chips);
  }
}

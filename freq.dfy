// Frequency handling of driver-bm1397.c: the `freqbounding` and
// `limit_freq` clamps, the discrete choices of `calc_gsf_freq` (power-down
// encoding, divider band, failure marker, the register bytes it sends) and
// the decoding of a divider reply in `gsf_reply`.

module Freq {
  import opened Utils

  /** `freqbounding`: the lower bound wins, then the upper bound. */
  function FreqBounding(value: real, lower: real, upper: real): (r: real)
    ensures value < lower ==> r == lower
    ensures lower <= value && value > upper ==> r == upper
    ensures lower <= value <= upper ==> r == value
    ensures lower <= upper ==> lower <= r <= upper
  {
    if value < lower then lower else if value > upper then upper else value
  }

  /** `limit_freq`: 100 to 800 MHz on a GSF or GSFM (0 passes when zero is
      allowed), 100 to 300 MHz on anything else. */
  function LimitFreq(gsf: bool, freq: real, zero: bool): (r: real)
    ensures gsf && zero && freq == 0.0 ==> r == 0.0
    ensures gsf && !(zero && freq == 0.0) ==> 100.0 <= r <= 800.0
    ensures !gsf ==> 100.0 <= r <= 300.0
    ensures (if gsf then 100.0 <= freq <= 800.0 else 100.0 <= freq <= 300.0) ==> r == freq
  {
    if gsf then (if zero && freq == 0.0 then 0.0 else FreqBounding(freq, 100.0, 800.0))
    else FreqBounding(freq, 100.0, 300.0)
  }

  /** `freq_mult`, set in `compac_prepare`. */
  const FREQ_MULT: real := 25.0

  /** `famin`, `famax` and `deffreq` of `calc_gsf_freq`. */
  const FA_MIN: int := 0x10
  const FA_MAX: int := 0xf0
  const DEF_FREQ: real := 200.0

  /** The divider settings `calc_gsf_freq` computes: the multiplier fa, the
      dividers fb, fc1 and fc2, the base frequency and the frequency they
      give, or the failure marker. */
  datatype Plan = Plan(fa: int, fb: int, fc1: int, fc2: int, basef: real, newf: real, failed: bool)

  /** The dividers for a clamped frequency f1: fc2 is always 5; fb halves
      from 500 MHz, fc1 triples up to 150 MHz and doubles up to 250 MHz. */
  function Band(f1: real): (fbc: (int, int))
    ensures fbc.0 in {1, 2} && fbc.1 in {1, 2, 3}
  {
    if f1 >= 500.0 then (1, 1)
    else if f1 <= 150.0 then (2, 3)
    else if f1 <= 250.0 then (2, 2)
    else (2, 1)
  }

  /** `ceil`. */
  function Ceil(x: real): (c: int)
    ensures c as real >= x && (c - 1) as real < x
  {
    if x.Floor as real == x then x.Floor else x.Floor + 1
  }

  /** fb * fc1 * fc2 for a clamped frequency f1. */
  function Divisor(f1: real): (m: int)
    ensures m == 5 || m == 10 || m == 20 || m == 30
  {
    var (fb, fc1) := Band(f1);
    fb * fc1 * 5
  }

  /** f1 * fb * fc1 * fc2 / freq_mult, before rounding up. */
  function Scaled(f1: real): real
  {
    f1 * Divisor(f1) as real / FREQ_MULT
  }

  /** The settings `calc_gsf_freq` chooses for a requested frequency (not
      one that failed before): 0 powers down with fa = 0 and all dividers 1;
      anything else is clamped, given a band, rounded up to a multiple of
      25 MHz, and the default 200 MHz is used when fa leaves [0x10, 0xf0]. */
  function PlanFor(frequency: real, gsf: bool): (p: Plan)
    ensures frequency == 0.0 ==> p == Plan(0, 1, 1, 1, 0.0, 0.0, false)
    ensures frequency != 0.0 ==> p.fc2 == 5 && p.fb in {1, 2} && p.fc1 in {1, 2, 3}
    ensures !p.failed ==> p.newf == p.basef / (p.fb * p.fc1 * p.fc2) as real
    ensures p.failed ==> p.newf == DEF_FREQ
    ensures !p.failed ==> 0 <= p.fa <= FA_MAX && 0 < p.fb < 256
  {
    if frequency == 0.0 then Plan(0, 1, 1, 1, 0.0, 0.0, false)
    else
      var f1 := LimitFreq(gsf, frequency, false);
      var (fb, fc1) := Band(f1);
      var fc2 := 5;
      // basef = freq_mult * ceil(f1 * fb * fc1 * fc2 / freq_mult), and
      // fa = basef / freq_mult is that ceiling exactly
      var fa := Ceil(Scaled(f1));
      var basef := FREQ_MULT * fa as real;
      if fa < FA_MIN || fa > FA_MAX then Plan(fa, fb, fc1, fc2, basef, DEF_FREQ, true)
      else Plan(fa, fb, fc1, fc2, basef, basef / (fb * fc1 * fc2) as real, false)
  }

  /** The band brings f1 * fb * fc1 * fc2 into [2500, 5000]. */
  lemma ScaledRange(f1: real)
    requires 100.0 <= f1 <= 800.0
    ensures 100.0 <= Scaled(f1) <= 200.0
  {
    if f1 >= 500.0 {
      assert Divisor(f1) == 5;
    } else if f1 <= 150.0 {
      assert Divisor(f1) == 30;
    } else if f1 <= 250.0 {
      assert Divisor(f1) == 20;
    } else {
      assert Divisor(f1) == 10;
    }
  }

  /** After the clamp and the band choice, f1 * fb * fc1 * fc2 lies in
      [2500, 5000], so fa lies in [100, 200] and the failure marker is
      never reached. */
  lemma PlanNeverFails(frequency: real, gsf: bool)
    requires frequency != 0.0
    ensures var p := PlanFor(frequency, gsf);
      !p.failed && 100 <= p.fa <= 200
  {
    var f1 := LimitFreq(gsf, frequency, false);
    ScaledRange(f1);
    CeilGrid(Scaled(f1));
  }

  /** The frequency set is f1 rounded up to the grid of
      25 / (fb * fc1 * fc2) MHz. */
  lemma PlanRoundsUp(frequency: real, gsf: bool)
    requires frequency != 0.0
    ensures var p := PlanFor(frequency, gsf);
      && p.newf >= LimitFreq(gsf, frequency, false)
      && p.newf < LimitFreq(gsf, frequency, false) + FREQ_MULT / (p.fb * p.fc1 * p.fc2) as real
  {
    var f1 := LimitFreq(gsf, frequency, false);
    PlanNeverFails(frequency, gsf);
    var m := Divisor(f1);
    var x := Scaled(f1);
    ScaledRange(f1);
    CeilGrid(x);
    assert x * FREQ_MULT == f1 * m as real;
    DivBounds(FREQ_MULT * Ceil(x) as real, f1, m);
  }

  /** Rounding up a value in [100, 200] to the 25 MHz grid: the multiplier
      is in [100, 200] and the base frequency is within one step above. */
  lemma CeilGrid(x: real)
    requires 100.0 <= x <= 200.0
    ensures 100 <= Ceil(x) <= 200
    ensures x * FREQ_MULT <= FREQ_MULT * Ceil(x) as real < x * FREQ_MULT + FREQ_MULT
  {
  }

  lemma DivBounds(basef: real, f1: real, m: int)
    requires m == 5 || m == 10 || m == 20 || m == 30
    requires f1 * m as real <= basef < f1 * m as real + FREQ_MULT
    ensures f1 <= basef / m as real < f1 + FREQ_MULT / m as real
  {
    if m == 5 {
      assert m as real == 5.0;
    } else if m == 10 {
      assert m as real == 10.0;
    } else if m == 20 {
      assert m as real == 20.0;
    } else {
      assert m as real == 30.0;
    }
  }

  /** `((fc1 & 0xf) << 4) + (fc2 & 0xf)`. */
  function PackDividers(fc1: int, fc2: int): (b: byte)
    ensures b as int / 16 == fc1 % 16 && b as int % 16 == fc2 % 16
  {
    ((fc1 % 16) * 16 + fc2 % 16) as byte
  }

  /** `fc1 = (b & 0xf0) >> 4; fc2 = b & 0x0f`. */
  function UnpackDividers(b: byte): (fc: (int, int))
    ensures 0 <= fc.0 < 16 && 0 <= fc.1 < 16
  {
    (b as int / 16, b as int % 16)
  }

  /** Dividers of 1..15 survive the packing into one byte. */
  lemma DividersRoundTrip(fc1: int, fc2: int)
    requires 0 <= fc1 < 16 && 0 <= fc2 < 16
    ensures UnpackDividers(PackDividers(fc1, fc2)) == (fc1, fc2)
  {
  }

  /** The register value written by the frequency command, bytes 4 to 7:
      0x40, fa, fb and the packed dividers (0x40 0xf0 0x02 0x35 when the
      plan failed, which is 200 MHz). */
  function FreqRegister(p: Plan): (v: seq<byte>)
    requires !p.failed ==> 0 <= p.fa < 256 && 0 <= p.fb < 256
    ensures |v| == 4
  {
    if p.failed then [0x40, 0xf0, 0x02, 0x35]
    else [0x40, p.fa as byte, p.fb as byte, PackDividers(p.fc1, p.fc2)]
  }

  /** The frequency command to all chips (0x51, address 0) or to one
      (0x41 and its address). */
  function FreqCommand(all: bool, addr: byte, reg: byte, p: Plan): (c: seq<byte>)
    requires !p.failed ==> 0 <= p.fa < 256 && 0 <= p.fb < 256
    ensures |c| == 9 && c[..3] == [if all then 0x51 else 0x41, 0x09, if all then 0x00 else addr]
    ensures c[3] == reg && c[4..8] == FreqRegister(p) && c[8] == 0
  {
    [if all then 0x51 else 0x41, 0x09, if all then 0x00 else addr, reg] + FreqRegister(p) + [0x00]
  }

  /** The prefreq command sent before it: register 0x70 set to 0f 0f 0f. */
  function PrefreqCommand(all: bool, addr: byte): (c: seq<byte>)
    ensures |c| == 9 && c[..3] == [if all then 0x51 else 0x41, 0x09, if all then 0x00 else addr]
    ensures c[3] == 0x70 && c[4..8] == [0x0f, 0x0f, 0x0f, 0x00] && c[8] == 0
  {
    [if all then 0x51 else 0x41, 0x09, if all then 0x00 else addr, 0x70, 0x0f, 0x0f, 0x0f, 0x00, 0x00]
  }

  /** The two commands `calc_gsf_freq` sends (each twice). */
  datatype FreqSends = FreqSends(prefreq: seq<byte>, freq: seq<byte>)

  /** What `calc_gsf_freq` sends for a frequency and a chip (-1 for every
      chip) of a device with chips chips, where freqFail is the frequency
      that failed before and addr the chip's address (`CHIPPY1397`, a macro
      of driver-bm1397.h, which is not part of this model). An unknown chip
      and a retry of the failed frequency send nothing. Chip -1 and the
      power-down frequency 0 go to every chip. */
  function CalcGsfFreq(frequency: real, chip: int, chips: nat, freqFail: real, addr: byte, reg: byte, gsf: bool): (r: Option<FreqSends>)
    ensures r.Some? <==> (chip == -1 || 0 <= chip < chips) && !(frequency != 0.0 && frequency == freqFail)
    ensures r.Some? ==>
      var all := chip == -1 || frequency == 0.0;
      var c, q := r.value.freq, r.value.prefreq;
      && |c| == 9 && |q| == 9
      && c[..3] == q[..3] == [if all then 0x51 else 0x41, 0x09, if all then 0x00 else addr]
      && c[3] == reg && c[4..8] == FreqRegister(PlanFor(frequency, gsf))
  {
    if chip != -1 && !(0 <= chip < chips) then None
    else if frequency != 0.0 && frequency == freqFail then None
    else
      var all := chip == -1 || frequency == 0.0;
      Some(FreqSends(PrefreqCommand(all, addr), FreqCommand(all, addr, reg, PlanFor(frequency, gsf))))
  }

  /** A power-down is always a broadcast that sets fa = 0 and every divider
      to 1, whichever chip was asked for. */
  lemma PowerDownBroadcasts(chip: int, chips: nat, freqFail: real, addr: byte, reg: byte, gsf: bool)
    requires chip == -1 || 0 <= chip < chips
    ensures var r := CalcGsfFreq(0.0, chip, chips, freqFail, addr, reg, gsf);
      && r.Some?
      && r.value.freq == [0x51, 0x09, 0x00, reg, 0x40, 0x00, 0x01, 0x11, 0x00]
      && r.value.prefreq[..3] == [0x51, 0x09, 0x00]
  {
  }

  /** A chip that exists and a frequency that did not fail before are always
      sent, to that chip alone unless the frequency is 0. */
  lemma OneChipAddressed(frequency: real, chip: nat, chips: nat, freqFail: real, addr: byte, reg: byte, gsf: bool)
    requires chip < chips && frequency != 0.0 && frequency != freqFail
    ensures var r := CalcGsfFreq(frequency, chip, chips, freqFail, addr, reg, gsf);
      && r.Some?
      && r.value.freq[..3] == [0x41, 0x09, addr] && r.value.prefreq[..3] == [0x41, 0x09, addr]
  {
  }

  /** A frequency reply a chip has used: the chip and its frequency. */
  datatype FreqReply = FreqReply(chip: nat, freq: real)

  /** `gsf_reply` on a frame of len bytes: a reply of rx_len bytes for
      register BM1397FREQ from an address `TOCHIPPY1397` maps to a chip,
      with fb, fc1 and fc2 all non-zero, gives freq_mult * fa / fb / fc1 / fc2. */
  function GsfReply(buf: seq<byte>, rxLen: nat, freqReg: byte, toChip: seq<int>, chips: nat): (r: Option<FreqReply>)
    requires |toChip| == 256
    ensures r.Some? ==> |buf| == rxLen >= 8 && buf[7] == freqReg && r.value.chip < chips
  {
    if |buf| != rxLen || rxLen < 8 || buf[7] != freqReg then None
    else
      var chip := toChip[buf[6]];
      if !(0 <= chip < chips) then None
      else
        var fa, fb := buf[3] as int, buf[4] as int;
        var (fc1, fc2) := UnpackDividers(buf[5]);
        if fb > 0 && fc1 > 0 && fc2 > 0 then
          Some(FreqReply(chip, FREQ_MULT * fa as real / fb as real / fc1 as real / fc2 as real))
        else None
  }

  /** A chip that echoes the register value of a frequency command in its
      reply (0x40, fa, fb, dividers, its address, the register) is read back
      by `gsf_reply` as the frequency the plan set. */
  lemma ReplyReadsPlan(frequency: real, gsf: bool, buf: seq<byte>, freqReg: byte, toChip: seq<int>, chips: nat)
    requires frequency != 0.0 && |toChip| == 256 && |buf| == 9
    requires buf[2..6] == FreqRegister(PlanFor(frequency, gsf))
    requires buf[7] == freqReg && 0 <= toChip[buf[6]] < chips
    ensures var p := PlanFor(frequency, gsf);
      GsfReply(buf, 9, freqReg, toChip, chips) == Some(FreqReply(toChip[buf[6]] as nat, p.newf))
  {
    var p := PlanFor(frequency, gsf);
    PlanNeverFails(frequency, gsf);
    assert buf[3] as int == p.fa && buf[4] as int == p.fb && buf[5] == PackDividers(p.fc1, p.fc2);
    DividersRoundTrip(p.fc1, p.fc2);
    DivChain(p.basef, p.fb as real, p.fc1 as real, p.fc2 as real);
    assert FREQ_MULT * p.fa as real == p.basef;
  }

  lemma DivChain(x: real, a: real, b: real, c: real)
    requires a > 0.0 && b > 0.0 && c > 0.0
    ensures x / a / b / c == x / (a * b * c)
  {
  }

  /** The default command of a failed plan reads back as 200 MHz. */
  lemma DefaultIs200()
    ensures FREQ_MULT * (0xf0 as real) / 2.0 / 3.0 / 5.0 == DEF_FREQ
    ensures UnpackDividers(0x35) == (3, 5)
  {
  }
}

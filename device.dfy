// The device record `struct COMPAC_INFO` of driver-bm1397.c in the abstract,
// and what the device-level operations do to it: `gh_offset` with the chip
// histories, `add_gekko_nonce`, `set_ticket` with its wipes, the nonce path
// of `compac_gsf_nonce`, the chip count and routing of `compac_listen2`, the
// transitions of `compac_scanwork` and the policy of `compac_prepare`.

module Device {
  import opened Utils
  import opened Ring
  import ChipRing
  import HashRing
  import JobRing
  import Ticket
  import opened Nonce
  import Freq
  import Crc5
  import Frame
  import Rx

  /** `enum miner_state`. */
  datatype MiningState =
    | Init | ChipCount | ChipCountXX | ChipCountOk | OpenCore | OpenCoreOk
    | Mining | MiningDups | Reset | Shutdown

  /** What is fixed once the device is detected: the ring geometries of
      driver-bm1397.h, the settings of `bm1397_detect_one`, and the
      register addresses and chip-address tables the header defines. */
  datatype Config = Config(
    chipGeometry: ChipRing.Geometry,  // CHNUM, CHTIME
    ghDepth: nat,                     // GHNUM
    ghLimit: nat,                     // GHLIMsec
    jobGeometry: JobRing.Geometry,    // JOBMIN, JOBLIMn, JOBTIME
    cores: nat,                       // cores
    expectedChips: nat,               // expected_chips
    minJobId: nat,                    // min_job_id
    maxJobId: nat,                    // max_job_id
    addJobId: nat,                    // add_job_id
    nb2cSetup: bool,                  // nb2c_setup
    nb2chip: seq<nat>,                // nb2chip[]
    toChip: seq<int>,                 // TOCHIPPY1397
    freqReg: byte,                    // BM1397FREQ
    ticketReg: byte,                  // BM1397TICKET
    frequencyDefault: real)           // frequency_default

  predicate ConfigOk(c: Config)
  {
    && ChipRing.GeometryOk(c.chipGeometry)
    && 0 < c.ghLimit <= c.ghDepth
    && JobRing.GeometryOk(c.jobGeometry)
    && c.minJobId <= c.maxJobId
    && |c.nb2chip| == 256 && |c.toChip| == 256
  }

  /** The fields of `struct S_ASIC_INFO` the model follows. */
  datatype Asic = Asic(
    frequency: real,              // f_frequency
    lastFound: u32,               // u32_last_found_nonce
    dupCounter: nat,              // u32_duplicate_nonce_countr
    totalDup: nat,                // u32_total_duplicate_nonce_counter
    nonces: nat,                  // i32_nonces
    chip: ChipRing.ChipHistory,   // s_bm1397_chip
    freqReply: real,              // f_frequency_reply
    lastFreqReply: Time)          // s_tv_last_frequency_reply

  /** The record a chip-identity reply sets up: zeroed, at the default
      frequency, with no frequency reply yet (-1). */
  function NewAsic(c: Config): (a: Asic)
    requires ConfigOk(c)
    ensures ChipRing.Valid(a.chip, c.chipGeometry)
    ensures a.chip.nbNonces == 0 && a.nonces == 0 && a.lastFound == 0 && a.freqReply == -1.0
  {
    Asic(c.frequencyDefault, 0, 0, 0, 0, ChipRing.Wiped(0, c.chipGeometry), -1.0, ZERO_TIME)
  }

  /** The nonce and duplicate counters of the device record. */
  datatype Stats = Stats(
    nonces: nat,          // nonces
    nonceless: nat,       // nonceless
    noncebyte: seq<nat>,  // noncebyte[]
    dups: nat,            // dups
    dupsall: nat,         // dupsall
    dupsreset: nat,       // dupsreset
    accepted: nat,        // accepted
    failing: bool,        // failing
    prevNonce: u32,       // prev_nonce
    lastDupTime: Time,    // last_dup_time
    hashes: nat,          // hashes
    xhashes: nat)         // xhashes

  /** The part of `struct COMPAC_INFO` the model follows; `asics` holds the
      `chips` records found, so `chips` is its length. */
  datatype DeviceState = DeviceState(
    state: MiningState,         // mining_state
    asics: seq<Asic>,           // asics[0 .. chips)
    ramping: nat,               // ramping
    jobId: int,                 // job_id
    updateWork: bool,           // update_work
    ticket: Ticket.TicketState,
    stats: Stats,
    failCount: nat,             // fail_count
    initCount: nat,             // *init_count, a uint8_t
    nodev: bool,                // usbinfo.nodev
    disabled: bool,             // deven == DEV_DISABLED
    lastReset: Time,            // last_reset
    frequencyComputed: real,    // frequency_computed
    gh: HashRing.HashState,     // gh
    job: JobRing.JobState)      // job

  /** b differs from a at most in the chip histories. */
  predicate OnlyChips(a: seq<Asic>, b: seq<Asic>)
  {
    |a| == |b| && forall i :: 0 <= i < |a| ==> b[i] == a[i].(chip := b[i].chip)
  }

  predicate ChipsValid(asics: seq<Asic>, g: ChipRing.Geometry)
  {
    forall i :: 0 <= i < |asics| ==> ChipRing.Valid(asics[i].chip, g)
  }

  /** The invariant every operation keeps: every chip history, the hashrate
      and job histories and the ticket are well formed. */
  predicate Good(d: DeviceState, c: Config)
  {
    && ConfigOk(c)
    && ChipsValid(d.asics, c.chipGeometry)
    && Ticket.Valid(d.ticket)
    && |d.stats.noncebyte| == 256
    && d.initCount < 256
    && 0 <= d.jobId <= c.maxJobId
    && HashRing.Consistent(d.gh, c.ghDepth)
    && JobRing.Consistent(d.job, c.jobGeometry)
  }

  /** `chips * cores` as the unsigned product `set_ticket` compares. */
  function ChipsXCores(d: DeviceState, c: Config): int
  {
    Ticket.ChipsCores(|d.asics|, c.cores) as int
  }

  // ---------------------------------------------------------------------
  // gh_offset and add_gekko_nonce

  /** Every chip history anchored at now, as on the first `gh_offset`. */
  function Anchored(asics: seq<Asic>, now: int): (r: seq<Asic>)
    ensures |r| == |asics|
  {
    seq(|asics|, i requires 0 <= i < |asics| => asics[i].(chip := asics[i].chip.(zeroSec := now)))
  }

  /** `gc_wipe_all`: every chip history emptied and anchored at now. */
  function AllWiped(asics: seq<Asic>, now: int, g: ChipRing.Geometry): (r: seq<Asic>)
    requires ChipRing.GeometryOk(g)
    ensures |r| == |asics|
  {
    seq(|asics|, i requires 0 <= i < |asics| => asics[i].(chip := ChipRing.Wiped(now, g)))
  }

  /** What `gh_offset(now, wipe)` leaves: the hashrate history advanced, and
      the chip histories anchored on the first call or wiped on a wipe. */
  function GhAdvanced(d: DeviceState, now: int, wipe: bool, c: Config): (r: DeviceState)
    requires Good(d, c)
    ensures Good(r, c)
    ensures r == d.(gh := r.gh, asics := r.asics)
    ensures OnlyChips(d.asics, r.asics)
  {
    var asics :=
      if d.gh.zerosec == 0 then Anchored(d.asics, now)
      else if wipe then AllWiped(d.asics, now, c.chipGeometry)
      else d.asics;
    d.(gh := HashRing.Advanced(d.gh, now, wipe, c.ghDepth, c.ghLimit), asics := asics)
  }

  /** On the first call `gh_offset` anchors the hashrate history and every
      chip history at now and ignores the wipe request. */
  lemma GhFirstCall(d: DeviceState, now: int, wipe: bool, c: Config)
    requires Good(d, c) && d.gh.zerosec == 0
    ensures var r := GhAdvanced(d, now, wipe, c);
      && r.gh == HashRing.DropEmpty(d.gh.(zerosec := now))
      && forall i :: 0 <= i < |d.asics| ==> r.asics[i].chip == d.asics[i].chip.(zeroSec := now)
  {
    HashRing.FirstCallAnchors(d.gh, now, wipe, c.ghDepth, c.ghLimit);
  }

  /** After the first call a wipe empties the hashrate history and every
      chip history. */
  lemma GhWipe(d: DeviceState, now: int, c: Config)
    requires Good(d, c) && d.gh.zerosec != 0
    ensures var r := GhAdvanced(d, now, true, c);
      && r.gh == HashRing.Emptied(now, c.ghDepth)
      && forall i :: 0 <= i < |d.asics| ==> r.asics[i].chip == ChipRing.Wiped(now, c.chipGeometry)
  {
    HashRing.AdvancedWipes(d.gh, now, true, c.ghDepth, c.ghLimit);
  }

  /** Without a wipe, after the first call, the chip histories are left to
      `gc_offset`. */
  lemma GhNoWipe(d: DeviceState, now: int, c: Config)
    requires Good(d, c) && d.gh.zerosec != 0
    ensures GhAdvanced(d, now, false, c).asics == d.asics
  {
  }

  /** What `add_gekko_nonce(asic, when)` leaves: `gh_offset` without a wipe,
      the nonce and the current difficulty recorded in the hashrate history
      and, when a chip is named, one nonce in that chip's history. */
  function NonceAdded(d: DeviceState, chip: Option<nat>, when: Time, c: Config): (r: DeviceState)
    requires Good(d, c) && (chip.Some? ==> chip.value < |d.asics|)
    ensures Good(r, c)
    ensures r == d.(gh := r.gh, asics := r.asics)
    ensures OnlyChips(d.asics, r.asics)
  {
    var b := GhRecorded(GhAdvanced(d, when.sec, false, c), when, c);
    if chip.None? then b else ChipNoted(b, chip.value, when, c)
  }

  /** The nonce and the ticket difficulty recorded in the hashrate history. */
  function GhRecorded(d: DeviceState, when: Time, c: Config): (r: DeviceState)
    requires Good(d, c)
    ensures Good(r, c)
    ensures r == d.(gh := r.gh)
  {
    HashRing.RecordedConsistent(d.gh, when, d.ticket.difficulty);
    d.(gh := HashRing.Recorded(d.gh, when, d.ticket.difficulty))
  }

  /** One nonce noted in the history of chip k. */
  function ChipNoted(d: DeviceState, k: nat, when: Time, c: Config): (r: DeviceState)
    requires Good(d, c) && k < |d.asics|
    ensures Good(r, c)
    ensures r == d.(asics := r.asics)
    ensures OnlyChips(d.asics, r.asics)
  {
    d.(asics := d.asics[k := d.asics[k].(chip := ChipRing.Noted(d.asics[k].chip, when.sec, c.chipGeometry))])
  }

  /** A sample adds one nonce and the ticket difficulty to the hashrate
      totals, and one nonce to the named chip's total, leaving all other
      chips as `gh_offset` left them. */
  lemma NonceAddedCounts(d: DeviceState, chip: Option<nat>, when: Time, c: Config)
    requires Good(d, c) && (chip.Some? ==> chip.value < |d.asics|)
    ensures var a := GhAdvanced(d, when.sec, false, c);
      var r := NonceAdded(d, chip, when, c);
      && r.gh.nbNonces == a.gh.nbNonces + 1
      && r.gh.diffsum == a.gh.diffsum + d.ticket.difficulty
      && (forall i :: 0 <= i < |d.asics| && chip != Some(i) ==> r.asics[i] == a.asics[i])
      && (chip.Some? ==>
            r.asics[chip.value].chip.nbNonces
            == ChipRing.Advanced(a.asics[chip.value].chip, when.sec, false, c.chipGeometry).nbNonces + 1)
  {
    var a := GhAdvanced(d, when.sec, false, c);
    HashRing.RecordedConsistent(a.gh, when, d.ticket.difficulty);
  }

  // ---------------------------------------------------------------------
  // set_ticket and the ticket check

  /** What `set_ticket(diff, force)` leaves: nothing changed when no entry
      matches or the difficulty stays, else the new ticket, both histories
      wiped (`gh_offset` and `job_offset` with wipe) and `frequency_computed`
      reset. */
  function TicketSet(d: DeviceState, diff: real, force: bool, now: Time, c: Config): (r: DeviceState)
    requires Good(d, c) && 0.0 <= diff < 4294967296.0
    ensures Good(r, c)
    ensures OnlyChips(d.asics, r.asics)
    ensures r.ticket == Ticket.SetTicket(d.ticket, diff, force, ChipsXCores(d, c))
    ensures r.state == d.state && r.stats == d.stats
  {
    var cc := ChipsXCores(d, c);
    if !Ticket.Changes(d.ticket, diff, force, cc) then d
    else
      HistoriesWiped(d.(ticket := Ticket.SetTicket(d.ticket, diff, force, cc)), now, c)
  }

  /** `gh_offset(now, true)`, `job_offset(now, true)` and
      `frequency_computed = 0`: what a ticket change and a reset share. */
  function HistoriesWiped(d: DeviceState, now: Time, c: Config): (r: DeviceState)
    requires Good(d, c)
    ensures Good(r, c)
    ensures r == d.(gh := r.gh, asics := r.asics, job := r.job, frequencyComputed := 0.0)
    ensures OnlyChips(d.asics, r.asics)
  {
    var w := GhAdvanced(d, now.sec, true, c);
    w.(job := JobRing.Advanced(w.job, now.sec, true, c.jobGeometry), frequencyComputed := 0.0)
  }

  /** Once both histories have been anchored, the wipe empties the hashrate
      history, every chip history and the job history at now. */
  lemma HistoriesWipedEmpty(d: DeviceState, now: Time, c: Config)
    requires Good(d, c) && d.gh.zerosec != 0 && d.job.zeromin != 0
    ensures var r := HistoriesWiped(d, now, c);
      && r.gh == HashRing.Emptied(now.sec, c.ghDepth)
      && r.job == JobRing.Emptied(JobRing.JobTime(now.sec, c.jobGeometry), c.jobGeometry)
      && (forall i :: 0 <= i < |d.asics| ==> r.asics[i].chip == ChipRing.Wiped(now.sec, c.chipGeometry))
  {
    GhWipe(d, now.sec, c);
    JobRing.AdvancedWipes(d.job, now.sec, true, c.jobGeometry);
  }

  /** A ticket change resets `frequency_computed`; once `gh_offset` has
      been anchored it empties the hashrate history and every chip history,
      and once `job_offset` has, the job history. */
  lemma TicketSetWipes(d: DeviceState, diff: real, force: bool, now: Time, c: Config)
    requires Good(d, c) && 0.0 <= diff < 4294967296.0
    requires Ticket.Changes(d.ticket, diff, force, ChipsXCores(d, c))
    ensures var r := TicketSet(d, diff, force, now, c);
      && r.frequencyComputed == 0.0
      && (d.gh.zerosec != 0 ==>
            r.gh == HashRing.Emptied(now.sec, c.ghDepth)
            && forall i :: 0 <= i < |d.asics| ==> r.asics[i].chip == ChipRing.Wiped(now.sec, c.chipGeometry))
      && (d.job.zeromin != 0 ==>
            r.job == JobRing.Emptied(JobRing.JobTime(now.sec, c.jobGeometry), c.jobGeometry))
  {
    var d1 := d.(ticket := Ticket.SetTicket(d.ticket, diff, force, ChipsXCores(d, c)));
    if d.gh.zerosec != 0 {
      GhWipe(d1, now.sec, c);
    }
    if d.job.zeromin != 0 {
      JobRing.AdvancedWipes(GhAdvanced(d1, now.sec, true, c).job, now.sec, true, c.jobGeometry);
    }
  }

  /** The ticket check of `compac_gsf_nonce` with its reselections done by
      `set_ticket(0.0, true)`. */
  function TicketChecked(d: DeviceState, diff: real, now: Time, c: Config): (r: DeviceState)
    requires Good(d, c)
    ensures Good(r, c)
    ensures OnlyChips(d.asics, r.asics)
    ensures r.state == d.state && r.stats == d.stats
  {
    var s := Ticket.Check(d.ticket, diff);
    Ticket.CheckedValid(d.ticket, diff, ChipsXCores(d, c));
    var d1 := d.(ticket := s.t);
    if s.action == Ticket.Keep then d1 else Reselected(d1, s.action, now, c)
  }

  /** The reselection after a failed check: `set_ticket(0.0, true)`, then
      one more failure on a retry, or the ticket taken as good on giving up. */
  function Reselected(d: DeviceState, action: Ticket.Action, now: Time, c: Config): (r: DeviceState)
    requires Good(d, c) && action != Ticket.Keep && action == Ticket.Failed(d.ticket).action
    ensures Good(r, c)
    ensures OnlyChips(d.asics, r.asics)
    ensures r.state == d.state && r.stats == d.stats
  {
    var d2 := TicketSet(d, 0.0, true, now, c);
    if action == Ticket.Retry then d2.(ticket := d2.ticket.(failures := d2.ticket.failures + 1))
    else d2.(ticket := d2.ticket.(ok := true))
  }

  /** The ticket the device ends with is the one the ticket state machine
      prescribes. */
  lemma TicketCheckedTicket(d: DeviceState, diff: real, now: Time, c: Config)
    requires Good(d, c)
    ensures TicketChecked(d, diff, now, c).ticket == Ticket.Checked(d.ticket, diff, ChipsXCores(d, c))
  {
  }

  /** A check that asks for no reselection touches nothing but the ticket. */
  lemma TicketCheckedKeeps(d: DeviceState, diff: real, now: Time, c: Config)
    requires Good(d, c) && Ticket.Check(d.ticket, diff).action == Ticket.Keep
    ensures TicketChecked(d, diff, now, c) == d.(ticket := Ticket.Check(d.ticket, diff).t)
  {
  }

  // ---------------------------------------------------------------------
  // The nonce path of compac_gsf_nonce

  /** `nonces++; nonceless = 0; noncebyte[buf[3]]++`. */
  function Tallied(s: Stats, buf: seq<byte>): (r: Stats)
    requires |buf| == RX_LEN && |s.noncebyte| == 256
    ensures |r.noncebyte| == 256
  {
    s.(nonces := s.nonces + 1, nonceless := 0, noncebyte := s.noncebyte[buf[3] := s.noncebyte[buf[3]] + 1])
  }

  /** The chip a reply is charged to on this device. */
  function ChipOf(d: DeviceState, buf: seq<byte>, c: Config): (a: nat)
    requires Good(d, c) && |buf| == RX_LEN && |d.asics| > 0
    ensures a < |d.asics|
  {
    AsicId(buf, |d.asics|, c.nb2cSetup, c.nb2chip)
  }

  predicate IsDuplicate(d: DeviceState, buf: seq<byte>, c: Config)
    requires Good(d, c) && |buf| == RX_LEN && |d.asics| > 0
  {
    NonceOf(buf) == d.asics[ChipOf(d, buf, c)].lastFound
  }

  /** A duplicate only bumps the duplicate counters of the device and chip
      and stamps `last_dup_time`; the first of a run (dups becoming 1)
      switches to MINING_DUPS. */
  function Duplicated(d: DeviceState, buf: seq<byte>, now: Time, c: Config): (r: DeviceState)
    requires Good(d, c) && |buf| == RX_LEN && |d.asics| > 0
    ensures Good(r, c)
  {
    var s := Tallied(d.stats, buf);
    var k := ChipOf(d, buf, c);
    var a := d.asics[k];
    d.(stats := s.(dups := s.dups + 1, dupsall := s.dupsall + 1, dupsreset := s.dupsreset + 1, lastDupTime := now),
       asics := d.asics[k := a.(dupCounter := a.dupCounter + 1, totalDup := a.totalDup + 1)],
       state := if s.dups + 1 == 1 then MiningDups else d.state)
  }

  /** A nonce accepted by `submit_nonce`: the valid-nonce counters, the
      hash totals at the ticket difficulty, the duplicate run ended, and the
      sample recorded (charged to the chip only when `nb2c_setup`). */
  function Accepted(d: DeviceState, k: nat, when: Time, c: Config): (r: DeviceState)
    requires Good(d, c) && k < |d.asics|
    ensures Good(r, c)
  {
    NonceAdded(Credited(d, k, c), if c.nb2cSetup then Some(k) else None, when, c)
  }

  /** The counters an accepted nonce moves before its hashrate sample. */
  function Credited(d: DeviceState, k: nat, c: Config): (r: DeviceState)
    requires Good(d, c) && k < |d.asics|
    ensures Good(r, c) && |r.asics| == |d.asics|
  {
    var s := d.stats;
    var a := d.asics[k];
    var diff := d.ticket.difficulty;
    d.(stats := s.(hashes := s.hashes + diff * 0xffff_ffff, xhashes := s.xhashes + diff,
                   accepted := s.accepted + 1, failing := false, dups := 0),
       asics := d.asics[k := a.(nonces := a.nonces + 1, dupCounter := 0)])
  }

  /** A fresh nonce is tallied and becomes `prev_nonce` and its chip's last
      nonce. */
  function Remembered(d: DeviceState, buf: seq<byte>, c: Config): (r: DeviceState)
    requires Good(d, c) && |buf| == RX_LEN && |d.asics| > 0
    ensures Good(r, c)
  {
    var k := ChipOf(d, buf, c);
    var n := NonceOf(buf);
    d.(stats := Tallied(d.stats, buf).(prevNonce := n), asics := d.asics[k := d.asics[k].(lastFound := n)])
  }

  /** What `compac_gsf_nonce` does with one queued reply. `diff` is what
      the work search made of it (0.0 when no work matched; the search itself
      calls `test_nonce_value`) and `submitted` what `submit_nonce` said. */
  function NonceHandled(d: DeviceState, buf: seq<byte>, diff: real, submitted: bool, now: Time, when: Time, c: Config): (r: DeviceState)
    requires Good(d, c) && |buf| == RX_LEN && |d.asics| > 0
    ensures Good(r, c)
  {
    if IsDuplicate(d, buf, c) then Duplicated(d, buf, now, c)
    else
      var d1 := Remembered(d, buf, c);
      if diff == 0.0 then d1
      else
        var d2 := TicketChecked(d1, diff, now, c);
        if submitted then Accepted(d2, ChipOf(d, buf, c), when, c) else d2
  }

  /** A duplicate nonce changes only the duplicate counters, the tallies and
      the state, never the ticket, the histories or the accepted count; the
      state becomes MINING_DUPS exactly when no duplicate was pending. */
  lemma DuplicateOnlyCounts(d: DeviceState, buf: seq<byte>, diff: real, submitted: bool, now: Time, when: Time, c: Config)
    requires Good(d, c) && |buf| == RX_LEN && |d.asics| > 0
    requires IsDuplicate(d, buf, c)
    ensures var r := NonceHandled(d, buf, diff, submitted, now, when, c);
      var k := ChipOf(d, buf, c);
      && r.ticket == d.ticket && r.gh == d.gh && r.job == d.job
      && r.stats.accepted == d.stats.accepted
      && r.stats.dups == d.stats.dups + 1
      && r.asics[k].dupCounter == d.asics[k].dupCounter + 1
      && r.asics[k].lastFound == d.asics[k].lastFound
      && (forall i :: 0 <= i < |d.asics| && i != k ==> r.asics[i] == d.asics[i])
      && (r.state == MiningDups <==> d.stats.dups == 0 || d.state == MiningDups)
  {
  }

  /** A fresh nonce becomes its chip's last nonce and `prev_nonce`, so the
      same reply arriving next is a duplicate. */
  lemma FreshNonceRemembered(d: DeviceState, buf: seq<byte>, diff: real, submitted: bool, now: Time, when: Time, c: Config)
    requires Good(d, c) && |buf| == RX_LEN && |d.asics| > 0
    requires !IsDuplicate(d, buf, c)
    ensures var r := NonceHandled(d, buf, diff, submitted, now, when, c);
      && |r.asics| == |d.asics|
      && r.stats.prevNonce == NonceOf(buf)
      && r.asics[ChipOf(d, buf, c)].lastFound == NonceOf(buf)
      && r.state == d.state
  {
    var k := ChipOf(d, buf, c);
    var n := NonceOf(buf);
    var d1 := Remembered(d, buf, c);
    assert d1.stats.prevNonce == n && d1.asics[k].lastFound == n && d1.state == d.state && |d1.asics| == |d.asics|;
    if diff != 0.0 {
      var d2 := TicketChecked(d1, diff, now, c);
      assert d2.asics[k] == d1.asics[k].(chip := d2.asics[k].chip);
      if submitted {
        var d3 := Credited(d2, k, c);
        assert d3.stats.prevNonce == n && d3.asics[k].lastFound == n && d3.state == d.state;
        var r := NonceAdded(d3, if c.nb2cSetup then Some(k) else None, when, c);
        assert r.asics[k] == d3.asics[k].(chip := r.asics[k].chip);
      }
    }
  }

  /** An unmatched reply (no work found) changes neither the ticket nor the
      histories nor the accepted count. */
  lemma UnmatchedDumped(d: DeviceState, buf: seq<byte>, submitted: bool, now: Time, when: Time, c: Config)
    requires Good(d, c) && |buf| == RX_LEN && |d.asics| > 0
    requires !IsDuplicate(d, buf, c)
    ensures var r := NonceHandled(d, buf, 0.0, submitted, now, when, c);
      && r.ticket == d.ticket && r.gh == d.gh && r.job == d.job
      && r.stats.accepted == d.stats.accepted && r.stats.nonces == d.stats.nonces + 1
  {
  }

  /** An accepted nonce ends the duplicate run and counts once. */
  lemma AcceptedCounts(d: DeviceState, buf: seq<byte>, diff: real, now: Time, when: Time, c: Config)
    requires Good(d, c) && |buf| == RX_LEN && |d.asics| > 0
    requires !IsDuplicate(d, buf, c) && diff != 0.0
    ensures var r := NonceHandled(d, buf, diff, true, now, when, c);
      && r.stats.accepted == d.stats.accepted + 1
      && r.stats.dups == 0 && !r.stats.failing
      && r.stats.nonces == d.stats.nonces + 1
      && r.asics[ChipOf(d, buf, c)].dupCounter == 0
      && r.asics[ChipOf(d, buf, c)].nonces == d.asics[ChipOf(d, buf, c)].nonces + 1
      && r.ticket == Ticket.Checked(d.ticket, diff, ChipsXCores(d, c))
  {
    TicketCheckedTicket(Remembered(d, buf, c), diff, now, c);
  }

  // ---------------------------------------------------------------------
  // compac_listen2: chip count, routing and settling

  /** The chip-count request `52 05 00 00 0A` as `compac_send2` frames it:
      the preamble, the request, and its CRC OR-ed into the last byte. */
  function ChippyFrame(): (f: seq<byte>)
    ensures |f| == 7 && f[..6] == [0x55, 0xAA, 0x52, 0x05, 0x00, 0x00]
    ensures f[6] == Frame.OrCrc(0x0a, Crc5.Crc([0x52, 0x05, 0x00, 0x00, 0x0a], 32))
  {
    var cmd: seq<byte> := [0x52, 0x05, 0x00, 0x00, 0x0a];
    Frame.Framed(cmd, Crc5.Crc(cmd, 8 * |cmd| - 8))
  }

  /** A chip-identity reply: `13 97` after the preamble. */
  predicate IsChipReply(f: seq<byte>)
    requires |f| == RX_LEN
  {
    f[2] == 0x13 && f[3] == 0x97
  }

  /** `gsf_reply`: a valid frequency reply for a known chip sets that chip's
      reply frequency and time; `used` says whether it was one. */
  datatype Gsf = Gsf(d: DeviceState, used: bool)

  function GsfApplied(d: DeviceState, f: seq<byte>, now: Time, c: Config): (r: Gsf)
    requires Good(d, c)
    ensures Good(r.d, c)
    ensures r.d.state == d.state && r.d.stats == d.stats && |r.d.asics| == |d.asics|
    ensures !r.used ==> r.d == d
  {
    var g := Freq.GsfReply(f, RX_LEN, c.freqReg, c.toChip, |d.asics|);
    if g.None? then Gsf(d, false)
    else
      var k := g.value.chip;
      Gsf(d.(asics := d.asics[k := d.asics[k].(freqReply := g.value.freq, lastFreqReply := now)]), true)
  }

  /** One frame handed on by the parser, routed by state; `queued` is the
      frame put on the nonce list in MINING. */
  datatype Heard = Heard(d: DeviceState, queued: Option<seq<byte>>)

  function Routed(d: DeviceState, f: seq<byte>, okcrc: bool, now: Time, c: Config): (r: Heard)
    requires Good(d, c) && |f| == RX_LEN
    ensures Good(r.d, c)
  {
    if d.state == ChipCount || d.state == ChipCountXX then
      if IsChipReply(f) then Heard(d.(asics := d.asics + [NewAsic(c)], state := ChipCountXX), None)
      else if d.state == ChipCount then Heard(d, None)
      else if |d.asics| == 0 then Heard(d.(state := Reset), None)
      else
        var d1 := d.(state := ChipCountOk, initCount := 0);
        Heard(if okcrc then GsfApplied(d1, f, now, c).d else d1, None)
    else if d.state == Mining then
      var g := if okcrc then GsfApplied(d, f, now, c) else Gsf(d, false);
      Heard(g.d, if g.used then None else Some(f))
    else
      Heard(if okcrc then GsfApplied(d, f, now, c).d else d, None)
  }

  /** Each identity reply during the count sets up exactly one more chip. */
  lemma ChipReplyCounts(d: DeviceState, f: seq<byte>, okcrc: bool, now: Time, c: Config)
    requires Good(d, c) && |f| == RX_LEN && IsChipReply(f)
    requires d.state == ChipCount || d.state == ChipCountXX
    ensures var r := Routed(d, f, okcrc, now, c).d;
      && |r.asics| == |d.asics| + 1 && r.asics[..|d.asics|] == d.asics
      && r.asics[|d.asics|] == NewAsic(c)
      && r.state == ChipCountXX
  {
  }

  /** Another reply after the count has begun ends it: with chips found the
      count stands (CHIP_COUNT_OK, `init_count` cleared), without any the
      device resets. */
  lemma OtherReplySettles(d: DeviceState, f: seq<byte>, okcrc: bool, now: Time, c: Config)
    requires Good(d, c) && |f| == RX_LEN && !IsChipReply(f)
    requires d.state == ChipCountXX
    ensures var r := Routed(d, f, okcrc, now, c).d;
      && |r.asics| == |d.asics|
      && (|d.asics| > 0 ==> r.state == ChipCountOk && r.initCount == 0)
      && (|d.asics| == 0 ==> r.state == Reset)
  {
  }

  /** In MINING a frame is queued as a nonce candidate exactly when it was not
      used as a frequency reply, and is queued as it is. */
  lemma MiningQueues(d: DeviceState, f: seq<byte>, okcrc: bool, now: Time, c: Config)
    requires Good(d, c) && |f| == RX_LEN && d.state == Mining
    ensures var r := Routed(d, f, okcrc, now, c);
      && (r.queued.Some? <==> !(okcrc && GsfApplied(d, f, now, c).used))
      && (r.queued.Some? ==> r.queued.value == f && r.d == d)
      && r.d.state == Mining
  {
  }

  /** Outside the count and MINING a frame is never queued and only a
      frequency reply changes anything. */
  lemma OtherStatesIgnore(d: DeviceState, f: seq<byte>, okcrc: bool, now: Time, c: Config)
    requires Good(d, c) && |f| == RX_LEN
    requires d.state !in {ChipCount, ChipCountXX, Mining}
    ensures var r := Routed(d, f, okcrc, now, c);
      r.queued.None? && r.d.state == d.state && (!okcrc ==> r.d == d)
  {
  }

  /** Every frame of one read, routed in order, and the frames queued as
      nonce candidates, in order. */
  datatype HeardAll = HeardAll(d: DeviceState, queued: seq<seq<byte>>)

  predicate ReplySized(cuts: seq<Rx.Cut>)
  {
    forall k :: 0 <= k < |cuts| ==> |cuts[k].frame| == RX_LEN
  }

  function RoutedAll(d: DeviceState, cuts: seq<Rx.Cut>, now: Time, c: Config): (r: HeardAll)
    requires Good(d, c) && ReplySized(cuts)
    ensures Good(r.d, c)
    ensures |r.queued| <= |cuts|
    decreases |cuts|
  {
    if cuts == [] then HeardAll(d, [])
    else
      var h := Routed(d, cuts[0].frame, cuts[0].okcrc, now, c);
      var rest := RoutedAll(h.d, cuts[1..], now, c);
      HeardAll(rest.d, (if h.queued.Some? then [h.queued.value] else []) + rest.queued)
  }

  /** Routing one more frame extends the fold by one step. */
  lemma {:induction false} RoutedAllSnoc(d: DeviceState, cuts: seq<Rx.Cut>, x: Rx.Cut, now: Time, c: Config)
    requires Good(d, c) && ReplySized(cuts) && |x.frame| == RX_LEN
    ensures ReplySized(cuts + [x])
    ensures var a := RoutedAll(d, cuts, now, c);
      var h := Routed(a.d, x.frame, x.okcrc, now, c);
      RoutedAll(d, cuts + [x], now, c)
        == HeardAll(h.d, a.queued + (if h.queued.Some? then [h.queued.value] else []))
    decreases |cuts|
  {
    assert ReplySized(cuts + [x]) by {
      forall k | 0 <= k < |cuts| + 1 ensures |(cuts + [x])[k].frame| == RX_LEN {
        if k < |cuts| {
          assert (cuts + [x])[k] == cuts[k];
        }
      }
    }
    if cuts != [] {
      var h0 := Routed(d, cuts[0].frame, cuts[0].okcrc, now, c);
      var q0 := if h0.queued.Some? then [h0.queued.value] else [];
      var tail := cuts[1..];
      assert ReplySized(tail);
      assert (cuts + [x])[0] == cuts[0];
      assert (cuts + [x])[1..] == tail + [x];
      RoutedAllSnoc(h0.d, tail, x, now, c);
      var a := RoutedAll(h0.d, tail, now, c);
      var h := Routed(a.d, x.frame, x.okcrc, now, c);
      var qx := if h.queued.Some? then [h.queued.value] else [];
      assert RoutedAll(d, cuts, now, c) == HeardAll(a.d, q0 + a.queued);
      assert RoutedAll(d, cuts + [x], now, c) == HeardAll(h.d, q0 + (a.queued + qx));
      AppendAssoc(q0, a.queued, qx);
    }
  }

  /** In MINING with no frequency reply among them, every frame of a read
      is queued, in order, and the state stays MINING. */
  lemma {:induction false} MiningQueuesAll(d: DeviceState, cuts: seq<Rx.Cut>, now: Time, c: Config)
    requires Good(d, c) && ReplySized(cuts) && d.state == Mining
    requires forall k :: 0 <= k < |cuts| ==> !cuts[k].okcrc
    ensures var r := RoutedAll(d, cuts, now, c);
      && r.d == d
      && |r.queued| == |cuts|
      && forall k :: 0 <= k < |cuts| ==> r.queued[k] == cuts[k].frame
    decreases |cuts|
  {
    if cuts != [] {
      MiningQueuesAll(d, cuts[1..], now, c);
    }
  }

  /** The settle after a read: a silent read (`read_bytes == 0`) or a short
      buffer ends a running count with CHIP_COUNT_OK when at least
      `expected_chips` and at least one chip answered, else with RESET. */
  function Settled(d: DeviceState, readBytes: nat, pos: nat, c: Config): (r: DeviceState)
    requires Good(d, c)
    ensures Good(r, c)
  {
    if (readBytes == 0 || pos < 6) && d.state == ChipCountXX then
      if |d.asics| < c.expectedChips || |d.asics| == 0 then d.(state := Reset)
      else d.(state := ChipCountOk, initCount := 0)
    else d
  }

  /** A settled count always leaves CHIP_COUNT_XX, and stands only with
      enough chips. */
  lemma SettleDecides(d: DeviceState, readBytes: nat, pos: nat, c: Config)
    requires Good(d, c) && d.state == ChipCountXX && (readBytes == 0 || pos < 6)
    ensures var r := Settled(d, readBytes, pos, c);
      && (r.state == ChipCountOk <==> |d.asics| >= c.expectedChips && |d.asics| > 0)
      && (r.state == Reset <==> !(|d.asics| >= c.expectedChips && |d.asics| > 0))
      && (r.state == ChipCountOk ==> r.initCount == 0)
      && r.asics == d.asics
  {
  }

  /** The start of each listen pass: in CHIP_COUNT the chip-count request
      goes out and the count begins. */
  function ListenBegun(d: DeviceState): (r: DeviceState)
    ensures d.state == ChipCount ==> r == d.(state := ChipCountXX)
    ensures d.state != ChipCount ==> r == d
  {
    if d.state == ChipCount then d.(state := ChipCountXX) else d
  }

  // ---------------------------------------------------------------------
  // compac_prepare and compac_scanwork

  /** `(*init_count)++` on the per-port `uint8_t` counter. */
  function NextInitCount(n: nat): (r: nat)
    requires n < 256
    ensures r < 256
    ensures r == n + 1 || (n == 255 && r == 0)
  {
    (n + 1) % 256
  }

  /** The policy of `compac_prepare`, applied on the incremented count. */
  function Prepared(d: DeviceState): (r: DeviceState)
    requires d.initCount < 256
    ensures r.initCount < 256 && r == d.(initCount := r.initCount, nodev := r.nodev, disabled := r.disabled)
  {
    var n := NextInitCount(d.initCount);
    if n != 0 && n % 5 == 0 then d.(initCount := n, nodev := true)
    else if n > 10 then d.(initCount := n, disabled := true)
    else d.(initCount := n)
  }

  /** Every fifth re-initialisation of a port without a good chip count in
      between forces the device off the bus; from the eleventh on the
      others disable it; the first ten otherwise change nothing. */
  lemma PreparePolicy(d: DeviceState)
    requires d.initCount < 256
    ensures var r := Prepared(d);
      var n := r.initCount;
      && n == NextInitCount(d.initCount)
      && (r.nodev <==> d.nodev || (n != 0 && n % 5 == 0))
      && (r.disabled <==> d.disabled || (n > 10 && n % 5 != 0))
      && r == d.(initCount := n, nodev := r.nodev, disabled := r.disabled)
  {
  }

  /** The counter wraps: after 255 the next count is 0, which neither
      forces the device off nor disables it. */
  lemma PrepareWraps(d: DeviceState)
    requires d.initCount == 255
    ensures Prepared(d) == d.(initCount := 0)
  {
  }

  /** What one call of `compac_scanwork` leaves, and what it returns. */
  datatype Scan = Scan(d: DeviceState, hashes: int)

  /** The common tail: the accumulated difficulty is reported as hashes
      and both totals restart. */
  function Reported(d: DeviceState): (r: Scan)
    ensures r.hashes == d.stats.xhashes * 0xffff_ffff
    ensures r.d == d.(stats := d.stats.(hashes := 0, xhashes := 0))
  {
    Scan(d.(stats := d.stats.(hashes := 0, xhashes := 0)), d.stats.xhashes * 0xffff_ffff)
  }

  /** The RESET branch: `compac_flush_work`, `compac_prepare`, one more
      failure, the duplicate count of the run cleared, back to INIT,
      `last_reset` now, both histories wiped and `frequency_computed`
      reset. */
  function ResetDone(d: DeviceState, now: Time, c: Config): (r: DeviceState)
    requires Good(d, c)
    ensures Good(r, c)
  {
    HistoriesWiped(Restarted(Prepared(Flushed(d)), now), now, c)
  }

  /** The record's part of `compac_update_work`: new work is due. (The
      active flags it clears belong to the work table, `Work.WorkSlots`.) */
  function Flushed(d: DeviceState): (r: DeviceState)
    ensures r.updateWork && r.(updateWork := d.updateWork) == d
  {
    d.(updateWork := true)
  }

  /** The RESET counters: one more failure, the reset duplicates cleared,
      INIT, and the reset time. */
  function Restarted(d: DeviceState, now: Time): (r: DeviceState)
    ensures r.failCount == d.failCount + 1 && r.state == Init && r.lastReset == now
    ensures r.stats.dupsreset == 0 && r.stats.(dupsreset := d.stats.dupsreset) == d.stats
    ensures r.asics == d.asics && r.ticket == d.ticket && r.gh == d.gh && r.job == d.job
    ensures r.initCount == d.initCount && r.updateWork == d.updateWork && r.jobId == d.jobId
  {
    d.(failCount := d.failCount + 1, stats := d.stats.(dupsreset := 0), state := Init, lastReset := now)
  }

  /** One OPEN_CORE pass: the ramp picks the job id, and once past every
      core the device moves on to OPEN_CORE_OK. */
  function Ramped(d: DeviceState, c: Config): (r: DeviceState)
    requires Good(d, c)
    ensures Good(r, c)
  {
    var jobId := d.ramping % (c.maxJobId + 1);
    if d.ramping > c.cores * c.addJobId then d.(jobId := jobId, state := OpenCoreOk)
    else d.(jobId := jobId, ramping := d.ramping + c.addJobId)
  }

  /** OPEN_CORE_OK: the duplicate clock restarts, new work is due, MINING. */
  function Started(d: DeviceState): (r: DeviceState)
    ensures r.state == Mining && r.updateWork && r.stats.lastDupTime == ZERO_TIME
    ensures r.asics == d.asics && r.ticket == d.ticket && r.gh == d.gh && r.job == d.job
    ensures r.jobId == d.jobId && r.failCount == d.failCount
  {
    d.(stats := d.stats.(lastDupTime := ZERO_TIME), updateWork := true, state := Mining)
  }

  /** `compac_scanwork` at now, with `sinceReset` the milliseconds since
      `last_reset` (`ms_tdiff`). */
  function Scanned(d: DeviceState, sinceReset: int, now: Time, c: Config): (r: Scan)
    requires Good(d, c)
    ensures Good(r.d, c)
  {
    if d.nodev then Scan(d, -1)
    else
      match d.state
      case Init => Scan(d.(asics := [], ramping := 0, state := ChipCount), 0)
      case ChipCount =>
        if sinceReset > 5000 then Scan(d.(state := Reset), 0) else Reported(d)
      case ChipCountOk => Scan(TicketSet(d, 0.0, true, now, c).(state := OpenCoreOk), 0)
      case OpenCore => Scan(Ramped(d, c), 0)
      case OpenCoreOk => Scan(Started(d), 0)
      case Reset => Scan(ResetDone(d, now, c), 0)
      case MiningDups => Reported(d.(state := Mining))
      case _ => Reported(d)
  }

  /** INIT starts a chip count with no chips. */
  lemma InitStartsCount(d: DeviceState, sinceReset: int, now: Time, c: Config)
    requires Good(d, c) && !d.nodev && d.state == Init
    ensures var r := Scanned(d, sinceReset, now, c);
      r.d.state == ChipCount && r.d.asics == [] && r.d.ramping == 0 && r.hashes == 0
  {
  }

  /** A chip count still running after five seconds resets the device. */
  lemma CountTimesOut(d: DeviceState, sinceReset: int, now: Time, c: Config)
    requires Good(d, c) && !d.nodev && d.state == ChipCount
    ensures var r := Scanned(d, sinceReset, now, c);
      && (sinceReset > 5000 ==> r.d == d.(state := Reset))
      && (sinceReset <= 5000 ==> r.d.state == ChipCount)
  {
  }

  /** A good count selects the ticket for the chips found (`set_ticket(0.0,
      true)` in `compac_send_chain_inactive`), wiping the histories once they
      have been anchored, and moves on to start work; starting work marks it
      due and enters MINING. */
  lemma CountOkToMining(d: DeviceState, sinceReset: int, now: Time, c: Config)
    requires Good(d, c) && !d.nodev && d.state == ChipCountOk
    ensures var r1 := Scanned(d, sinceReset, now, c);
      && r1.d.state == OpenCoreOk
      && r1.hashes == 0
      && r1.d.ticket == Ticket.SetTicket(d.ticket, 0.0, true, ChipsXCores(d, c))
      && |r1.d.asics| == |d.asics|
      && r1.d.stats == d.stats
      && (Ticket.Changes(d.ticket, 0.0, true, ChipsXCores(d, c)) ==>
            && r1.d.frequencyComputed == 0.0
            && (d.gh.zerosec != 0 ==>
                  r1.d.gh == HashRing.Emptied(now.sec, c.ghDepth)
                  && forall i :: 0 <= i < |d.asics| ==> r1.d.asics[i].chip == ChipRing.Wiped(now.sec, c.chipGeometry))
            && (d.job.zeromin != 0 ==>
                  r1.d.job == JobRing.Emptied(JobRing.JobTime(now.sec, c.jobGeometry), c.jobGeometry)))
      && (!Ticket.Changes(d.ticket, 0.0, true, ChipsXCores(d, c)) ==> r1.d == d.(state := OpenCoreOk))
      && var r2 := Scanned(r1.d, sinceReset, now, c);
        && r2.d.state == Mining && r2.d.updateWork
        && r2.d.ticket == r1.d.ticket && r2.d.asics == r1.d.asics
  {
    var t := TicketSet(d, 0.0, true, now, c);
    assert Scanned(d, sinceReset, now, c) == Scan(t.(state := OpenCoreOk), 0);
    if Ticket.Changes(d.ticket, 0.0, true, ChipsXCores(d, c)) {
      TicketSetWipes(d, 0.0, true, now, c);
    }
  }

  /** RESET always returns to INIT with one more failure, restarts the
      duplicate count and the reset clock, marks new work due, and runs the
      port policy; after
      the first `gh_offset` and `job_offset` it empties both histories and
      every chip history. */
  lemma ResetReinits(d: DeviceState, sinceReset: int, now: Time, c: Config)
    requires Good(d, c) && !d.nodev && d.state == Reset
    ensures var r := Scanned(d, sinceReset, now, c);
      && r.hashes == 0
      && r.d.state == Init
      && r.d.failCount == d.failCount + 1
      && r.d.stats.dupsreset == 0
      && r.d.lastReset == now
      && r.d.updateWork
      && r.d.frequencyComputed == 0.0
      && r.d.initCount == NextInitCount(d.initCount)
      && |r.d.asics| == |d.asics|
      && (d.gh.zerosec != 0 ==>
            r.d.gh == HashRing.Emptied(now.sec, c.ghDepth)
            && forall i :: 0 <= i < |d.asics| ==> r.d.asics[i].chip == ChipRing.Wiped(now.sec, c.chipGeometry))
      && (d.job.zeromin != 0 ==>
            r.d.job == JobRing.Emptied(JobRing.JobTime(now.sec, c.jobGeometry), c.jobGeometry))
  {
    var d1 := Restarted(Prepared(Flushed(d)), now);
    assert d1.gh == d.gh && d1.job == d.job && |d1.asics| == |d.asics|;
    if d.gh.zerosec != 0 {
      GhWipe(d1, now.sec, c);
    }
    if d.job.zeromin != 0 {
      JobRing.AdvancedWipes(GhAdvanced(d1, now.sec, true, c).job, now.sec, true, c.jobGeometry);
    }
  }

  /** MINING_DUPS returns to MINING and reports like MINING. */
  lemma DupsBackToMining(d: DeviceState, sinceReset: int, now: Time, c: Config)
    requires Good(d, c) && !d.nodev && d.state == MiningDups
    ensures var r := Scanned(d, sinceReset, now, c);
      && r.d.state == Mining
      && r == Scanned(d.(state := Mining), sinceReset, now, c)
  {
  }

  /** The ramp of OPEN_CORE ends after more than `cores * add_job_id`. */
  lemma OpenCoreRamps(d: DeviceState, sinceReset: int, now: Time, c: Config)
    requires Good(d, c) && !d.nodev && d.state == OpenCore
    ensures var r := Scanned(d, sinceReset, now, c);
      && r.d.jobId <= c.maxJobId
      && (r.d.state == OpenCoreOk <==> d.ramping > c.cores * c.addJobId)
      && (r.d.state == OpenCore ==> r.d.ramping == d.ramping + c.addJobId)
  {
  }

  /** A device taken off the bus is left alone. */
  lemma NoDeviceStops(d: DeviceState, sinceReset: int, now: Time, c: Config)
    requires Good(d, c) && d.nodev
    ensures Scanned(d, sinceReset, now, c) == Scan(d, -1)
  {
  }
}

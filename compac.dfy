// `struct COMPAC_INFO` as the object the driver's threads update in place:
// the hashrate and job histories and the work-slot table are objects of
// their own, the rest are fields, and every method is proved against the
// function of module Device that says what it leaves.

module Compac {
  import opened Utils
  import opened Ring
  import ChipRing
  import HashRing
  import JobRing
  import Ticket
  import opened Nonce
  import Work
  import Rx
  import Freq
  import opened Device

  class CompacInfo<W> {
    const cfg: Config
    const gh: HashRing.GekkoHash       // gh
    const job: JobRing.GekkoJob        // job
    const slots: Work.WorkSlots<W>     // work[], active_work[], job_id, update_work
    var state: MiningState             // mining_state
    var asics: seq<Asic>               // asics[0 .. chips)
    var ramping: nat                   // ramping
    var ticket: Ticket.TicketState     // the ticket fields
    var stats: Stats                   // the nonce counters
    var failCount: nat                 // fail_count
    var initCount: nat                 // *init_count
    var nodev: bool                    // usbinfo.nodev
    var disabled: bool                 // deven == DEV_DISABLED
    var lastReset: Time                // last_reset
    var frequencyComputed: real        // frequency_computed

    ghost function Model(): DeviceState
      reads this, gh, gh.slots, job, job.slots, slots
    {
      DeviceState(state, asics, ramping, slots.jobId, slots.updateWork, ticket, stats, failCount,
        initCount, nodev, disabled, lastReset, frequencyComputed, gh.Model(), job.Model())
    }

    ghost predicate Valid()
      reads this, gh, gh.slots, job, job.slots, slots
    {
      && gh.Valid() && job.Valid() && slots.Valid()
      && gh.depth == cfg.ghDepth && gh.limit == cfg.ghLimit && job.g == cfg.jobGeometry
      && slots.minId == cfg.minJobId && slots.maxId == cfg.maxJobId && slots.add == cfg.addJobId
      && Good(Model(), cfg)
    }

    /** The record as detection leaves it: INIT, no chips, zeroed counters
        and histories, and an empty work table of `jobMax` slots. */
    constructor (cfg: Config, jobMax: nat)
      requires ConfigOk(cfg) && cfg.maxJobId < jobMax
      ensures Valid() && this.cfg == cfg
      ensures state == Init && asics == [] && stats.nonces == 0 && failCount == 0 && initCount == 0
      ensures gh.Model() == HashRing.Emptied(0, cfg.ghDepth)
      ensures job.Model() == JobRing.Emptied(0, cfg.jobGeometry)
    {
      this.cfg := cfg;
      gh := new HashRing.GekkoHash(cfg.ghDepth, cfg.ghLimit);
      job := new JobRing.GekkoJob(cfg.jobGeometry);
      slots := new Work.WorkSlots(jobMax, cfg.minJobId, cfg.maxJobId, cfg.addJobId);
      state := Init;
      asics := [];
      ramping := 0;
      ticket := Ticket.TicketState(0, 0, 0.0, 0, 0, 0, 0, false, false, 0);
      stats := Stats(0, 0, seq(256, _ => 0), 0, 0, 0, 0, false, 0, ZERO_TIME, 0, 0);
      failCount := 0;
      initCount := 0;
      nodev := false;
      disabled := false;
      lastReset := ZERO_TIME;
      frequencyComputed := 0.0;
    }

    /** The loop of `gh_offset` over `asics[0 .. chips)` on the first call. */
    method AnchorChips(now: int)
      modifies this`asics
      ensures asics == Anchored(old(asics), now)
    {
      ghost var a := asics;
      var i := 0;
      while i < |asics|
        invariant 0 <= i <= |asics| == |a|
        invariant forall j :: 0 <= j < i ==> asics[j] == Anchored(a, now)[j]
        invariant forall j :: i <= j < |a| ==> asics[j] == a[j]
      {
        asics := asics[i := asics[i].(chip := asics[i].chip.(zeroSec := now))];
        i := i + 1;
      }
    }

    /** `gc_wipe_all`. */
    method WipeChips(now: int)
      requires ChipRing.GeometryOk(cfg.chipGeometry)
      modifies this`asics
      ensures asics == AllWiped(old(asics), now, cfg.chipGeometry)
    {
      ghost var a := asics;
      var i := 0;
      while i < |asics|
        invariant 0 <= i <= |asics| == |a|
        invariant forall j :: 0 <= j < i ==> asics[j] == AllWiped(a, now, cfg.chipGeometry)[j]
        invariant forall j :: i <= j < |a| ==> asics[j] == a[j]
      {
        asics := asics[i := asics[i].(chip := ChipRing.Wiped(now, cfg.chipGeometry))];
        i := i + 1;
      }
    }

    /** `gh_offset(now, wipe)`. */
    method GhOffset(now: int, wipe: bool)
      requires Valid()
      modifies this`asics, gh, gh.slots
      ensures Valid()
      ensures Model() == GhAdvanced(old(Model()), now, wipe, cfg)
    {
      if gh.zerosec == 0 {
        AnchorChips(now);
      } else if wipe {
        WipeChips(now);
      }
      var _ := gh.Offset(now, wipe);
    }

    /** `add_gekko_nonce(asic, when)`, at the current ticket difficulty. */
    method AddGekkoNonce(chip: Option<nat>, when: Time)
      requires Valid() && (chip.Some? ==> chip.value < |asics|)
      modifies this`asics, gh, gh.slots
      ensures Valid()
      ensures Model() == NonceAdded(old(Model()), chip, when, cfg)
    {
      GhOffset(when.sec, false);
      RecordSample(when);
      if chip.Some? {
        NoteChip(chip.value, when);
      }
    }

    /** The hashrate half of `add_gekko_nonce`. */
    method RecordSample(when: Time)
      requires Valid()
      modifies gh, gh.slots
      ensures Valid()
      ensures Model() == GhRecorded(old(Model()), when, cfg)
    {
      HashRing.RecordedConsistent(gh.Model(), when, ticket.difficulty);
      gh.Record(when, ticket.difficulty);
    }

    /** The chip half of `add_gekko_nonce`, for chip k. */
    method NoteChip(k: nat, when: Time)
      requires Valid() && k < |asics|
      modifies this`asics
      ensures Valid()
      ensures Model() == ChipNoted(old(Model()), k, when, cfg)
    {
      var h := ChipRing.AddNonce(asics[k].chip, when.sec, cfg.chipGeometry);
      asics := asics[k := asics[k].(chip := h)];
    }

    /** `set_ticket(diff, force)`: the ticket command it sends, if any, and
        the wipes after a change. */
    method SetTicket(diff: real, force: bool, now: Time) returns (sent: Option<seq<byte>>)
      requires Valid() && 0.0 <= diff < 4294967296.0
      modifies this`ticket, this`asics, this`frequencyComputed, gh, gh.slots, job, job.slots
      ensures Valid()
      ensures Model() == TicketSet(old(Model()), diff, force, now, cfg)
      ensures sent.Some? <==> Ticket.Changes(old(ticket), diff, force, ChipsXCores(old(Model()), cfg))
      ensures sent.Some? ==> sent.value == Ticket.TicketFrame(ticket.mask, cfg.ticketReg)
    {
      var cc := Ticket.ChipsCores(|asics|, cfg.cores) as int;
      var choice := Ticket.Choice(diff, cc);
      if choice.None? || (!force && ticket.difficulty == Ticket.TABLE[choice.value].workDiff) {
        return None;
      }
      ticket := Ticket.SetTicket(ticket, diff, force, cc);
      sent := Some(Ticket.TicketFrame(ticket.mask, cfg.ticketReg));
      WipeHistories(now);
    }

    /** `gh_offset(now, true)`, `job_offset(now, true)` and
        `frequency_computed = 0`. */
    method WipeHistories(now: Time)
      requires Valid()
      modifies this`asics, this`frequencyComputed, gh, gh.slots, job, job.slots
      ensures Valid()
      ensures Model() == HistoriesWiped(old(Model()), now, cfg)
    {
      GhOffset(now.sec, true);
      ghost var w := Model();
      job.Offset(now.sec, true);
      assert Model() == w.(job := job.Model());
      frequencyComputed := 0.0;
    }

    /** The ticket check of `compac_gsf_nonce` for a nonce of difficulty diff. */
    method TicketCheck(diff: real, now: Time)
      requires Valid()
      modifies this`ticket, this`asics, this`frequencyComputed, gh, gh.slots, job, job.slots
      ensures Valid()
      ensures Model() == TicketChecked(old(Model()), diff, now, cfg)
    {
      ghost var m := Model();
      var s := Ticket.Check(ticket, diff);
      ticket := s.t;
      assert Model() == m.(ticket := s.t);
      if s.action != Ticket.Keep {
        Reselect(s.action, now);
      }
    }

    /** The reselection of a failed ticket check. */
    method Reselect(action: Ticket.Action, now: Time)
      requires Valid() && action != Ticket.Keep && action == Ticket.Failed(ticket).action
      modifies this`ticket, this`asics, this`frequencyComputed, gh, gh.slots, job, job.slots
      ensures Valid()
      ensures Model() == Reselected(old(Model()), action, now, cfg)
    {
      var _ := SetTicket(0.0, true, now);
      ticket := if action == Ticket.Retry then ticket.(failures := ticket.failures + 1)
                else ticket.(ok := true);
    }

    /** `compac_gsf_nonce` for one queued reply; diff is the outcome of the
        work search and submitted that of `submit_nonce`. */
    method HandleNonce(buf: seq<byte>, diff: real, submitted: bool, now: Time, when: Time)
      requires Valid() && |buf| == RX_LEN && |asics| > 0
      modifies this, gh, gh.slots, job, job.slots
      ensures Valid()
      ensures Model() == NonceHandled(old(Model()), buf, diff, submitted, now, when, cfg)
    {
      var k := AsicId(buf, |asics|, cfg.nb2cSetup, cfg.nb2chip);
      if NonceOf(buf) == asics[k].lastFound {
        CountDuplicate(buf, now);
        return;
      }
      Remember(buf);
      if diff == 0.0 {
        return;
      }
      TicketCheck(diff, now);
      if submitted {
        Accept(k, when);
      }
    }

    /** The duplicate branch of `compac_gsf_nonce`. */
    method CountDuplicate(buf: seq<byte>, now: Time)
      requires Valid() && |buf| == RX_LEN && |asics| > 0
      modifies this`stats, this`asics, this`state
      ensures Valid()
      ensures Model() == Duplicated(old(Model()), buf, now, cfg)
    {
      ghost var d0 := Model();
      ghost var r := Duplicated(d0, buf, now, cfg);
      var k := AsicId(buf, |asics|, cfg.nb2cSetup, cfg.nb2chip);
      assert k == ChipOf(d0, buf, cfg);
      stats := Tallied(stats, buf);
      stats := stats.(dups := stats.dups + 1, dupsall := stats.dupsall + 1,
                      dupsreset := stats.dupsreset + 1, lastDupTime := now);
      asics := asics[k := asics[k].(dupCounter := asics[k].dupCounter + 1,
                                    totalDup := asics[k].totalDup + 1)];
      if stats.dups == 1 {
        state := MiningDups;
      }
      assert stats == r.stats && asics == r.asics && state == r.state;
    }

    /** The tallies and `prev_nonce` / `u32_last_found_nonce` for a fresh nonce. */
    method Remember(buf: seq<byte>)
      requires Valid() && |buf| == RX_LEN && |asics| > 0
      modifies this`stats, this`asics
      ensures Valid()
      ensures Model() == Remembered(old(Model()), buf, cfg)
    {
      var nonce := NonceOf(buf);
      var k := AsicId(buf, |asics|, cfg.nb2cSetup, cfg.nb2chip);
      stats := Tallied(stats, buf);
      stats := stats.(prevNonce := nonce);
      asics := asics[k := asics[k].(lastFound := nonce)];
    }

    /** The accept branch after `submit_nonce` took the nonce of chip k. */
    method Accept(k: nat, when: Time)
      requires Valid() && k < |asics|
      modifies this`stats, this`asics, gh, gh.slots
      ensures Valid()
      ensures Model() == Accepted(old(Model()), k, when, cfg)
    {
      Credit(k);
      AddGekkoNonce(if cfg.nb2cSetup then Some(k) else None, when);
    }

    /** The counters of the accept branch. */
    method Credit(k: nat)
      requires Valid() && k < |asics|
      modifies this`stats, this`asics
      ensures Valid()
      ensures Model() == Credited(old(Model()), k, cfg)
    {
      var s := stats;
      var a := asics[k];
      stats := s.(hashes := s.hashes + ticket.difficulty * 0xffff_ffff, xhashes := s.xhashes + ticket.difficulty,
                  accepted := s.accepted + 1, failing := false, dups := 0);
      asics := asics[k := a.(nonces := a.nonces + 1, dupCounter := 0)];
    }

    /** `gsf_reply`. */
    method GsfReply(f: seq<byte>, now: Time) returns (used: bool)
      requires Valid()
      modifies this`asics
      ensures Valid()
      ensures Gsf(Model(), used) == GsfApplied(old(Model()), f, now, cfg)
    {
      var g := Freq.GsfReply(f, RX_LEN, cfg.freqReg, cfg.toChip, |asics|);
      used := g.Some?;
      if used {
        var k := g.value.chip;
        asics := asics[k := asics[k].(freqReply := g.value.freq, lastFreqReply := now)];
      }
    }

    /** The `switch (mining_state)` of the inner loop for one frame. */
    method Route(f: seq<byte>, okcrc: bool, now: Time) returns (queued: Option<seq<byte>>)
      requires Valid() && |f| == RX_LEN
      modifies this`asics, this`state, this`initCount
      ensures Valid()
      ensures Heard(Model(), queued) == Routed(old(Model()), f, okcrc, now, cfg)
    {
      queued := None;
      if state == ChipCount || state == ChipCountXX {
        if IsChipReply(f) {
          asics := asics + [NewAsic(cfg)];
          state := ChipCountXX;
        } else if state == ChipCountXX {
          if |asics| > 0 {
            state := ChipCountOk;
            initCount := 0;
            if okcrc {
              var _ := GsfReply(f, now);
            }
          } else {
            state := Reset;
          }
        }
      } else if state == Mining {
        var used := false;
        if okcrc {
          used := GsfReply(f, now);
        }
        if !used {
          queued := Some(f);
        }
      } else if okcrc {
        var _ := GsfReply(f, now);
      }
    }

    /** One pass of the outer loop of `compac_listen2`: the chip-count
        request in CHIP_COUNT, the bytes `data` read, every complete frame
        cut and routed, and the settle. `sent` is the request sent, `queued`
        the frames put on the nonce list. */
    method Listen(rx: Rx.RxBuffer, data: seq<byte>, now: Time) returns (sent: Option<seq<byte>>, queued: seq<seq<byte>>)
      requires Valid() && rx.Valid() && rx.rxLen == RX_LEN && rx.pos + |data| <= rx.buf.Length
      modifies this`asics, this`state, this`initCount, rx`pos, rx.buf
      ensures Valid() && rx.Valid()
      ensures sent.Some? <==> old(state) == ChipCount
      ensures sent.Some? ==> sent.value == ChippyFrame()
      ensures var cuts := if |data| > 0 then Rx.Frames(old(rx.Contents()) + data, RX_LEN).cuts else [];
        var rest := if |data| > 0 then Rx.Frames(old(rx.Contents()) + data, RX_LEN).rest else old(rx.Contents()) + data;
        && rx.Contents() == rest
        && ReplySized(cuts)
        && var h := RoutedAll(ListenBegun(old(Model())), cuts, now, cfg);
          queued == h.queued && Model() == Settled(h.d, |data|, |rest|, cfg)
    {
      sent := Begin();
      rx.Append(data);
      var cuts: seq<Rx.Cut> := [];
      if |data| > 0 {
        cuts := rx.Drain();
        Rx.FramesLength(old(rx.Contents()) + data, RX_LEN);
      }
      queued := RouteAll(cuts, now);
      Settle(|data|, rx.pos);
    }

    /** The chip-count request at the top of the outer loop. */
    method Begin() returns (sent: Option<seq<byte>>)
      requires Valid()
      modifies this`state
      ensures Valid()
      ensures Model() == ListenBegun(old(Model()))
      ensures sent.Some? <==> old(state) == ChipCount
      ensures sent.Some? ==> sent.value == ChippyFrame()
    {
      sent := None;
      if state == ChipCount {
        sent := Some(ChippyFrame());
        state := ChipCountXX;
      }
    }

    /** The frames of one read routed in order. */
    method RouteAll(cuts: seq<Rx.Cut>, now: Time) returns (queued: seq<seq<byte>>)
      requires Valid() && ReplySized(cuts)
      modifies this`asics, this`state, this`initCount
      ensures Valid()
      ensures HeardAll(Model(), queued) == RoutedAll(old(Model()), cuts, now, cfg)
    {
      ghost var d0 := Model();
      queued := [];
      var i := 0;
      while i < |cuts|
        invariant 0 <= i <= |cuts|
        invariant Valid()
        invariant HeardAll(Model(), queued) == RoutedAll(d0, cuts[..i], now, cfg)
      {
        RoutedAllSnoc(d0, cuts[..i], cuts[i], now, cfg);
        TakeSnoc(cuts, i);
        ghost var before := queued;
        ghost var h := Routed(Model(), cuts[i].frame, cuts[i].okcrc, now, cfg);
        var q := Route(cuts[i].frame, cuts[i].okcrc, now);
        assert Model() == h.d && q == h.queued;
        if q.Some? {
          queued := queued + [q.value];
        }
        assert HeardAll(Model(), queued) == HeardAll(h.d, before + (if h.queued.Some? then [h.queued.value] else []));
        i := i + 1;
      }
      assert cuts[..i] == cuts;
    }

    /** The settle after the inner loop. */
    method Settle(readBytes: nat, pos: nat)
      requires Valid()
      modifies this`state, this`initCount
      ensures Valid()
      ensures Model() == Settled(old(Model()), readBytes, pos, cfg)
    {
      if (readBytes == 0 || pos < 6) && state == ChipCountXX {
        if |asics| < cfg.expectedChips || |asics| == 0 {
          state := Reset;
        } else {
          state := ChipCountOk;
          initCount := 0;
        }
      }
    }

    /** `compac_prepare`: the per-port count and its policy. */
    method Prepare()
      requires Valid()
      modifies this`initCount, this`nodev, this`disabled
      ensures Valid()
      ensures Model() == Prepared(old(Model()))
    {
      initCount := (initCount + 1) % 256;
      if initCount != 0 && initCount % 5 == 0 {
        nodev := true;
      } else if initCount > 1 {
        if initCount > 10 {
          disabled := true;
        }
      }
    }

    /** `compac_scanwork` with `sinceReset` the milliseconds since
        `last_reset`; hashes is what it returns. */
    method ScanWork(sinceReset: int, now: Time) returns (hashes: int)
      requires Valid()
      modifies this, gh, gh.slots, job, job.slots, slots`jobId, slots`updateWork, slots.active
      ensures Valid()
      ensures Scan(Model(), hashes) == Scanned(old(Model()), sinceReset, now, cfg)
      ensures !old(nodev) && old(state) == Reset ==> slots.active[..] == seq(slots.active.Length, _ => false)
      ensures old(nodev) || old(state) != Reset ==> unchanged(slots.active)
    {
      if nodev {
        return -1;
      }
      hashes := 0;
      match state {
      case Init =>
        StartCount();
      case ChipCount =>
        if sinceReset > 5000 {
          Enter(Reset);
        } else {
          hashes := Report();
        }
      case ChipCountOk =>
        var _ := ChainInactive(now);
      case OpenCore =>
        Ramp();
      case OpenCoreOk =>
        StartMining();
      case Reset =>
        ResetDevice(now);
      case MiningDups =>
        Enter(Mining);
        hashes := Report();
      case _ =>
        hashes := Report();
      }
    }

    /** The INIT branch of `compac_scanwork`: a chip count with no chips. */
    method StartCount()
      requires Valid()
      modifies this`asics, this`ramping, this`state
      ensures Valid()
      ensures Model() == old(Model()).(asics := [], ramping := 0, state := ChipCount)
    {
      asics := [];
      ramping := 0;
      state := ChipCount;
    }

    /** The CHIP_COUNT_OK branch of `compac_scanwork`: of
        `compac_send_chain_inactive`, the ticket set for the chips found
        (`set_ticket(0.0, true)`), whose mask frame is returned; then
        OPEN_CORE_OK. */
    method ChainInactive(now: Time) returns (sent: Option<seq<byte>>)
      requires Valid()
      modifies this`ticket, this`asics, this`frequencyComputed, this`state, gh, gh.slots, job, job.slots
      ensures Valid()
      ensures Model() == TicketSet(old(Model()), 0.0, true, now, cfg).(state := OpenCoreOk)
      ensures sent.Some? <==> Ticket.Changes(old(ticket), 0.0, true, ChipsXCores(old(Model()), cfg))
      ensures sent.Some? ==> sent.value == Ticket.TicketFrame(ticket.mask, cfg.ticketReg)
    {
      sent := SetTicket(0.0, true, now);
      Enter(OpenCoreOk);
    }

    /** A move of `mining_state` alone. */
    method Enter(s: MiningState)
      requires Valid()
      modifies this`state
      ensures Valid()
      ensures Model() == old(Model()).(state := s)
    {
      state := s;
    }

    /** The hash count a scan reports, taken out of the totals. */
    method Report() returns (hashes: int)
      requires Valid()
      modifies this`stats
      ensures Valid()
      ensures Scan(Model(), hashes) == Reported(old(Model()))
    {
      hashes := stats.xhashes * 0xffff_ffff;
      stats := stats.(hashes := 0, xhashes := 0);
    }

    /** The OPEN_CORE branch of `compac_scanwork`. */
    method Ramp()
      requires Valid()
      modifies this`state, this`ramping, slots`jobId
      ensures Valid()
      ensures Model() == Ramped(old(Model()), cfg)
    {
      slots.jobId := ramping % (slots.maxId + 1);
      if ramping > cfg.cores * slots.add {
        state := OpenCoreOk;
      } else {
        ramping := ramping + slots.add;
      }
    }

    /** The OPEN_CORE_OK branch of `compac_scanwork`. */
    method StartMining()
      requires Valid()
      modifies this`state, this`stats, slots`updateWork
      ensures Valid()
      ensures Model() == Started(old(Model()))
    {
      stats := stats.(lastDupTime := ZERO_TIME);
      slots.updateWork := true;
      state := Mining;
    }

    /** The RESET branch of `compac_scanwork`; it starts with
        `compac_flush_work`, which leaves no work slot active. */
    method ResetDevice(now: Time)
      requires Valid()
      modifies this, gh, gh.slots, job, job.slots, slots`updateWork, slots.active
      ensures Valid()
      ensures Model() == ResetDone(old(Model()), now, cfg)
      ensures slots.active[..] == seq(slots.active.Length, _ => false)
    {
      slots.ClearActive();
      Prepare();
      Restart(now);
      WipeHistories(now);
    }

    /** The RESET counters. */
    method Restart(now: Time)
      requires Valid()
      modifies this`failCount, this`stats, this`state, this`lastReset
      ensures Valid()
      ensures Model() == Restarted(old(Model()), now)
    {
      failCount := failCount + 1;
      stats := stats.(dupsreset := 0);
      state := Init;
      lastReset := now;
    }
  }
}

// Ticket mask selection (`set_ticket`) and the ticket validation block of
// `compac_gsf_nonce` in driver-bm1397.c. The nonce difficulty the foreign
// `test_nonce_value` search finds is an input here, a real.

module Ticket {
  import opened Utils
  import opened Crc5
  import opened Frame

  /** `struct S_TICKET_INFO`. */
  datatype TicketInfo = TicketInfo(
    workDiff: nat,       // u32_work_diff
    mask: byte,          // u32_ticket_mask
    noncesCount: nat,    // i32_nonces_count
    lowLimit: real,      // d_low_limit
    hiLimit: real,       // d_hi_limit
    ccLimit: nat)        // u32_chips_x_cores_limit

  /** `s_ticket_info_bm1397`, without its zero terminator: work difficulty
      descending. */
  const TABLE: seq<TicketInfo> := [
    TicketInfo(64, 0xfc, 20000, 65.9, 63.9, 2600),
    TicketInfo(32, 0xf8, 10000, 33.3, 31.9, 1300),
    TicketInfo(16, 0xf0, 5000, 16.9, 15.9, 0),
    TicketInfo(8, 0xe0, 1250, 8.9, 7.9, 0),
    TicketInfo(4, 0xc0, 450, 4.9, 3.9, 0),
    TicketInfo(2, 0x80, 150, 2.9, 1.9, 0),
    TicketInfo(1, 0x00, 50, 1.9, 0.0, 0)
  ]

  const TICKET_DELAY: nat := 8
  const TICKET_BELOW_LIM: nat := 4
  const MAX_TICKET_CHECK: nat := 3

  /** Every entry waits for at least 50 ticket nonces. */
  lemma TableCounts(i: nat)
    requires i < |TABLE|
    ensures TABLE[i].noncesCount >= 50
  {
  }

  /** The work difficulties of the table strictly decrease. */
  lemma TableDescending(i: nat, j: nat)
    requires i < j < |TABLE|
    ensures TABLE[i].workDiff > TABLE[j].workDiff
  {
  }

  /** An entry is eligible for a floored difficulty and a chips x cores product. */
  predicate Matches(e: TicketInfo, udiff: int, cc: int)
  {
    udiff >= e.workDiff && cc > e.ccLimit
  }

  /** The scan of `set_ticket` from entry i on: the first eligible entry. */
  function SelectFrom(udiff: int, cc: int, i: nat): (r: Option<nat>)
    requires i <= |TABLE|
    ensures r.Some? ==> i <= r.value < |TABLE| && Matches(TABLE[r.value], udiff, cc)
    ensures r.Some? ==> forall j :: i <= j < r.value ==> !Matches(TABLE[j], udiff, cc)
    ensures r.None? <==> forall j :: i <= j < |TABLE| ==> !Matches(TABLE[j], udiff, cc)
    decreases |TABLE| - i
  {
    if i == |TABLE| then None
    else if Matches(TABLE[i], udiff, cc) then Some(i)
    else SelectFrom(udiff, cc, i + 1)
  }

  /** The entry `set_ticket` picks: the first one that is eligible, or none. */
  function Select(udiff: int, cc: int): (r: Option<nat>)
    ensures r.Some? ==> r.value < |TABLE| && Matches(TABLE[r.value], udiff, cc)
    ensures r.Some? ==> forall j :: 0 <= j < r.value ==> !Matches(TABLE[j], udiff, cc)
    ensures r.None? <==> forall j :: 0 <= j < |TABLE| ==> !Matches(TABLE[j], udiff, cc)
  {
    SelectFrom(udiff, cc, 0)
  }

  /** The chosen entry has the largest work difficulty of all eligible ones,
      which is the floored difficulty or the closest one below it. */
  lemma SelectIsBest(udiff: int, cc: int, j: nat)
    requires j < |TABLE| && Matches(TABLE[j], udiff, cc)
    ensures Select(udiff, cc).Some?
    ensures TABLE[j].workDiff <= TABLE[Select(udiff, cc).value].workDiff <= udiff
  {
    var i := Select(udiff, cc).value;
    if i < j {
      TableDescending(i, j);
    }
  }

  /** A higher difficulty never gets a lower ticket. */
  lemma SelectMonotone(u1: int, u2: int, cc: int)
    requires u1 <= u2 && Select(u1, cc).Some?
    ensures Select(u2, cc).Some?
    ensures TABLE[Select(u1, cc).value].workDiff <= TABLE[Select(u2, cc).value].workDiff
  {
    SelectIsBest(u2, cc, Select(u1, cc).value);
  }

  /** `cc = chips * cores` as a uint32_t. */
  function ChipsCores(chips: nat, cores: nat): (cc: u32)
    ensures chips * cores < 0x1_0000_0000 ==> cc == chips * cores
  {
    (chips * cores) % 0x1_0000_0000
  }

  /** `if (diff == 0.0) diff = 128`. */
  function EffectiveDiff(diff: real): (d: real)
    ensures diff != 0.0 ==> d == diff
    ensures diff == 0.0 ==> d == 128.0
  {
    if diff == 0.0 then 128.0 else diff
  }

  /** The entry `set_ticket(diff)` selects: by `(uint32_t)floor(diff)`. */
  function Choice(diff: real, cc: int): Option<nat>
    requires 0.0 <= diff < 4294967296.0
  {
    Select(EffectiveDiff(diff).Floor, cc)
  }

  /** Every `set_ticket` in the driver passes 0.0, so the ticket depends on
      the chips x cores product alone. */
  lemma ResetChoice(cc: int)
    ensures Choice(0.0, cc) == if cc > 2600 then Some(0) else if cc > 1300 then Some(1)
      else if cc > 0 then Some(2) else None
  {
    assert (128.0).Floor == 128;
    if cc <= 0 {
      assert !Matches(TABLE[6], 128, cc);
    }
  }

  /** The ticket fields of `struct COMPAC_INFO`. */
  datatype TicketState = TicketState(
    difficulty: nat,     // difficulty
    mask: byte,          // ticket_mask
    lastWorkDiff: real,  // last_work_diff
    number: nat,         // ticket_number
    work: nat,           // ticket_work
    nonces: nat,         // ticket_nonces
    below: nat,          // below_nonces
    ok: bool,            // ticket_ok
    gotLow: bool,        // ticket_got_low
    failures: nat)       // ticket_failures

  /** Entry i has just been set: nothing counted yet. */
  predicate Fresh(t: TicketState, i: nat)
  {
    t.number == i && t.work == 0 && t.nonces == 0 && t.below == 0 && !t.ok && !t.gotLow
  }

  /** The ticket number names an entry, and the failures never pass the
      give-up point by more than one. */
  predicate Valid(t: TicketState)
  {
    t.number < |TABLE| && t.failures <= MAX_TICKET_CHECK + 1
  }

  /** `set_ticket` changes the ticket: an entry is eligible, and it is forced
      or the difficulty differs. */
  predicate Changes(t: TicketState, diff: real, force: bool, cc: int)
    requires 0.0 <= diff < 4294967296.0
  {
    var c := Choice(diff, cc);
    c.Some? && (force || t.difficulty != TABLE[c.value].workDiff)
  }

  /** The ticket fields after `set_ticket(diff, force)`. */
  function SetTicket(t: TicketState, diff: real, force: bool, cc: int): (r: TicketState)
    requires 0.0 <= diff < 4294967296.0
    ensures !Changes(t, diff, force, cc) ==> r == t
    ensures Changes(t, diff, force, cc) ==>
      var i := Choice(diff, cc).value;
      && Fresh(r, i)
      && r.difficulty == TABLE[i].workDiff && r.mask == TABLE[i].mask
      && r.lastWorkDiff == EffectiveDiff(diff)
      && r.failures == t.failures
    ensures Valid(t) ==> Valid(r)
  {
    var c := Choice(diff, cc);
    if c.None? || (!force && t.difficulty == TABLE[c.value].workDiff) then t
    else
      var e := TABLE[c.value];
      t.(difficulty := e.workDiff, mask := e.mask, lastWorkDiff := EffectiveDiff(diff),
         number := c.value, work := 0, nonces := 0, below := 0, ok := false, gotLow := false)
  }

  /** The ticket command `set_ticket` sends: register BM1397TICKET gets mask. */
  function TicketCommand(mask: byte, reg: byte): (c: seq<byte>)
    ensures |c| == 9 && c[3] == reg && c[7] == mask && c[8] == 0
  {
    [0x51, 0x09, 0x00, reg, 0x00, 0x00, 0x00, mask, 0x00]
  }

  /** What `compac_send2(ticket, 9, 8*9-8)` emits. */
  function TicketFrame(mask: byte, reg: byte): seq<byte>
  {
    var c := TicketCommand(mask, reg);
    Framed(c, Crc(c, 8 * |c| - 8))
  }

  /** The ticket frame is 11 bytes: preamble, command, mask in byte 9 and
      the CRC of the first 64 command bits alone in the last byte. */
  lemma TicketFrameShape(mask: byte, reg: byte)
    ensures var f := TicketFrame(mask, reg);
      && |f| == 11
      && f[..10] == [0x55, 0xAA, 0x51, 0x09, 0x00, reg, 0x00, 0x00, 0x00, mask]
      && f[10] as int == Crc(f[2..], 64)
  {
    var c := TicketCommand(mask, reg);
    CommandCrcRecoverable(c, 64);
    OrCrcLowClear(0, Crc(c, 64));
  }

  /** What happens after the counters move: nothing, a retry, or giving up. */
  datatype Action = Keep | Retry | GiveUp

  datatype Step = Step(t: TicketState, action: Action)

  /** `if (ticket_failures > MAX_TICKET_CHECK)` give up, else retry. */
  function Failed(t: TicketState): Step
  {
    Step(t, if t.failures > MAX_TICKET_CHECK then GiveUp else Retry)
  }

  /** The counter updates of the ticket check block for a nonce of
      difficulty diff, and what it then asks of `set_ticket`. */
  function Check(t: TicketState, diff: real): (r: Step)
    requires t.number < |TABLE|
    ensures r.t.number == t.number && r.t.failures in {t.failures, 0}
    ensures r.action != Keep ==> r == Failed(r.t)
  {
    if t.ok || diff <= 0.0 then Step(t, Keep)
    else
      var t1 := t.(work := t.work + 1);
      if t1.work <= TICKET_DELAY then Step(t1, Keep)
      else
        var e := TABLE[t.number];
        var t2 := t1.(nonces := t1.nonces + 1);
        if diff < e.hiLimit then
          var t3 := t2.(below := t2.below + 1);
          if t3.below < TICKET_BELOW_LIM then Step(t3, Keep) else Failed(t3)
        else
          var t3 := if diff < e.lowLimit then t2.(gotLow := true) else t2;
          if t3.work >= e.noncesCount + TICKET_DELAY then
            if t3.gotLow then Step(t3.(ok := true, failures := 0), Keep) else Failed(t3)
          else Step(t3, Keep)
  }

  /** The action carried out: `set_ticket(0.0, true)`, then `ticket_failures++`
      on a retry or `ticket_ok = true` on giving up. */
  function Resolve(s: Step, cc: int): (r: TicketState)
    ensures s.action == Keep ==> r == s.t
    ensures s.action == Retry ==> r == SetTicket(s.t, 0.0, true, cc).(failures := s.t.failures + 1)
    ensures s.action == GiveUp ==> r == SetTicket(s.t, 0.0, true, cc).(ok := true)
  {
    match s.action
    case Keep => s.t
    case Retry => SetTicket(s.t, 0.0, true, cc).(failures := s.t.failures + 1)
    case GiveUp => SetTicket(s.t, 0.0, true, cc).(ok := true)
  }

  /** The ticket fields after one checked nonce. */
  function Checked(t: TicketState, diff: real, cc: int): (r: TicketState)
    requires t.number < |TABLE|
    ensures r.number < |TABLE|
  {
    Resolve(Check(t, diff), cc)
  }

  /** Once confirmed (or given up on), and for a nonce of no difficulty,
      the check changes nothing. */
  lemma CheckedIdle(t: TicketState, diff: real, cc: int)
    requires t.number < |TABLE| && (t.ok || diff <= 0.0)
    ensures Checked(t, diff, cc) == t
  {
  }

  /** The first TICKET_DELAY nonces after a change are only counted. */
  lemma CheckedDelay(t: TicketState, diff: real, cc: int)
    requires t.number < |TABLE| && !t.ok && diff > 0.0 && t.work < TICKET_DELAY
    ensures Checked(t, diff, cc) == t.(work := t.work + 1)
  {
  }

  /** The TICKET_BELOW_LIM-th nonce below d_hi_limit reselects the ticket:
      a retry while the failures are within MAX_TICKET_CHECK, otherwise a
      final reselect that marks the ticket ok. */
  lemma CheckedBelowLimit(t: TicketState, diff: real, cc: int)
    requires t.number < |TABLE| && !t.ok && diff > 0.0 && t.work >= TICKET_DELAY
    requires diff < TABLE[t.number].hiLimit
    ensures var s := t.(work := t.work + 1, nonces := t.nonces + 1, below := t.below + 1);
      var r := Checked(t, diff, cc);
      && (t.below + 1 < TICKET_BELOW_LIM ==> r == s)
      && (t.below + 1 >= TICKET_BELOW_LIM && t.failures <= MAX_TICKET_CHECK ==>
            r == SetTicket(s, 0.0, true, cc).(failures := t.failures + 1))
      && (t.below + 1 >= TICKET_BELOW_LIM && t.failures > MAX_TICKET_CHECK ==>
            r == SetTicket(s, 0.0, true, cc).(ok := true))
  {
  }

  /** At i32_nonces_count + TICKET_DELAY counted nonces, with no nonce below
      d_hi_limit in this one, the ticket is confirmed exactly when a nonce
      below d_low_limit was seen; otherwise the retry or give-up rule applies. */
  lemma CheckedWindowEnd(t: TicketState, diff: real, cc: int)
    requires t.number < |TABLE| && !t.ok && diff > 0.0 && t.work >= TICKET_DELAY
    requires diff >= TABLE[t.number].hiLimit
    requires t.work + 1 >= TABLE[t.number].noncesCount + TICKET_DELAY
    ensures var e := TABLE[t.number];
      var low := t.gotLow || diff < e.lowLimit;
      var s := t.(work := t.work + 1, nonces := t.nonces + 1, gotLow := low);
      var r := Checked(t, diff, cc);
      && (low ==> r == s.(ok := true, failures := 0))
      && (!low ==> r == Resolve(Failed(s), cc))
  {
  }

  /** The check keeps the ticket valid: failures rise by one only from
      within MAX_TICKET_CHECK, and the number stays a table index. */
  lemma CheckedValid(t: TicketState, diff: real, cc: int)
    requires Valid(t)
    ensures Valid(Checked(t, diff, cc))
  {
  }

  /** A retry restarts the count on the entry of `set_ticket(0.0)` with one
      more failure; it does nothing but count the failure when no entry is
      eligible (no chips). */
  lemma RetryRestarts(s: TicketState, cc: int)
    ensures var r := Resolve(Step(s, Retry), cc);
      && r.failures == s.failures + 1
      && (Choice(0.0, cc).Some? ==> Fresh(r, Choice(0.0, cc).value))
      && (Choice(0.0, cc).None? ==> r == s.(failures := s.failures + 1))
  {
  }

  /** The ticket fields after a run of nonces, checked in order. */
  function Feed(t: TicketState, ds: seq<real>, cc: int): (r: TicketState)
    requires t.number < |TABLE|
    ensures r.number < |TABLE|
    decreases |ds|
  {
    if ds == [] then t else Checked(Feed(t, ds[..|ds| - 1], cc), ds[|ds| - 1], cc)
  }

  /** Every nonce has a difficulty and none is below d_hi_limit of entry i. */
  predicate AllAboveHi(ds: seq<real>, i: nat)
    requires i < |TABLE|
  {
    forall j :: 0 <= j < |ds| ==> ds[j] > 0.0 && ds[j] >= TABLE[i].hiLimit
  }

  /** Some nonce after the delay is below d_low_limit of entry i. */
  predicate SawLow(ds: seq<real>, i: nat)
    requires i < |TABLE|
  {
    exists j :: TICKET_DELAY <= j < |ds| && ds[j] < TABLE[i].lowLimit
  }

  /** Dropping the last nonce keeps every nonce above d_hi_limit, and a low
      nonce after the delay was seen in the run exactly when it was seen
      before the last nonce or the last nonce is one. */
  lemma PrefixFacts(ds: seq<real>, i: nat)
    requires i < |TABLE| && ds != [] && AllAboveHi(ds, i)
    ensures AllAboveHi(ds[..|ds| - 1], i)
    ensures ds[|ds| - 1] > 0.0 && ds[|ds| - 1] >= TABLE[i].hiLimit
    ensures SawLow(ds, i) <==>
      (SawLow(ds[..|ds| - 1], i) || (|ds| > TICKET_DELAY && ds[|ds| - 1] < TABLE[i].lowLimit))
  {
    var p := ds[..|ds| - 1];
    assert forall j :: 0 <= j < |p| ==> p[j] == ds[j];
    if SawLow(ds, i) {
      var j :| TICKET_DELAY <= j < |ds| && ds[j] < TABLE[i].lowLimit;
      if j < |p| {
        assert p[j] == ds[j];
      }
    }
  }

  /** Before the window ends, a fresh ticket fed nonces that are never too
      low has counted every nonce, those after the delay as ticket nonces,
      and has noted whether one was below d_low_limit. */
  lemma {:induction false} FeedPending(t: TicketState, ds: seq<real>, cc: int)
    requires t.number < |TABLE| && Fresh(t, t.number)
    requires |ds| < TABLE[t.number].noncesCount + TICKET_DELAY
    requires AllAboveHi(ds, t.number)
    ensures Feed(t, ds, cc) == t.(work := |ds|,
      nonces := if |ds| > TICKET_DELAY then |ds| - TICKET_DELAY else 0,
      gotLow := SawLow(ds, t.number))
    decreases |ds|
  {
    var i := t.number;
    if ds != [] {
      var p := ds[..|ds| - 1];
      var d := ds[|ds| - 1];
      PrefixFacts(ds, i);
      FeedPending(t, p, cc);
      assert Feed(t, ds, cc) == Checked(Feed(t, p, cc), d, cc);
    }
  }

  /** After exactly i32_nonces_count + TICKET_DELAY nonces that are never
      too low, a fresh ticket is confirmed, with no failures, if one of them
      was below d_low_limit; otherwise it is reselected by the failure rule. */
  lemma FeedDecides(t: TicketState, ds: seq<real>, cc: int)
    requires t.number < |TABLE| && Fresh(t, t.number)
    requires |ds| == TABLE[t.number].noncesCount + TICKET_DELAY
    requires AllAboveHi(ds, t.number)
    ensures var r := Feed(t, ds, cc);
      var s := t.(work := |ds|, nonces := |ds| - TICKET_DELAY);
      && (SawLow(ds, t.number) ==> r == s.(gotLow := true, ok := true, failures := 0))
      && (!SawLow(ds, t.number) ==> r == Resolve(Failed(s), cc))
  {
    var i := t.number;
    var p := ds[..|ds| - 1];
    var d := ds[|ds| - 1];
    PrefixFacts(ds, i);
    TableCounts(i);
    assert |p| > TICKET_DELAY;
    FeedPending(t, p, cc);
    var f := Feed(t, p, cc);
    assert f == t.(work := |p|, nonces := |p| - TICKET_DELAY, gotLow := SawLow(p, i));
    assert Feed(t, ds, cc) == Checked(f, d, cc);
    assert d > 0.0 && d >= TABLE[i].hiLimit;
    var low := f.gotLow || d < TABLE[i].lowLimit;
    assert SawLow(ds, i) <==> low;
    CheckedWindowEnd(f, d, cc);
    assert f.(work := f.work + 1, nonces := f.nonces + 1, gotLow := low)
      == t.(work := |ds|, nonces := |ds| - TICKET_DELAY, gotLow := low);
  }
}

// The per-chip nonce-range history of driver-bm1397.c (`struct S_BM1397_CHIP`
// inside each ASIC record): CHNUM slots of CHTIME seconds each, `gc_wipe`,
// `gc_offset` and the chip half of `add_gekko_nonce`.

module ChipRing {
  import opened Ring

  /** CHNUM slots, each CHTIME seconds wide (both set in driver-bm1397.h). */
  datatype Geometry = Geometry(slots: nat, width: nat)

  predicate GeometryOk(g: Geometry)
  {
    g.slots > 0 && g.width > 0
  }

  /** `CHBASE(t)`: the slot-sized period that second t falls in. */
  function Base(t: int, g: Geometry): int
    requires GeometryOk(g)
  {
    t / g.width
  }

  /** The fields of `struct S_BM1397_CHIP` the ring uses. */
  datatype ChipHistory = ChipHistory(
    zeroSec: int,        // time_t_zero_sec
    offset: int,         // i32_offset
    ranges: seq<int>,    // t_i32_nb_nonces_ranges
    nbNonces: int,       // i32_nb_nonces
    lastUsed: int)       // i32_last_used_offset

  /** The running total is the sum of the slots, and indices are in range. */
  predicate Valid(c: ChipHistory, g: Geometry)
  {
    && GeometryOk(g)
    && |c.ranges| == g.slots
    && 0 <= c.offset < g.slots
    && 0 <= c.lastUsed < g.slots
    && NonNeg(c.ranges)
    && c.nbNonces == Sum(c.ranges)
  }

  /** `gc_wipe`: an empty history anchored at now. */
  function Wiped(now: int, g: Geometry): (r: ChipHistory)
    requires GeometryOk(g)
    ensures Valid(r, g)
    ensures r.zeroSec == now && r.offset == 0 && r.nbNonces == 0 && r.lastUsed == 0
    ensures forall j :: 0 <= j < |r.ranges| ==> r.ranges[j] == 0
  {
    SumZeros(g.slots);
    ChipHistory(now, 0, Zeros(g.slots), 0, 0)
  }

  /** `if (nb == 0 && last > 0) last = 0`: no nonces means no history. */
  function DropEmpty(c: ChipHistory): ChipHistory
  {
    if c.nbNonces == 0 && c.lastUsed > 0 then c.(lastUsed := 0) else c
  }

  /** What `gc_offset(now, wipe)` leaves, in closed form: nothing, a full
      wipe, or the slots after the old offset cleared for every period that
      has passed. */
  function Advanced(c: ChipHistory, now: int, wipe: bool, g: Geometry): (r: ChipHistory)
    requires Valid(c, g)
    ensures Valid(r, g)
    ensures Base(r.zeroSec, g) == Base(now, g)
  {
    var delta := Base(now, g) - Base(c.zeroSec, g);
    var moved :=
      if !wipe && delta == 0 then c
      else if wipe || delta < 0 || delta >= g.slots then Wiped(now, g)
      else (
        var rs := Expire(c.ranges, c.offset, delta, 0);
        ChipHistory(now, Fwd(c.offset, delta, g.slots), rs, Sum(rs), Aged(c.lastUsed, delta, g.slots)));
    DropEmpty(moved)
  }

  /** `gc_offset`: the catch-up loop clears one slot per elapsed period and
      takes its count off the running total. */
  method GcOffset(c: ChipHistory, now: int, wipe: bool, g: Geometry) returns (r: ChipHistory)
    requires Valid(c, g)
    ensures r == Advanced(c, now, wipe, g)
    ensures Valid(r, g)
  {
    r := c;
    if wipe || Base(c.zeroSec, g) != Base(now, g) {
      var delta := Base(now, g) - Base(c.zeroSec, g);
      if wipe || delta < 0 || delta >= g.slots {
        r := Wiped(now, g);
      } else {
        r := CatchUp(c, now, delta, g);
        AdvancedMoves(c, now, delta, g);
      }
    } else {
      AdvancedSamePeriod(c, now, g);
    }
    if r.nbNonces == 0 && r.lastUsed > 0 {
      r := r.(lastUsed := 0);
    }
  }

  /** The catch-up loop of `gc_offset` for 0 < delta < CHNUM periods, before
      the empty-history rule. */
  method CatchUp(c: ChipHistory, now: int, delta: nat, g: Geometry) returns (r: ChipHistory)
    requires Valid(c, g) && 0 < delta < g.slots
    ensures DropEmpty(r) == Moved(c, now, delta, g.slots)
  {
    var offset, ranges, nb, last := c.offset, c.ranges, c.nbNonces, c.lastUsed;
    var k := 0;
    while k < delta
      invariant 0 <= k <= delta
      invariant offset == Fwd(c.offset, k, g.slots)
      invariant ranges == Expire(c.ranges, c.offset, k, 0)
      invariant nb == Sum(ranges)
      invariant last == Aged(c.lastUsed, k, g.slots)
    {
      FwdStep(c.offset, k, g.slots);
      offset := Off(offset + 1, g.slots);
      ExpireStep(c.ranges, c.offset, k, 0);
      SumUpdate(ranges, offset, 0);
      nb := nb - ranges[offset];
      ranges := ranges[offset := 0];
      if last < g.slots - 1 {
        last := last + 1;
      }
      k := k + 1;
    }
    r := ChipHistory(now, offset, ranges, nb, last);
  }

  /** A wipe request, time going back, or a jump of at least CHNUM periods
      empties the history and anchors it at now. */
  lemma AdvancedWipes(c: ChipHistory, now: int, wipe: bool, g: Geometry)
    requires Valid(c, g)
    requires var delta := Base(now, g) - Base(c.zeroSec, g);
      wipe || delta < 0 || delta >= g.slots
    ensures Advanced(c, now, wipe, g) == Wiped(now, g)
  {
  }

  /** A jump of delta periods, 0 < delta < CHNUM, clears exactly the delta
      slots after the old offset, moves the offset by delta, and ages `last`
      by delta up to CHNUM-1 (or drops it when no nonces are left). */
  lemma AdvancedCatchUp(c: ChipHistory, now: int, g: Geometry)
    requires Valid(c, g)
    requires var delta := Base(now, g) - Base(c.zeroSec, g);
      0 < delta < g.slots
    ensures var delta := Base(now, g) - Base(c.zeroSec, g);
      var r := Advanced(c, now, false, g);
      && r.zeroSec == now
      && r.offset == (c.offset + delta) % g.slots
      && (forall k :: 1 <= k <= delta ==> r.ranges[Fwd(c.offset, k, g.slots)] == 0)
      && (forall j :: 0 <= j < g.slots && !InWindow(c.offset, delta, g.slots, j) ==> r.ranges[j] == c.ranges[j])
      && r.nbNonces == Sum(r.ranges)
      && r.lastUsed == (if r.nbNonces == 0 then 0 else Aged(c.lastUsed, delta, g.slots))
  {
    var delta := Base(now, g) - Base(c.zeroSec, g);
    FwdIsOff(c.offset, delta, g.slots);
  }

  /** Within one period nothing but the empty-history rule applies. */
  lemma AdvancedSamePeriod(c: ChipHistory, now: int, g: Geometry)
    requires Valid(c, g)
    requires Base(now, g) == Base(c.zeroSec, g)
    ensures Advanced(c, now, false, g) == DropEmpty(c)
  {
  }

  /** Advancing again to the same now changes nothing. */
  lemma AdvancedIdempotent(c: ChipHistory, now: int, g: Geometry)
    requires Valid(c, g)
    ensures var r := Advanced(c, now, false, g);
      Advanced(r, now, false, g) == r
  {
  }

  /** Two histories that agree on everything but the anchor second. */
  predicate SameSlots(a: ChipHistory, b: ChipHistory)
  {
    a.offset == b.offset && a.ranges == b.ranges && a.nbNonces == b.nbNonces && a.lastUsed == b.lastUsed
  }

  /** Catching up to t1 and then to t2 leaves the same slots, offset, total
      and `last` as catching up to t2 at once, for times that move forward by
      less than CHNUM periods in all. */
  lemma AdvancedCompose(c: ChipHistory, t1: int, t2: int, g: Geometry)
    requires Valid(c, g)
    requires Base(c.zeroSec, g) <= Base(t1, g) <= Base(t2, g) < Base(c.zeroSec, g) + g.slots
    ensures SameSlots(Advanced(Advanced(c, t1, false, g), t2, false, g), Advanced(c, t2, false, g))
  {
    var d1 := Base(t1, g) - Base(c.zeroSec, g);
    var d2 := Base(t2, g) - Base(t1, g);
    if d1 == 0 {
      ComposeFirstInPeriod(c, t1, t2, g);
    } else if d2 == 0 {
      AdvancedSamePeriod(Advanced(c, t1, false, g), t2, g);
    } else {
      ComposeBothMove(c, t1, t2, g);
    }
  }

  lemma ComposeFirstInPeriod(c: ChipHistory, t1: int, t2: int, g: Geometry)
    requires Valid(c, g)
    requires Base(c.zeroSec, g) == Base(t1, g) <= Base(t2, g) < Base(c.zeroSec, g) + g.slots
    ensures SameSlots(Advanced(Advanced(c, t1, false, g), t2, false, g), Advanced(c, t2, false, g))
  {
    var d := Base(t2, g) - Base(c.zeroSec, g);
    if d > 0 && c.nbNonces == 0 {
      SumZeroIffZeros(c.ranges);
      ExpireZeros(g.slots, c.offset, d);
      SumZeros(g.slots);
    }
  }

  /** The history moved on by 0 < d < CHNUM periods to now: the slots
      after the offset cleared, the offset moved, `last` aged. */
  function Moved(c: ChipHistory, now: int, d: nat, n: nat): ChipHistory
    requires n > 0 && 0 <= c.lastUsed < n
  {
    var e := Expire(c.ranges, c.offset, d, 0);
    DropEmpty(ChipHistory(now, Fwd(c.offset, d, n), e, Sum(e), Aged(c.lastUsed, d, n)))
  }

  /** Advanced without a wipe by 0 < d < CHNUM periods is Moved. */
  lemma AdvancedMoves(c: ChipHistory, now: int, d: nat, g: Geometry)
    requires Valid(c, g)
    requires 0 < d < g.slots && d == Base(now, g) - Base(c.zeroSec, g)
    ensures Advanced(c, now, false, g) == Moved(c, now, d, g.slots)
  {
  }

  /** Moving d1 and then d2 periods leaves the slots of moving d1 + d2. */
  lemma MovedCompose(c: ChipHistory, t1: int, t2: int, d1: nat, d2: nat, n: nat)
    requires n > 0 && |c.ranges| == n && 0 <= c.offset < n && 0 <= c.lastUsed < n && NonNeg(c.ranges)
    requires 0 < d1 && 0 < d2 && d1 + d2 < n
    ensures 0 <= Moved(c, t1, d1, n).lastUsed < n
    ensures SameSlots(Moved(Moved(c, t1, d1, n), t2, d2, n), Moved(c, t2, d1 + d2, n))
  {
    var e1 := Expire(c.ranges, c.offset, d1, 0);
    var r1 := Moved(c, t1, d1, n);
    var e2 := Expire(r1.ranges, r1.offset, d2, 0);
    var e := Expire(c.ranges, c.offset, d1 + d2, 0);
    assert r1.ranges == e1 && r1.offset == Fwd(c.offset, d1, n);
    ExpireCompose(c.ranges, c.offset, d1, d2, 0);
    assert e2 == e;
    if Sum(e1) == 0 {
      ExpireNonNeg(c.ranges, c.offset, d1);
      SumZeroIffZeros(e1);
      ExpireZeros(n, r1.offset, d2);
      SumZeros(n);
      assert Sum(e2) == 0;
    } else {
      AgedCompose(c.lastUsed, d1, d2, n);
    }
  }

  lemma ComposeBothMove(c: ChipHistory, t1: int, t2: int, g: Geometry)
    requires Valid(c, g)
    requires Base(c.zeroSec, g) < Base(t1, g) < Base(t2, g) < Base(c.zeroSec, g) + g.slots
    ensures SameSlots(Advanced(Advanced(c, t1, false, g), t2, false, g), Advanced(c, t2, false, g))
  {
    var d1: nat := Base(t1, g) - Base(c.zeroSec, g);
    var d2: nat := Base(t2, g) - Base(t1, g);
    var n := g.slots;
    AdvancedMoves(c, t1, d1, g);
    var r1 := Moved(c, t1, d1, n);
    MovedCompose(c, t1, t2, d1, d2, n);
    AdvancedMoves(r1, t2, d2, g);
    AdvancedMoves(c, t2, d1 + d2, g);
    assert SameSlots(Moved(r1, t2, d2, n), Moved(c, t2, d1 + d2, n));
  }

  /** The chip half of `add_gekko_nonce` in closed form: advanced to now
      without a wipe, with one more nonce in the current slot. */
  function Noted(c: ChipHistory, now: int, g: Geometry): (r: ChipHistory)
    requires Valid(c, g)
    ensures Valid(r, g)
    ensures var a := Advanced(c, now, false, g);
      && r.zeroSec == a.zeroSec && r.offset == a.offset && r.lastUsed == a.lastUsed
      && r.ranges == a.ranges[a.offset := a.ranges[a.offset] + 1]
      && r.nbNonces == a.nbNonces + 1
  {
    var a := Advanced(c, now, false, g);
    SumUpdate(a.ranges, a.offset, a.ranges[a.offset] + 1);
    a.(ranges := a.ranges[a.offset := a.ranges[a.offset] + 1], nbNonces := a.nbNonces + 1)
  }

  /** The chip half of `add_gekko_nonce`: advance without a wipe, then count
      the nonce in the current slot and in the running total. */
  method AddNonce(c: ChipHistory, now: int, g: Geometry) returns (r: ChipHistory)
    requires Valid(c, g)
    ensures r == Noted(c, now, g)
  {
    var a := GcOffset(c, now, false, g);
    SumUpdate(a.ranges, a.offset, a.ranges[a.offset] + 1);
    r := a.(ranges := a.ranges[a.offset := a.ranges[a.offset] + 1]);
    r := r.(nbNonces := r.nbNonces + 1);
  }
}

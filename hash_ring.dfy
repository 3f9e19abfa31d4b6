// The hashrate history of driver-bm1397.c (`struct GEKKOHASH info->gh`):
// GHNUM one-second slots, `gh_offset` and the aggregate half of
// `add_gekko_nonce`. The source keeps one array per slot field (diff, firstt,
// firstd, lastt, nonce count); here each slot is one record.

module HashRing {
  import opened Ring

  /** One second of the history. */
  datatype HashSlot = HashSlot(
    diff: int,      // diff[]
    firstt: Time,   // firstt[]
    firstd: int,    // firstd[]
    lastt: Time,    // lastt[]
    count: int)     // t_i32_nb_nonces_ranges[]

  const EMPTY_SLOT := HashSlot(0, ZERO_TIME, 0, ZERO_TIME, 0)

  function Diffs(s: seq<HashSlot>): (r: seq<int>)
    ensures |r| == |s| && forall j :: 0 <= j < |s| ==> r[j] == s[j].diff
  {
    seq(|s|, j requires 0 <= j < |s| => s[j].diff)
  }

  function Counts(s: seq<HashSlot>): (r: seq<int>)
    ensures |r| == |s| && forall j :: 0 <= j < |s| ==> r[j] == s[j].count
  {
    seq(|s|, j requires 0 <= j < |s| => s[j].count)
  }

  /** The abstract state of the history. */
  datatype HashState = HashState(
    zerosec: int,
    offset: int,
    slots: seq<HashSlot>,
    diffsum: int,
    nbNonces: int,
    last: int)

  /** Both running totals are the sums of their slot fields. */
  predicate Consistent(s: HashState, depth: nat)
  {
    && depth > 0
    && |s.slots| == depth
    && 0 <= s.offset < depth
    && 0 <= s.last < depth
    && NonNeg(Diffs(s.slots)) && NonNeg(Counts(s.slots))
    && s.diffsum == Sum(Diffs(s.slots))
    && s.nbNonces == Sum(Counts(s.slots))
  }

  /** The history after the full wipe: every slot empty, anchored at now. */
  function Emptied(now: int, depth: nat): (r: HashState)
    requires depth > 0
    ensures Consistent(r, depth)
    ensures r.zerosec == now && r.offset == 0 && r.diffsum == 0 && r.nbNonces == 0 && r.last == 0
    ensures forall j :: 0 <= j < depth ==> r.slots[j] == EMPTY_SLOT
  {
    var slots := seq(depth, _ => EMPTY_SLOT);
    assert Diffs(slots) == Zeros(depth) && Counts(slots) == Zeros(depth);
    SumZeros(depth);
    HashState(now, 0, slots, 0, 0, 0)
  }

  /** Clearing slots and then taking a field is taking the field and then
      clearing it. */
  lemma ExpireFields(s: seq<HashSlot>, o: int, d: nat)
    ensures Diffs(Expire(s, o, d, EMPTY_SLOT)) == Expire(Diffs(s), o, d, 0)
    ensures Counts(Expire(s, o, d, EMPTY_SLOT)) == Expire(Counts(s), o, d, 0)
  {
  }

  /** `if (i32_nb_nonces == 0 && last > 0) last = 0`. */
  function DropEmpty(s: HashState): HashState
  {
    if s.nbNonces == 0 && s.last > 0 then s.(last := 0) else s
  }

  /** What `gh_offset(now, wipe)` leaves of the history, in closed form. On
      the first call (zerosec 0) only the anchor is set, whatever wipe says. */
  function Advanced(s: HashState, now: int, wipe: bool, depth: nat, limit: nat): (r: HashState)
    requires Consistent(s, depth) && 0 < limit <= depth
    ensures Consistent(r, depth)
    ensures r.nbNonces == 0 ==> r.last == 0
  {
    var moved :=
      if s.zerosec == 0 then s.(zerosec := now)
      else if !wipe && s.zerosec == now then s
      else (
        var delta := now - s.zerosec;
        if wipe || delta < 0 || delta >= limit then Emptied(now, depth)
        else (
          var slots := Expire(s.slots, s.offset, delta, EMPTY_SLOT);
          ExpireFields(s.slots, s.offset, delta);
          HashState(now, Fwd(s.offset, delta, depth), slots,
            Sum(Diffs(slots)), Sum(Counts(slots)), Aged(s.last, delta, depth))));
    DropEmpty(moved)
  }

  /** What the aggregate half of `add_gekko_nonce` adds to an advanced
      history: the difficulty and one nonce in the current second, stamping
      the first time and difficulty when that second had none yet. */
  function Recorded(s: HashState, now: Time, difficulty: nat): (r: HashState)
    requires Consistent(s, |s.slots|)
    ensures |r.slots| == |s.slots| && r.offset == s.offset && r.zerosec == s.zerosec && r.last == s.last
    ensures r.diffsum == s.diffsum + difficulty && r.nbNonces == s.nbNonces + 1
    ensures r.slots[r.offset].count == s.slots[s.offset].count + 1
  {
    var cur := s.slots[s.offset];
    var stamped := if cur.diff == 0 then cur.(firstt := now, firstd := difficulty) else cur;
    var slot := stamped.(lastt := now, diff := cur.diff + difficulty, count := cur.count + 1);
    s.(slots := s.slots[s.offset := slot], diffsum := s.diffsum + difficulty, nbNonces := s.nbNonces + 1)
  }

  /** Recording keeps the totals equal to the slot sums and changes only the
      current slot. */
  lemma RecordedConsistent(s: HashState, now: Time, difficulty: nat)
    requires Consistent(s, |s.slots|)
    ensures var r := Recorded(s, now, difficulty);
      && Consistent(r, |s.slots|)
      && r.diffsum == s.diffsum + difficulty && r.nbNonces == s.nbNonces + 1
      && r.slots[s.offset].diff == s.slots[s.offset].diff + difficulty
      && r.slots[s.offset].count == s.slots[s.offset].count + 1
      && r.slots[s.offset].lastt == now
      && (s.slots[s.offset].diff == 0 ==> r.slots[s.offset].firstt == now && r.slots[s.offset].firstd == difficulty)
      && (s.slots[s.offset].diff != 0 ==> r.slots[s.offset].firstt == s.slots[s.offset].firstt
                                          && r.slots[s.offset].firstd == s.slots[s.offset].firstd)
      && (forall j :: 0 <= j < |s.slots| && j != s.offset ==> r.slots[j] == s.slots[j])
  {
    var r := Recorded(s, now, difficulty);
    var o := s.offset;
    assert Diffs(r.slots) == Diffs(s.slots)[o := s.slots[o].diff + difficulty];
    assert Counts(r.slots) == Counts(s.slots)[o := s.slots[o].count + 1];
    SumUpdate(Diffs(s.slots), o, s.slots[o].diff + difficulty);
    SumUpdate(Counts(s.slots), o, s.slots[o].count + 1);
  }

  /** The first call only anchors the history at now, even when asked to wipe. */
  lemma FirstCallAnchors(s: HashState, now: int, wipe: bool, depth: nat, limit: nat)
    requires Consistent(s, depth) && 0 < limit <= depth
    requires s.zerosec == 0
    ensures Advanced(s, now, wipe, depth, limit) == DropEmpty(s.(zerosec := now))
  {
  }

  /** After the first call, a wipe, time going back or a jump of at least
      GHLIMsec seconds empties every slot and both totals. */
  lemma AdvancedWipes(s: HashState, now: int, wipe: bool, depth: nat, limit: nat)
    requires Consistent(s, depth) && 0 < limit <= depth
    requires s.zerosec != 0
    requires wipe || now < s.zerosec || now - s.zerosec >= limit
    ensures Advanced(s, now, wipe, depth, limit) == Emptied(now, depth)
  {
  }

  /** A jump of delta seconds, 0 < delta < GHLIMsec, empties exactly the delta
      slots after the old offset, moves the offset by delta, and ages `last`
      by delta up to GHNUM-1, or drops it when no nonces are left. */
  lemma AdvancedCatchUp(s: HashState, now: int, depth: nat, limit: nat)
    requires Consistent(s, depth) && 0 < limit <= depth
    requires s.zerosec != 0 && 0 < now - s.zerosec < limit
    ensures var delta := now - s.zerosec;
      var r := Advanced(s, now, false, depth, limit);
      && r.zerosec == now
      && r.offset == (s.offset + delta) % depth
      && (forall k :: 1 <= k <= delta ==> r.slots[Fwd(s.offset, k, depth)] == EMPTY_SLOT)
      && (forall j :: 0 <= j < depth && !InWindow(s.offset, delta, depth, j) ==> r.slots[j] == s.slots[j])
      && r.diffsum == Sum(Diffs(r.slots)) && r.nbNonces == Sum(Counts(r.slots))
      && r.last == (if r.nbNonces == 0 then 0 else Aged(s.last, delta, depth))
  {
    FwdIsOff(s.offset, now - s.zerosec, depth);
  }

  /** Advancing again to the same second changes nothing. */
  lemma AdvancedIdempotent(s: HashState, now: int, depth: nat, limit: nat)
    requires Consistent(s, depth) && 0 < limit <= depth && now != 0
    ensures var r := Advanced(s, now, false, depth, limit);
      Advanced(r, now, false, depth, limit) == r
  {
  }

  /** `info->gh`: the history over one array of slot records. */
  class GekkoHash {
    const depth: nat        // GHNUM
    const limit: nat        // GHLIMsec
    const slots: array<HashSlot>
    var zerosec: int
    var offset: int
    var diffsum: int
    var nbNonces: int
    var last: int

    ghost function Model(): HashState
      reads this, slots
    {
      HashState(zerosec, offset, slots[..], diffsum, nbNonces, last)
    }

    ghost predicate Valid()
      reads this, slots
    {
      0 < limit <= depth && slots.Length == depth && Consistent(Model(), depth)
    }

    /** The zero-initialised history of a freshly allocated device. */
    constructor (depth: nat, limit: nat)
      requires 0 < limit <= depth
      ensures Valid() && this.depth == depth && this.limit == limit
      ensures Model() == Emptied(0, depth)
    {
      this.depth := depth;
      this.limit := limit;
      slots := new HashSlot[depth](_ => EMPTY_SLOT);
      zerosec, offset, diffsum, nbNonces, last := 0, 0, 0, 0, 0;
      new;
      assert slots[..] == Emptied(0, depth).slots;
    }

    /** Every slot emptied in place. */
    method ClearSlots()
      modifies slots
      ensures forall j :: 0 <= j < slots.Length ==> slots[j] == EMPTY_SLOT
    {
      var j := 0;
      while j < slots.Length
        invariant 0 <= j <= slots.Length
        invariant forall i :: 0 <= i < j ==> slots[i] == EMPTY_SLOT
      {
        slots[j] := EMPTY_SLOT;
        j := j + 1;
      }
    }

    /** The full wipe inside `gh_offset`. */
    method Wipe(now: int)
      requires Valid()
      modifies this, slots
      ensures Valid()
      ensures Model() == Emptied(now, depth)
    {
      zerosec := now;
      offset := 0;
      ClearSlots();
      diffsum := 0;
      nbNonces := 0;
      last := 0;
      assert slots[..] == Emptied(now, depth).slots;
    }

    /** The do-while of `gh_offset`: one slot emptied per elapsed second. */
    method CatchUp(now: int, delta: nat)
      requires Valid() && 0 < delta < limit
      modifies this, slots
      ensures Valid()
      ensures var s := old(Model());
        var e := Expire(s.slots, s.offset, delta, EMPTY_SLOT);
        Model() == HashState(now, Fwd(s.offset, delta, depth), e, Sum(Diffs(e)), Sum(Counts(e)), Aged(s.last, delta, depth))
    {
      ghost var s := Model();
      zerosec := now;
      ExpireNone(s.slots, s.offset, EMPTY_SLOT);
      var k := 0;
      while k < delta
        invariant 0 <= k <= delta
        invariant CaughtUp(s, now, k)
      {
        Step(s, now, k);
        k := k + 1;
      }
      ExpireFields(s.slots, s.offset, delta);
      ExpireNonNeg(Diffs(s.slots), s.offset, delta);
      ExpireNonNeg(Counts(s.slots), s.offset, delta);
    }

    /** The state after k passes of the catch-up from s. */
    ghost predicate CaughtUp(s: HashState, now: int, k: nat)
      reads this, slots
    {
      && |s.slots| == depth && 0 <= s.offset < depth && 0 <= s.last < depth && k < depth
      && slots.Length == depth
      && zerosec == now
      && offset == Fwd(s.offset, k, depth)
      && slots[..] == Expire(s.slots, s.offset, k, EMPTY_SLOT)
      && diffsum == Sum(Diffs(slots[..])) && nbNonces == Sum(Counts(slots[..]))
      && last == Aged(s.last, k, depth)
    }

    /** One pass of the catch-up. */
    method Step(ghost s: HashState, now: int, k: nat)
      requires CaughtUp(s, now, k) && k + 1 < depth
      modifies this`offset, this`diffsum, this`nbNonces, this`last, slots
      ensures CaughtUp(s, now, k + 1)
    {
      FwdStep(s.offset, k, depth);
      ExpireStep(s.slots, s.offset, k, EMPTY_SLOT);
      AgedStep(s.last, k, depth);
      ghost var pre := slots[..];
      offset := Off(offset + 1, depth);
      assert offset == Fwd(s.offset, k + 1, depth);
      ClearSlot(offset);
      assert slots[..] == pre[offset := EMPTY_SLOT] == Expire(s.slots, s.offset, k + 1, EMPTY_SLOT);
      if last < depth - 1 {
        last := last + 1;
      }
      assert last == Aged(s.last, k + 1, depth);
    }

    /** One step of the catch-up: the slot's difficulty and count come off
        the totals and the slot is emptied. */
    method ClearSlot(o: nat)
      requires o < slots.Length
      requires diffsum == Sum(Diffs(slots[..])) && nbNonces == Sum(Counts(slots[..]))
      modifies this`diffsum, this`nbNonces, slots
      ensures slots[..] == old(slots[..])[o := EMPTY_SLOT]
      ensures diffsum == Sum(Diffs(slots[..])) && nbNonces == Sum(Counts(slots[..]))
      ensures diffsum == old(diffsum) - old(slots[o].diff) && nbNonces == old(nbNonces) - old(slots[o].count)
    {
      SumUpdate(Diffs(slots[..]), o, 0);
      SumUpdate(Counts(slots[..]), o, 0);
      assert Diffs(slots[..][o := EMPTY_SLOT]) == Diffs(slots[..])[o := 0];
      assert Counts(slots[..][o := EMPTY_SLOT]) == Counts(slots[..])[o := 0];
      diffsum := diffsum - slots[o].diff;
      nbNonces := nbNonces - slots[o].count;
      slots[o] := EMPTY_SLOT;
    }

    /** The history half of `gh_offset(now, wipe)`; `first` reports the
        first call, on which the caller anchors every chip history. */
    method Offset(now: int, wipe: bool) returns (first: bool)
      requires Valid()
      modifies this, slots
      ensures Valid()
      ensures first == (old(zerosec) == 0)
      ensures Model() == Advanced(old(Model()), now, wipe, depth, limit)
    {
      first := zerosec == 0;
      if first {
        zerosec := now;
      } else if wipe || zerosec != now {
        var delta := now - zerosec;
        if wipe || delta < 0 || delta >= limit {
          Wipe(now);
        } else {
          CatchUp(now, delta);
        }
      }
      if nbNonces == 0 && last > 0 {
        last := 0;
      }
    }

    /** The aggregate half of `add_gekko_nonce` after the advance: the nonce
        and its difficulty are counted in the current second. */
    method Record(now: Time, difficulty: nat)
      requires Valid()
      modifies slots, this`diffsum, this`nbNonces
      ensures Valid()
      ensures Model() == Recorded(old(Model()), now, difficulty)
    {
      ghost var a := Model();
      RecordedConsistent(a, now, difficulty);
      var cur := slots[offset];
      if cur.diff == 0 {
        cur := cur.(firstt := now, firstd := difficulty);
      }
      cur := cur.(lastt := now);
      cur := cur.(diff := cur.diff + difficulty);
      diffsum := diffsum + difficulty;
      cur := cur.(count := cur.count + 1);
      nbNonces := nbNonces + 1;
      slots[offset] := cur;
      assert slots[..] == Recorded(a, now, difficulty).slots;
    }

    /** The history half of `add_gekko_nonce`: advance to now, then record. */
    method AddNonce(now: Time, difficulty: nat)
      requires Valid()
      modifies this, slots
      ensures Valid()
      ensures Model() == Recorded(Advanced(old(Model()), now.sec, false, depth, limit), now, difficulty)
    {
      var _ := Offset(now.sec, false);
      Record(now, difficulty);
    }
  }
}

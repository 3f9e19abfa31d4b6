// The job-rate history of driver-bm1397.c (`struct GEKKOJOB info->job`):
// JOBMIN slots of one minute each, `job_offset` and the counting half of
// `add_gekko_job`. The source keeps one array per slot field; here each slot
// is one record (the interval averages are not part of this model).

module JobRing {
  import opened Ring

  /** One minute of the history. */
  datatype JobSlot = JobSlot(
    firstj: Time,   // firstj[]
    lastj: Time,    // lastj[]
    jobnum: int)    // jobnum[]

  const EMPTY_JOB := JobSlot(ZERO_TIME, ZERO_TIME, 0)

  function Jobnums(s: seq<JobSlot>): (r: seq<int>)
    ensures |r| == |s| && forall j :: 0 <= j < |s| ==> r[j] == s[j].jobnum
  {
    seq(|s|, j requires 0 <= j < |s| => s[j].jobnum)
  }

  /** The abstract state of the history. */
  datatype JobState = JobState(
    zeromin: int,
    lastjob: Time,
    offset: int,
    slots: seq<JobSlot>,
    jobsnum: int,
    last: int)

  /** JOBMIN slots, each `width` seconds wide (JOBTIME(t) = t / width), and a
      full wipe after a jump of `limit` (JOBLIMn) periods. */
  datatype Geometry = Geometry(depth: nat, limit: nat, width: nat)

  predicate GeometryOk(g: Geometry)
  {
    0 < g.limit <= g.depth && g.width > 0
  }

  /** `JOBTIME(t)`. */
  function JobTime(t: int, g: Geometry): int
    requires GeometryOk(g)
  {
    t / g.width
  }

  /** The running total is the sum of the slot counts. */
  predicate Consistent(s: JobState, g: Geometry)
  {
    && GeometryOk(g)
    && |s.slots| == g.depth
    && 0 <= s.offset < g.depth
    && 0 <= s.last < g.depth
    && NonNeg(Jobnums(s.slots))
    && s.jobsnum == Sum(Jobnums(s.slots))
  }

  /** The history after the full wipe, anchored at the period now. */
  function Emptied(jobnow: int, g: Geometry): (r: JobState)
    requires GeometryOk(g)
    ensures Consistent(r, g)
    ensures r.zeromin == jobnow && r.lastjob == ZERO_TIME && r.offset == 0 && r.jobsnum == 0 && r.last == 0
    ensures forall j :: 0 <= j < g.depth ==> r.slots[j] == EMPTY_JOB
  {
    var slots := seq(g.depth, _ => EMPTY_JOB);
    assert Jobnums(slots) == Zeros(g.depth);
    SumZeros(g.depth);
    JobState(jobnow, ZERO_TIME, 0, slots, 0, 0)
  }

  lemma ExpireJobnums(s: seq<JobSlot>, o: int, d: nat)
    ensures Jobnums(Expire(s, o, d, EMPTY_JOB)) == Expire(Jobnums(s), o, d, 0)
  {
  }

  /** `if (jobsnum == 0 && last > 0) last = 0`. */
  function DropEmpty(s: JobState): JobState
  {
    if s.jobsnum == 0 && s.last > 0 then s.(last := 0) else s
  }

  /** What `job_offset(now, wipe)` leaves, in closed form. On the first call
      (zeromin 0) only the anchor is set, whatever wipe says. */
  function Advanced(s: JobState, now: int, wipe: bool, g: Geometry): (r: JobState)
    requires Consistent(s, g)
    ensures Consistent(r, g)
    ensures r.jobsnum == 0 ==> r.last == 0
  {
    var jobnow := JobTime(now, g);
    var moved :=
      if s.zeromin == 0 then s.(zeromin := jobnow)
      else if !wipe && s.zeromin == jobnow then s
      else (
        var delta := jobnow - s.zeromin;
        if wipe || delta < 0 || delta >= g.limit then Emptied(jobnow, g)
        else (
          var slots := Expire(s.slots, s.offset, delta, EMPTY_JOB);
          ExpireJobnums(s.slots, s.offset, delta);
          JobState(jobnow, s.lastjob, Fwd(s.offset, delta, g.depth), slots,
            Sum(Jobnums(slots)), Aged(s.last, delta, g.depth))));
    DropEmpty(moved)
  }

  /** One more job in the current minute and in the total, the minute's
      first-job time stamped if it had none, and now as the last-job time. */
  function Counted(a: JobState, now: Time, g: Geometry): (r: JobState)
    requires Consistent(a, g)
    ensures Consistent(r, g)
  {
    var cur := a.slots[a.offset];
    var slot := JobSlot(if cur.jobnum == 0 then now else cur.firstj, now, cur.jobnum + 1);
    SumUpdate(Jobnums(a.slots), a.offset, cur.jobnum + 1);
    assert Jobnums(a.slots[a.offset := slot]) == Jobnums(a.slots)[a.offset := cur.jobnum + 1];
    a.(slots := a.slots[a.offset := slot], jobsnum := a.jobsnum + 1, lastjob := now)
  }

  /** What `add_gekko_job(now, wipe)` leaves: the history advanced to now
      and, unless it was a wipe, the job counted. */
  function JobAdded(s: JobState, now: Time, wipe: bool, g: Geometry): (r: JobState)
    requires Consistent(s, g)
    ensures Consistent(r, g)
  {
    var a := Advanced(s, now.sec, wipe, g);
    if wipe then a else Counted(a, now, g)
  }

  /** The first call only anchors the history, even when asked to wipe. */
  lemma FirstCallAnchors(s: JobState, now: int, wipe: bool, g: Geometry)
    requires Consistent(s, g) && s.zeromin == 0
    ensures Advanced(s, now, wipe, g) == DropEmpty(s.(zeromin := JobTime(now, g)))
  {
  }

  /** After the first call, a wipe, time going back or a jump of at least
      JOBLIMn periods empties every slot, the total and the last-job time. */
  lemma AdvancedWipes(s: JobState, now: int, wipe: bool, g: Geometry)
    requires Consistent(s, g) && s.zeromin != 0
    requires var delta := JobTime(now, g) - s.zeromin;
      wipe || delta < 0 || delta >= g.limit
    ensures Advanced(s, now, wipe, g) == Emptied(JobTime(now, g), g)
  {
  }

  /** A jump of delta periods, 0 < delta < JOBLIMn, empties exactly the delta
      slots after the old offset and moves the offset by delta. */
  lemma AdvancedCatchUp(s: JobState, now: int, g: Geometry)
    requires Consistent(s, g) && s.zeromin != 0
    requires 0 < JobTime(now, g) - s.zeromin < g.limit
    ensures var delta := JobTime(now, g) - s.zeromin;
      var r := Advanced(s, now, false, g);
      && r.zeromin == JobTime(now, g)
      && r.offset == (s.offset + delta) % g.depth
      && (forall k :: 1 <= k <= delta ==> r.slots[Fwd(s.offset, k, g.depth)] == EMPTY_JOB)
      && (forall j :: 0 <= j < g.depth && !InWindow(s.offset, delta, g.depth, j) ==> r.slots[j] == s.slots[j])
      && r.jobsnum == Sum(Jobnums(r.slots))
      && r.last == (if r.jobsnum == 0 then 0 else Aged(s.last, delta, g.depth))
  {
    FwdIsOff(s.offset, JobTime(now, g) - s.zeromin, g.depth);
  }

  /** Advancing again within the same period changes nothing. */
  lemma AdvancedIdempotent(s: JobState, now: int, g: Geometry)
    requires Consistent(s, g) && JobTime(now, g) != 0
    ensures var r := Advanced(s, now, false, g);
      Advanced(r, now, false, g) == r
  {
  }

  /** A job recorded without a wipe adds exactly one to the total and to the
      current minute. */
  lemma JobAddedCounts(s: JobState, now: Time, g: Geometry)
    requires Consistent(s, g)
    ensures var a := Advanced(s, now.sec, false, g);
      var r := JobAdded(s, now, false, g);
      && r.jobsnum == a.jobsnum + 1
      && r.offset == a.offset
      && r.slots[a.offset].jobnum == a.slots[a.offset].jobnum + 1
      && r.slots[a.offset].lastj == now && r.lastjob == now
      && (a.slots[a.offset].jobnum == 0 ==> r.slots[a.offset].firstj == now)
      && (a.slots[a.offset].jobnum != 0 ==> r.slots[a.offset].firstj == a.slots[a.offset].firstj)
      && (forall j :: 0 <= j < g.depth && j != a.offset ==> r.slots[j] == a.slots[j])
  {
  }

  /** `info->job`: the history over one array of slot records. */
  class GekkoJob {
    const g: Geometry
    const slots: array<JobSlot>
    var zeromin: int
    var lastjob: Time
    var offset: int
    var jobsnum: int
    var last: int

    ghost function Model(): JobState
      reads this, slots
    {
      JobState(zeromin, lastjob, offset, slots[..], jobsnum, last)
    }

    ghost predicate Valid()
      reads this, slots
    {
      GeometryOk(g) && slots.Length == g.depth && Consistent(Model(), g)
    }

    /** The zero-initialised history of a freshly allocated device. */
    constructor (g: Geometry)
      requires GeometryOk(g)
      ensures Valid() && this.g == g
      ensures Model() == Emptied(0, g)
    {
      this.g := g;
      slots := new JobSlot[g.depth](_ => EMPTY_JOB);
      zeromin, lastjob, offset, jobsnum, last := 0, ZERO_TIME, 0, 0, 0;
      new;
      assert slots[..] == Emptied(0, g).slots;
    }

    /** Every slot emptied in place. */
    method ClearSlots()
      modifies slots
      ensures forall j :: 0 <= j < slots.Length ==> slots[j] == EMPTY_JOB
    {
      var j := 0;
      while j < slots.Length
        invariant 0 <= j <= slots.Length
        invariant forall i :: 0 <= i < j ==> slots[i] == EMPTY_JOB
      {
        slots[j] := EMPTY_JOB;
        j := j + 1;
      }
    }

    /** The full wipe inside `job_offset`. */
    method Wipe(jobnow: int)
      requires Valid()
      modifies this, slots
      ensures Valid()
      ensures Model() == Emptied(jobnow, g)
    {
      zeromin := jobnow;
      lastjob := ZERO_TIME;
      offset := 0;
      ClearSlots();
      jobsnum := 0;
      last := 0;
      assert slots[..] == Emptied(jobnow, g).slots;
    }

    /** One step of the catch-up: the slot's count comes off the total and
        the slot is emptied. */
    method ClearSlot(o: nat)
      requires o < slots.Length
      requires jobsnum == Sum(Jobnums(slots[..]))
      modifies this`jobsnum, slots
      ensures slots[..] == old(slots[..])[o := EMPTY_JOB]
      ensures jobsnum == Sum(Jobnums(slots[..]))
      ensures jobsnum == old(jobsnum) - old(slots[o].jobnum)
    {
      SumUpdate(Jobnums(slots[..]), o, 0);
      assert Jobnums(slots[..][o := EMPTY_JOB]) == Jobnums(slots[..])[o := 0];
      jobsnum := jobsnum - slots[o].jobnum;
      slots[o] := EMPTY_JOB;
    }

    /** The do-while of `job_offset`: one slot emptied per elapsed period. */
    method CatchUp(jobnow: int, delta: nat)
      requires Valid() && 0 < delta < g.limit
      modifies this, slots
      ensures Valid()
      ensures var s := old(Model());
        var e := Expire(s.slots, s.offset, delta, EMPTY_JOB);
        Model() == JobState(jobnow, s.lastjob, Fwd(s.offset, delta, g.depth), e, Sum(Jobnums(e)), Aged(s.last, delta, g.depth))
    {
      ghost var s := Model();
      zeromin := jobnow;
      ExpireNone(s.slots, s.offset, EMPTY_JOB);
      var k := 0;
      while k < delta
        invariant 0 <= k <= delta
        invariant CaughtUp(s, jobnow, k)
      {
        Step(s, jobnow, k);
        k := k + 1;
      }
      ExpireJobnums(s.slots, s.offset, delta);
      ExpireNonNeg(Jobnums(s.slots), s.offset, delta);
    }

    /** The state after k passes of the catch-up from s. */
    ghost predicate CaughtUp(s: JobState, jobnow: int, k: nat)
      reads this, slots
    {
      && GeometryOk(g) && |s.slots| == g.depth && 0 <= s.offset < g.depth && 0 <= s.last < g.depth && k < g.depth
      && slots.Length == g.depth
      && zeromin == jobnow && lastjob == s.lastjob
      && offset == Fwd(s.offset, k, g.depth)
      && slots[..] == Expire(s.slots, s.offset, k, EMPTY_JOB)
      && jobsnum == Sum(Jobnums(slots[..]))
      && last == Aged(s.last, k, g.depth)
    }

    /** One pass of the catch-up. */
    method Step(ghost s: JobState, jobnow: int, k: nat)
      requires CaughtUp(s, jobnow, k) && k + 1 < g.depth
      modifies this`offset, this`jobsnum, this`last, slots
      ensures CaughtUp(s, jobnow, k + 1)
    {
      FwdStep(s.offset, k, g.depth);
      ExpireStep(s.slots, s.offset, k, EMPTY_JOB);
      AgedStep(s.last, k, g.depth);
      ghost var pre := slots[..];
      offset := Off(offset + 1, g.depth);
      assert offset == Fwd(s.offset, k + 1, g.depth);
      ClearSlot(offset);
      assert slots[..] == pre[offset := EMPTY_JOB] == Expire(s.slots, s.offset, k + 1, EMPTY_JOB);
      if last < g.depth - 1 {
        last := last + 1;
      }
      assert last == Aged(s.last, k + 1, g.depth);
    }

    /** `job_offset(now, wipe)`. */
    method Offset(now: int, wipe: bool)
      requires Valid()
      modifies this, slots
      ensures Valid()
      ensures Model() == Advanced(old(Model()), now, wipe, g)
    {
      ghost var s := Model();
      var jobnow := now / g.width;
      assert jobnow == JobTime(now, g);
      if zeromin == 0 {
        zeromin := jobnow;
        FirstCallAnchors(s, now, wipe, g);
      } else if wipe || zeromin != jobnow {
        var delta := jobnow - zeromin;
        if wipe || delta < 0 || delta >= g.limit {
          Wipe(jobnow);
          AdvancedWipes(s, now, wipe, g);
        } else {
          CatchUp(jobnow, delta);
        }
      }
      ghost var m := Model();
      assert DropEmpty(m) == Advanced(s, now, wipe, g);
      if jobsnum == 0 && last > 0 {
        last := 0;
      }
      assert Model() == DropEmpty(m);
    }

    /** The counting part of `add_gekko_job`. */
    method CountJob(now: Time)
      requires Valid()
      modifies this`jobsnum, this`lastjob, slots
      ensures Model() == Counted(old(Model()), now, g)
      ensures Valid()
    {
      var cur := slots[offset];
      var firstj := if cur.jobnum == 0 then now else cur.firstj;
      slots[offset] := JobSlot(firstj, now, cur.jobnum + 1);
      jobsnum := jobsnum + 1;
      lastjob := now;
      assert slots[..] == old(slots[..])[offset := JobSlot(firstj, now, cur.jobnum + 1)];
    }

    /** `add_gekko_job(now, wipe)` without the interval averages. */
    method AddJob(now: Time, wipe: bool)
      requires Valid()
      modifies this, slots
      ensures Valid()
      ensures Model() == JobAdded(old(Model()), now, wipe, g)
    {
      Offset(now.sec, wipe);
      if !wipe {
        CountJob(now);
      }
    }
  }
}

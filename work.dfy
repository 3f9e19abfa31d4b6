// The work-slot table of driver-bm1397.c: `work[]` and `active_work[]`
// indexed by job id, the job-id roll of `compac_mine2`, the exact-slot
// lookup of `compac_gsf_nonce` and `compac_update_work`.

module Work {
  import opened Utils
  import opened Nonce

  /** `job_id += add_job_id; if (job_id > max_job_id) job_id = min_job_id`. */
  function NextJobId(jobId: int, minId: nat, maxId: nat, add: nat): (r: int)
    ensures r == jobId + add || r == minId
    ensures minId <= maxId && jobId <= maxId ==> r <= maxId
  {
    if jobId + add > maxId then minId else jobId + add
  }

  /** The job id after k rolls. */
  function Rolled(jobId: int, k: nat, minId: nat, maxId: nat, add: nat): int
  {
    if k == 0 then jobId else NextJobId(Rolled(jobId, k - 1, minId, maxId, add), minId, maxId, add)
  }

  /** From `min_job_id`, the k-th roll is k steps of `add_job_id` on while
      that stays within `max_job_id`. */
  lemma {:induction false} RollLinear(k: nat, minId: nat, maxId: nat, add: nat)
    requires minId + add * k <= maxId
    ensures Rolled(minId, k, minId, maxId, add) == minId + add * k
  {
    if k > 0 {
      RollLinear(k - 1, minId, maxId, add);
    }
  }

  /** The roll after the last step that fits wraps back to `min_job_id`. */
  lemma RollWraps(k: nat, minId: nat, maxId: nat, add: nat)
    requires minId + add * k <= maxId < minId + add * (k + 1)
    ensures Rolled(minId, k + 1, minId, maxId, add) == minId
  {
    RollLinear(k, minId, maxId, add);
  }

  /** With the BM1397 settings (min 0x10, step 4, max 0x7f) the job ids run
      0x10, 0x14, ..., 0x7c and then start again: a slot is reused only
      every 28 works. */
  lemma DriverRollPeriod(k: nat)
    requires k < 28
    ensures Rolled(0x10, k, 0x10, 0x7f, 4) == 0x10 + 4 * k
    ensures 0 < k ==> Rolled(0x10, k, 0x10, 0x7f, 4) != 0x10
    ensures Rolled(0x10, 28, 0x10, 0x7f, 4) == 0x10
  {
    RollLinear(k, 0x10, 0x7f, 4);
    RollWraps(27, 0x10, 0x7f, 4);
  }

  /** The exact-slot test of `compac_gsf_nonce`: the work in slot
      `job_id & 0xfc` when that slot exists and is active. */
  function Lookup<W>(work: seq<Option<W>>, active: seq<bool>, maxId: nat, jobId: byte): (r: Option<W>)
    requires |work| == |active| > maxId
    ensures r.Some? ==> Slot(jobId) <= maxId && active[Slot(jobId)] && r == work[Slot(jobId)]
    ensures Slot(jobId) <= maxId && active[Slot(jobId)] ==> r == work[Slot(jobId)]
  {
    var w := Slot(jobId);
    if w <= maxId && active[w] then work[w] else None
  }

  /** Work placed in slot j (a multiple of 4) is found for each of the four
      job ids j..j+3 the chip answers with, one per midstate. */
  lemma LookupPlaced<W>(work: seq<Option<W>>, active: seq<bool>, maxId: nat, j: nat, w: W, m: nat)
    requires |work| == |active| > maxId && j <= maxId && j % 4 == 0 && m < 4 && j + m < 256
    ensures Lookup(work[j := Some(w)], active[j := true], maxId, (j + m) as byte) == Some(w)
  {
    SlotOfSent(j, m);
  }

  /** Placing work in slot j changes no lookup of another slot. */
  lemma LookupOthers<W>(work: seq<Option<W>>, active: seq<bool>, maxId: nat, j: nat, w: W, job: byte)
    requires |work| == |active| > maxId && j <= maxId && Slot(job) != j
    ensures Lookup(work[j := Some(w)], active[j := true], maxId, job) == Lookup(work, active, maxId, job)
  {
  }

  /** With no slot active, no nonce finds its work. */
  lemma LookupInactive<W>(work: seq<Option<W>>, maxId: nat, job: byte)
    requires |work| > maxId
    ensures Lookup(work, seq(|work|, _ => false), maxId, job) == None
  {
  }

  /** `work[JOB_MAX]`, `active_work[JOB_MAX]` and the job id fields of
      `struct COMPAC_INFO`. */
  class WorkSlots<W> {
    const minId: nat      // min_job_id
    const maxId: nat      // max_job_id
    const add: nat        // add_job_id
    const work: array<Option<W>>
    const active: array<bool>
    var jobId: int        // job_id
    var updateWork: bool  // update_work

    ghost predicate Valid()
      reads this
    {
      work.Length == active.Length && minId <= maxId < work.Length && 0 <= jobId <= maxId
    }

    /** Empty slots, none active, job id 0 (the zeroed device record). */
    constructor (jobMax: nat, minId: nat, maxId: nat, add: nat)
      requires minId <= maxId < jobMax
      ensures Valid()
      ensures this.minId == minId && this.maxId == maxId && this.add == add
      ensures work.Length == jobMax && fresh(work) && fresh(active)
      ensures forall i :: 0 <= i < jobMax ==> work[i] == None && !active[i]
      ensures jobId == 0 && !updateWork
    {
      this.minId := minId;
      this.maxId := maxId;
      this.add := add;
      work := new Option<W>[jobMax](_ => None);
      active := new bool[jobMax](_ => false);
      jobId := 0;
      updateWork := false;
    }

    /** The roll in `compac_mine2`: advance the job id, put w in its slot
      and mark it active; the slot's previous occupant is handed back. */
    method Roll(w: W) returns (evicted: Option<W>)
      requires Valid()
      modifies this`jobId, work, active
      ensures jobId == NextJobId(old(jobId), minId, maxId, add)
      ensures evicted == old(work[..])[jobId]
      ensures work[..] == old(work[..])[jobId := Some(w)]
      ensures active[..] == old(active[..])[jobId := true]
      ensures Valid()
    {
      jobId := jobId + add;
      if jobId > maxId {
        jobId := minId;
      }
      evicted := work[jobId];
      work[jobId] := Some(w);
      active[jobId] := true;
    }

    /** The exact-slot test for a reply's job id, on the current table. */
    method Find(job: byte) returns (r: Option<W>)
      requires Valid()
      ensures r == Lookup(work[..], active[..], maxId, job)
    {
      var s := Slot(job);
      r := None;
      if s <= maxId && active[s] {
        r := work[s];
      }
    }

    /** `compac_update_work`: no slot stays active, and an update is due. */
    method ClearActive()
      requires Valid()
      modifies this`updateWork, active
      ensures active[..] == seq(active.Length, _ => false)
      ensures updateWork
      ensures Valid()
    {
      var i := 0;
      while i < active.Length
        invariant 0 <= i <= active.Length
        invariant forall k :: 0 <= k < i ==> !active[k]
      {
        active[i] := false;
        i := i + 1;
      }
      updateWork := true;
    }
  }
}

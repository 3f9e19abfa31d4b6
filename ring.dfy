// Shared bookkeeping of the three time-bucketed rings of driver-bm1397.c
// (the per-chip nonce ring, the hashrate ring and the job ring): the slots a
// catch-up of d steps clears, and running totals as sums over the slots.

module Ring {

  /** A `struct timeval`: seconds and microseconds. */
  datatype Time = Time(sec: int, usec: int)

  const ZERO_TIME := Time(0, 0)

  /** `xOFF(x)` of a ring of n slots: x modulo n, never negative. */
  function Off(x: int, n: nat): (r: nat)
    requires n > 0
    ensures r < n
  {
    x % n
  }

  /** How many steps forward slot j lies from slot o in a ring of n slots. */
  function Dist(o: int, j: int, n: nat): int
  {
    if j >= o then j - o else j - o + n
  }

  /** Slot j is one of the d slots after slot o (all of them once d >= n). */
  predicate InWindow(o: int, d: nat, n: nat, j: int)
  {
    d >= n || 1 <= Dist(o, j, n) <= d
  }

  /** The ring b after clearing, to z, the d slots after slot o. */
  function Expire<T>(b: seq<T>, o: int, d: nat, z: T): (r: seq<T>)
    ensures |r| == |b|
  {
    seq(|b|, j requires 0 <= j < |b| => if InWindow(o, d, |b|, j) then z else b[j])
  }

  /** The slot k < n steps after slot o, wrapping around once. */
  function Fwd(o: int, k: nat, n: nat): int
  {
    if o + k < n then o + k else o + k - n
  }

  /** `xOFF(o + k)` is the slot k steps after o. */
  lemma FwdIsOff(o: int, k: nat, n: nat)
    requires n > 0 && 0 <= o < n && k < n
    ensures Off(o + k, n) == Fwd(o, k, n)
    ensures 0 <= Fwd(o, k, n) < n
  {
  }

  /** Moving k and then one more step is moving k + 1 steps. */
  lemma FwdStep(o: int, k: nat, n: nat)
    requires n > 0 && 0 <= o < n && k + 1 < n
    ensures Off(Fwd(o, k, n) + 1, n) == Fwd(o, k + 1, n)
  {
    FwdIsOff(Fwd(o, k, n), 1, n);
  }

  /** A window one step longer holds exactly one more slot, the next one. */
  lemma WindowStep(o: int, k: nat, n: nat, j: int)
    requires n > 0 && 0 <= o < n && 0 <= j < n && k + 1 < n
    ensures InWindow(o, k + 1, n, j) <==> InWindow(o, k, n, j) || j == Fwd(o, k + 1, n)
  {
  }

  /** One more step of the catch-up clears exactly the next slot. */
  lemma ExpireStep<T>(b: seq<T>, o: int, k: nat, z: T)
    requires 0 <= o < |b| && k + 1 < |b|
    ensures Expire(b, o, k + 1, z) == Expire(b, o, k, z)[Fwd(o, k + 1, |b|) := z]
  {
    var lhs := Expire(b, o, k + 1, z);
    var rhs := Expire(b, o, k, z)[Fwd(o, k + 1, |b|) := z];
    forall j | 0 <= j < |b| ensures lhs[j] == rhs[j] {
      WindowStep(o, k, |b|, j);
    }
  }

  /** A catch-up of no steps changes nothing. */
  lemma ExpireNone<T>(b: seq<T>, o: int, z: T)
    ensures Expire(b, o, 0, z) == b
  {
  }

  /** Catching up d1 steps and then d2 more is one catch-up of d1 + d2 steps. */
  lemma {:induction false} ExpireCompose<T>(b: seq<T>, o: int, d1: nat, d2: nat, z: T)
    requires 0 <= o < |b| && d1 + d2 < |b|
    ensures Expire(Expire(b, o, d1, z), Fwd(o, d1, |b|), d2, z) == Expire(b, o, d1 + d2, z)
  {
    var n := |b|;
    var o2 := Fwd(o, d1, n);
    if d2 == 0 {
      ExpireNone(Expire(b, o, d1, z), o2, z);
    } else {
      ExpireCompose(b, o, d1, d2 - 1, z);
      ExpireStep(Expire(b, o, d1, z), o2, d2 - 1, z);
      ExpireStep(b, o, d1 + d2 - 1, z);
    }
  }

  /** The sum of the slots. */
  function Sum(s: seq<int>): int
  {
    if s == [] then 0 else Sum(s[..|s| - 1]) + s[|s| - 1]
  }

  /** Replacing one slot changes the sum by the difference. */
  lemma {:induction false} SumUpdate(s: seq<int>, i: nat, v: int)
    requires i < |s|
    ensures Sum(s[i := v]) == Sum(s) - s[i] + v
  {
    var t := s[i := v];
    if i == |s| - 1 {
      assert t[..|t| - 1] == s[..|s| - 1];
    } else {
      assert t[..|t| - 1] == s[..|s| - 1][i := v];
      SumUpdate(s[..|s| - 1], i, v);
    }
  }

  /** n zero slots. */
  function Zeros(n: nat): (r: seq<int>)
    ensures |r| == n && forall j :: 0 <= j < n ==> r[j] == 0
  {
    seq(n, _ => 0)
  }

  predicate NonNeg(s: seq<int>)
  {
    forall j :: 0 <= j < |s| ==> s[j] >= 0
  }

  /** A ring of zero slots sums to 0. */
  lemma {:induction false} SumZeros(n: nat)
    ensures Sum(Zeros(n)) == 0
  {
    if n > 0 {
      assert Zeros(n)[..n - 1] == Zeros(n - 1);
      SumZeros(n - 1);
    }
  }

  /** Slots that are never negative sum to 0 only when every slot is 0. */
  lemma {:induction false} SumZeroIffZeros(s: seq<int>)
    requires NonNeg(s)
    ensures Sum(s) >= 0
    ensures Sum(s) == 0 <==> s == Zeros(|s|)
  {
    if s != [] {
      var p := s[..|s| - 1];
      assert NonNeg(p);
      SumZeroIffZeros(p);
      if Sum(s) == 0 {
        assert p == Zeros(|p|);
        assert s == p + [s[|s| - 1]];
      }
      if s == Zeros(|s|) {
        assert p == Zeros(|p|);
        SumZeros(|p|);
      }
    } else {
      assert s == Zeros(0);
    }
  }

  /** Clearing a ring of zero slots leaves it as it is. */
  lemma ExpireZeros(n: nat, o: int, d: nat)
    requires n > 0
    ensures Expire(Zeros(n), o, d, 0) == Zeros(n)
  {
  }

  /** Clearing slots to 0 keeps every slot non-negative. */
  lemma ExpireNonNeg(s: seq<int>, o: int, d: nat)
    requires |s| > 0 && NonNeg(s)
    ensures NonNeg(Expire(s, o, d, 0))
  {
  }

  /** The counter `last` after d steps of `if (last < n-1) last++`. */
  function Aged(last: nat, d: nat, n: nat): (r: nat)
    requires n > 0 && last < n
    ensures last <= r < n
  {
    if last + d < n - 1 then last + d else n - 1
  }

  /** One step of the aging counter. */
  lemma AgedStep(last: nat, k: nat, n: nat)
    requires n > 0 && last < n
    ensures Aged(last, k + 1, n) == (if Aged(last, k, n) < n - 1 then Aged(last, k, n) + 1 else Aged(last, k, n))
  {
  }

  /** Aging d1 steps and then d2 more is aging d1 + d2 steps. */
  lemma AgedCompose(last: nat, d1: nat, d2: nat, n: nat)
    requires n > 0 && last < n
    ensures Aged(Aged(last, d1, n), d2, n) == Aged(last, d1 + d2, n)
  {
  }
}

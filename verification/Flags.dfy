/** Tables of boolean flags: ranges, runs, counts and the leftmost run that is long enough. This is
    the plain view that the packed bitmap and the slab table are proved against. */
module Flags {
  import opened Machine

  ghost predicate RunAt(flags: seq<bool>, p: nat, n: nat, val: bool)
    requires p + n <= |flags|
  {
    forall k | p <= k < p + n :: flags[k] == val
  }

  ghost function Fill(flags: seq<bool>, lo: nat, hi: nat, val: bool): (r: seq<bool>)
    requires lo <= hi <= |flags|
    ensures |r| == |flags|
    ensures forall k | 0 <= k < |flags| :: r[k] == if lo <= k < hi then val else flags[k]
  {
    seq(|flags|, k requires 0 <= k < |flags| => if lo <= k < hi then val else flags[k])
  }

  /** The number of set flags in [lo, hi). */
  function Count(flags: seq<bool>, lo: nat, hi: nat): (n: nat)
    requires lo <= hi <= |flags|
    ensures n <= hi - lo
    decreases hi
  {
    if lo == hi then 0 else Count(flags, lo, hi - 1) + if flags[hi - 1] then 1 else 0
  }

  lemma {:induction false} CountSplit(flags: seq<bool>, lo: nat, mid: nat, hi: nat)
    requires lo <= mid <= hi <= |flags|
    ensures Count(flags, lo, hi) == Count(flags, lo, mid) + Count(flags, mid, hi)
    decreases hi
  {
    if mid < hi {
      CountSplit(flags, lo, mid, hi - 1);
    }
  }

  lemma {:induction false} CountSame(a: seq<bool>, b: seq<bool>, lo: nat, hi: nat)
    requires lo <= hi <= |a| && hi <= |b|
    requires forall k | lo <= k < hi :: a[k] == b[k]
    ensures Count(a, lo, hi) == Count(b, lo, hi)
    decreases hi
  {
    if lo < hi {
      CountSame(a, b, lo, hi - 1);
    }
  }

  lemma {:induction false} CountRun(flags: seq<bool>, lo: nat, hi: nat, val: bool)
    requires lo <= hi <= |flags|
    requires RunAt(flags, lo, hi - lo, val)
    ensures Count(flags, lo, hi) == if val then hi - lo else 0
    decreases hi
  {
    if lo < hi {
      assert flags[hi - 1] == val;
      CountRun(flags, lo, hi - 1, val);
    }
  }

  /** A range counts full exactly when all its flags are set. */
  lemma {:induction false} CountFull(flags: seq<bool>, lo: nat, hi: nat)
    requires lo <= hi <= |flags|
    ensures Count(flags, lo, hi) == hi - lo <==> RunAt(flags, lo, hi - lo, true)
    decreases hi
  {
    if lo < hi {
      CountFull(flags, lo, hi - 1);
      assert RunAt(flags, lo, hi - lo, true) <==> RunAt(flags, lo, hi - 1 - lo, true) && flags[hi - 1];
    }
  }

  /** Filling a range replaces its share of the total and nothing else. */
  lemma CountFill(flags: seq<bool>, lo: nat, hi: nat, val: bool)
    requires lo <= hi <= |flags|
    ensures Count(Fill(flags, lo, hi, val), 0, |flags|)
         == Count(flags, 0, |flags|) - Count(flags, lo, hi) + if val then hi - lo else 0
  {
    var n, filled := |flags|, Fill(flags, lo, hi, val);
    CountSplit(flags, 0, lo, n);
    CountSplit(flags, lo, hi, n);
    CountSplit(filled, 0, lo, n);
    CountSplit(filled, lo, hi, n);
    CountSame(flags, filled, 0, lo);
    CountSame(flags, filled, hi, n);
    CountRun(filled, lo, hi, val);
  }

  ghost predicate IsLeftmostRun(flags: seq<bool>, lo: nat, hi: nat, n: nat, val: bool, p: nat)
    requires hi <= |flags|
  {
    && lo <= p && p + n <= hi && RunAt(flags, p, n, val)
    && forall q | lo <= q < p :: !RunAt(flags, q, n, val)
  }

  ghost predicate NoRun(flags: seq<bool>, lo: nat, hi: nat, n: nat, val: bool)
    requires hi <= |flags|
  {
    forall q | lo <= q && q + n <= hi :: !RunAt(flags, q, n, val)
  }

  /** The leftmost run of n clear flags at or after `from`, if there is one. */
  ghost function FirstFit(flags: seq<bool>, from: nat, n: nat): (r: Option<nat>)
    ensures r.Some? ==> IsLeftmostRun(flags, from, |flags|, n, false, r.value)
    ensures r.None? ==> NoRun(flags, from, |flags|, n, false)
    decreases |flags| - from
  {
    if from + n > |flags| then None
    else if RunAt(flags, from, n, false) then Some(from)
    else if from == |flags| then None
    else FirstFit(flags, from + 1, n)
  }

  lemma FirstFitUnique(flags: seq<bool>, n: nat, p: nat)
    requires IsLeftmostRun(flags, 0, |flags|, n, false, p)
    ensures FirstFit(flags, 0, n) == Some(p)
  {
  }

  lemma FillPrefix(flags: seq<bool>, n: nat, lo: nat, hi: nat, val: bool)
    requires lo <= hi <= n <= |flags|
    ensures Fill(flags, lo, hi, val)[..n] == Fill(flags[..n], lo, hi, val)
  {
  }
}

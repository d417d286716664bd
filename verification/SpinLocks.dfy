/** The spin lock of libk/synch.c as a protocol of any number of threads. The two atomic
    instructions of libk/atomic.c are single steps; everything else interleaves freely. */
module SpinLocks {
  import opened Machine

  /** test_and_set: the old value, and the value left behind. */
  function TestAndSet(val: int): (int, int) {
    (val, 1)
  }

  /** fetch_and_add: the old value, and the value left behind. */
  function FetchAndAdd(val: int, delta: int): (int, int) {
    (val, val + delta)
  }

  /** The check spin_lock_acquire makes before it starts to spin. */
  predicate Plausible(val: int) {
    val == 0 || val == 1
  }

  datatype Pc = Outside | Spinning | Holding

  /** `holder` records the thread whose test_and_set last found the lock free, until it releases;
      `failed` records that some acquire or release has returned an error. */
  datatype State = State(val: int, pcs: seq<Pc>, holder: Option<nat>, failed: bool)

  datatype Step = Enter(t: nat) | Spin(t: nat) | Release(t: nat)

  function Initial(threads: nat): State {
    State(0, seq(threads, _ => Outside), None, false)
  }

  /** A thread may try to enter or spin only where its code does; a release is carried out whoever
      calls it. Steps that do not apply change nothing. */
  function Next(s: State, step: Step): State {
    match step
    case Enter(t) =>
      if t < |s.pcs| && s.pcs[t].Outside? then
        if Plausible(s.val) then s.(pcs := s.pcs[t := Spinning]) else s.(failed := true)
      else s
    case Spin(t) =>
      if t < |s.pcs| && s.pcs[t].Spinning? then
        var (seen, left) := TestAndSet(s.val);
        if seen > 0 then s.(val := left)
        else s.(val := left, pcs := s.pcs[t := Holding], holder := Some(t))
      else s
    case Release(t) =>
      if t < |s.pcs| then
        var (seen, left) := FetchAndAdd(s.val, -1);
        var s' := if s.pcs[t].Holding? then s.(pcs := s.pcs[t := Outside], holder := None) else s;
        s'.(val := left, failed := s.failed || seen != 1)
      else s
  }

  ghost function After(threads: nat, steps: seq<Step>): (s: State)
    ensures |s.pcs| == threads
    decreases |steps|
  {
    if steps == [] then Initial(threads) else Next(After(threads, steps[..|steps| - 1]), steps[|steps| - 1])
  }

  /** Only threads between acquire and release call release. */
  ghost predicate Disciplined(threads: nat, steps: seq<Step>) {
    forall k | 0 <= k < |steps| :: AllowedNext(After(threads, steps[..k]), steps[k])
  }

  ghost predicate AllowedNext(s: State, step: Step) {
    step.Release? && step.t < |s.pcs| ==> s.pcs[step.t].Holding?
  }

  ghost predicate Invariant(s: State) {
    && !s.failed
    && s.val == (if s.holder.Some? then 1 else 0)
    && (s.holder.Some? ==> s.holder.value < |s.pcs|)
    && forall t | 0 <= t < |s.pcs| :: s.pcs[t].Holding? <==> s.holder == Some(t)
  }

  /** A step keeps the invariant exactly when it is not a release by a thread that does not hold. */
  lemma StepKeepsInvariant(s: State, step: Step)
    requires Invariant(s)
    ensures Invariant(Next(s, step)) <==> AllowedNext(s, step)
  {
    if step.Release? && step.t < |s.pcs| && !s.pcs[step.t].Holding? {
      assert Next(s, step).holder == s.holder;
    }
  }

  lemma {:induction false} Reachable(threads: nat, steps: seq<Step>)
    requires Disciplined(threads, steps)
    ensures Invariant(After(threads, steps))
    decreases |steps|
  {
    if steps != [] {
      var n := |steps| - 1;
      forall k | 0 <= k < n
        ensures AllowedNext(After(threads, steps[..n][..k]), steps[..n][k])
      {
        assert steps[..n][..k] == steps[..k];
      }
      Reachable(threads, steps[..n]);
      StepKeepsInvariant(After(threads, steps[..n]), steps[n]);
    }
  }

  /** In every reachable state the lock is 0 or 1, it is 1 exactly when some thread is between acquire
      and release, there is at most one such thread, and no check has ever failed. */
  lemma MutualExclusion(threads: nat, steps: seq<Step>)
    requires Disciplined(threads, steps)
    ensures var s := After(threads, steps);
            && (s.val == 0 || s.val == 1)
            && (s.val == 1 <==> exists t :: 0 <= t < threads && s.pcs[t].Holding?)
            && (forall t, u | 0 <= t < threads && 0 <= u < threads && s.pcs[t].Holding? && s.pcs[u].Holding? :: t == u)
            && !s.failed
  {
    Reachable(threads, steps);
  }

  // ---------------------------------------------------------------- what the calls do

  /** An acquire of a free lock takes it for the caller. */
  lemma AcquireTakes(s: State, t: nat)
    requires Invariant(s) && t < |s.pcs| && s.pcs[t].Outside? && s.holder.None?
    ensures Next(s, Enter(t)) == s.(pcs := s.pcs[t := Spinning])
    ensures Next(Next(s, Enter(t)), Spin(t)) == State(1, s.pcs[t := Holding], Some(t), false)
  {
    assert s.pcs[t := Spinning][t := Holding] == s.pcs[t := Holding];
  }

  /** An attempt takes the lock exactly when it is free, and otherwise changes nothing. */
  lemma SpinExact(s: State, t: nat)
    requires Invariant(s) && t < |s.pcs| && s.pcs[t].Spinning?
    ensures Next(s, Spin(t)) == if s.holder.None? then State(1, s.pcs[t := Holding], Some(t), false) else s
  {
  }

  /** The holder's release frees the lock and lets the holder out. */
  lemma ReleaseFrees(s: State, t: nat)
    requires Invariant(s) && t < |s.pcs| && s.pcs[t].Holding?
    ensures Next(s, Release(t)) == State(0, s.pcs[t := Outside], None, false)
  {
  }

  /** Acquire and release without interruption restore the state. */
  lemma AcquireReleaseRestores(s: State, t: nat)
    requires Invariant(s) && t < |s.pcs| && s.pcs[t].Outside? && s.holder.None?
    ensures Next(Next(Next(s, Enter(t)), Spin(t)), Release(t)) == s
  {
    AcquireTakes(s, t);
    assert s.pcs[t := Holding][t := Outside] == s.pcs;
  }

  /** After the release of the holder, whichever thread spins next holds the lock. */
  lemma Handover(s: State, holder: nat, t: nat)
    requires Invariant(s) && s.holder == Some(holder) && t < |s.pcs| && s.pcs[t].Spinning?
    ensures Next(Next(s, Release(holder)), Spin(t))
            == State(1, s.pcs[holder := Outside][t := Holding], Some(t), false)
  {
    ReleaseFrees(s, holder);
    StepKeepsInvariant(s, Release(holder));
    SpinExact(Next(s, Release(holder)), t);
  }

  /** A release of a free lock fails and leaves the value -1, and from then on every acquire fails. */
  lemma FreeReleaseSpoils(s: State, t: nat, other: nat)
    requires Invariant(s) && s.holder.None? && t < |s.pcs| && other < |s.pcs| && s.pcs[other].Outside?
    ensures var spoilt := Next(s, Release(t));
            spoilt == s.(val := -1, failed := true) && Next(spoilt, Enter(other)) == spoilt
  {
  }

  /** A release by a thread outside, while another one holds the lock, reports no error and lets a
      third one in beside the holder. */
  lemma StrayReleaseLetsIn(s: State, holder: nat, t: nat, other: nat)
    requires Invariant(s) && s.holder == Some(holder)
    requires other < |s.pcs| && s.pcs[other].Outside? && t < |s.pcs| && s.pcs[t].Spinning?
    ensures var after := Next(Next(s, Release(other)), Spin(t));
            !after.failed && after.pcs == s.pcs[t := Holding] && after.pcs[holder].Holding? && holder != t
  {
  }
}

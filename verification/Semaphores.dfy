/** The semaphore of libk/synch.c as a protocol of any number of threads. Each access to a shared
    variable is a step of its own: the check and the spinning of the lock, the test of the value, the
    load and the store of its update, the changes of the list of waiters, and the release. */
module Semaphores {
  import opened Machine
  import SpinLocks

  datatype Call = Down | TryDown | Up

  /** Where a thread stands. Between `Test` and `Unlock` it has the lock. */
  datatype Place =
    | Idle
    | Acquire(call: Call)          // past the check, spinning on the lock
    | Test(call: Call)             // about to look at the value, or at the waiters
    | Load(call: Call)             // about to read the value that it will change
    | Store(call: Call, seen: int) // about to write the changed value
    | Enqueue                      // about to insert itself in the waiters
    | Wake                         // about to take the first waiter out and unblock it
    | Park                         // on the list, about to release the lock
    | Blocked                      // inside thread_block
    | Recheck                      // back from thread_block, before the second acquire
    | Reacquire                    // spinning on the lock again
    | Unlock(call: Call, ok: bool) // about to release the lock and return, with success or not

  datatype Move = Begin(t: nat, call: Call) | Go(t: nat)

  /** The counters record history: `ups` that took effect, decrements of the value (`taken`), waiters
      taken out (`popped`), and returns from thread_block (`resumed`). */
  datatype State = State(
    lock: int, val: int, waiters: seq<nat>, places: seq<Place>,
    holder: Option<nat>, failed: bool,
    ups: nat, taken: nat, popped: nat, resumed: nat)

  predicate HoldsLock(p: Place) {
    p.Test? || p.Load? || p.Store? || p.Enqueue? || p.Wake? || p.Park? || p.Unlock?
  }

  function Initial(threads: nat, val: nat): State {
    State(0, val, [], seq(threads, _ => Idle), None, false, 0, 0, 0, 0)
  }

  function At(s: State, t: nat, p: Place): State
    requires t < |s.places|
  {
    s.(places := s.places[t := p])
  }

  function Spinning(s: State, t: nat, next: Place): State
    requires t < |s.places|
  {
    var (seen, left) := SpinLocks.TestAndSet(s.lock);
    if seen > 0 then s.(lock := left) else At(s, t, next).(lock := left, holder := Some(t))
  }

  function Releasing(s: State, t: nat, next: Place): State
    requires t < |s.places|
  {
    var (seen, left) := SpinLocks.FetchAndAdd(s.lock, -1);
    At(s, t, next).(lock := left, holder := None, failed := s.failed || seen != 1)
  }

  /** The next step of thread t inside its call. */
  function Advance(s: State, t: nat): (s': State)
    requires t < |s.places|
    ensures |s'.places| == |s.places|
  {
    match s.places[t]
    case Idle => s
    case Acquire(call) => Spinning(s, t, Test(call))
    case Test(Up) => At(s, t, if s.waiters != [] then Wake else Load(Up))
    case Test(call) =>
      if s.val > 0 then At(s, t, Load(call))
      else At(s, t, if call == Down then Enqueue else Unlock(call, false))
    case Load(call) => At(s, t, Store(call, s.val))
    case Store(Up, seen) => At(s, t, Unlock(Up, true)).(val := seen + 1, ups := s.ups + 1)
    case Store(call, seen) => At(s, t, Unlock(call, true)).(val := seen - 1, taken := s.taken + 1)
    case Enqueue => At(s, t, Park).(waiters := [t] + s.waiters)
    case Wake =>
      if s.waiters == [] then s
      else At(s, t, Unlock(Up, true)).(waiters := s.waiters[1..], ups := s.ups + 1, popped := s.popped + 1)
    case Park => Releasing(s, t, Blocked)
    case Blocked => At(s, t, Recheck).(resumed := s.resumed + 1)
    case Recheck => if SpinLocks.Plausible(s.lock) then At(s, t, Reacquire) else s.(failed := true)
    case Reacquire => Spinning(s, t, Unlock(Down, true))
    case Unlock(_, _) => Releasing(s, t, Idle)
  }

  function Next(s: State, m: Move): (s': State)
    ensures |s'.places| == |s.places|
  {
    match m
    case Begin(t, call) =>
      if t < |s.places| && s.places[t].Idle? then
        if SpinLocks.Plausible(s.lock) then At(s, t, Acquire(call)) else s.(failed := true)
      else s
    case Go(t) => if t < |s.places| then Advance(s, t) else s
  }

  ghost function After(threads: nat, val: nat, moves: seq<Move>): (s: State)
    ensures |s.places| == threads
    decreases |moves|
  {
    if moves == [] then Initial(threads, val)
    else Next(After(threads, val, moves[..|moves| - 1]), moves[|moves| - 1])
  }

  // ---------------------------------------------------------------- safety and conservation

  ghost predicate Locked(s: State) {
    && !s.failed
    && s.lock == (if s.holder.Some? then 1 else 0)
    && (s.holder.Some? ==> s.holder.value < |s.places|)
    && forall t | 0 <= t < |s.places| :: HoldsLock(s.places[t]) <==> s.holder == Some(t)
  }

  /** What the thread that has the lock already knows about the data. */
  ghost predicate Knows(s: State, p: Place) {
    match p
    case Load(Up) => s.waiters == []
    case Load(call) => s.val > 0
    case Store(Up, seen) => seen == s.val && s.waiters == []
    case Store(call, seen) => seen == s.val && s.val > 0
    case Enqueue => s.val == 0
    case Wake => s.waiters != []
    case _ => true
  }

  ghost predicate Conserved(s: State, initial: nat) {
    && s.val >= 0
    && (s.waiters != [] ==> s.val == 0)
    && initial + s.ups == s.val + s.taken + s.popped
  }

  ghost predicate Invariant(s: State, initial: nat) {
    && Locked(s)
    && Conserved(s, initial)
    && (s.holder.Some? ==> Knows(s, s.places[s.holder.value]))
  }

  lemma AdvanceKeepsLocked(s: State, t: nat)
    requires Locked(s) && t < |s.places|
    ensures Locked(Advance(s, t))
  {
  }

  /** The data change only under the lock, so what its holder knows stays true until it acts. */
  lemma AdvanceKeepsData(s: State, initial: nat, t: nat)
    requires Invariant(s, initial) && t < |s.places|
    ensures Conserved(Advance(s, t), initial)
    ensures var s' := Advance(s, t);
            s'.holder.Some? && s'.holder.value < |s'.places| ==> Knows(s', s'.places[s'.holder.value])
  {
    assert HoldsLock(s.places[t]) <==> s.holder == Some(t);
  }

  lemma NextKeepsInvariant(s: State, initial: nat, m: Move)
    requires Invariant(s, initial)
    ensures Invariant(Next(s, m), initial)
  {
    if m.Go? && m.t < |s.places| {
      AdvanceKeepsLocked(s, m.t);
      AdvanceKeepsData(s, initial, m.t);
    }
  }

  lemma {:induction false} Reachable(threads: nat, val: nat, moves: seq<Move>)
    ensures Invariant(After(threads, val, moves), val)
    decreases |moves|
  {
    if moves != [] {
      var before := moves[..|moves| - 1];
      Reachable(threads, val, before);
      NextKeepsInvariant(After(threads, val, before), val, moves[|moves| - 1]);
    }
  }

  /** In every reachable state the value is not negative, threads wait only while it is zero, no lock
      operation has failed, and the initial value plus the ups equals what is left of the value plus
      the decrements plus the waiters let go. */
  lemma Conservation(threads: nat, val: nat, moves: seq<Move>)
    ensures var s := After(threads, val, moves);
            && s.val >= 0
            && (s.waiters != [] ==> s.val == 0)
            && val + s.ups == s.val + s.taken + s.popped
            && !s.failed
  {
    Reachable(threads, val, moves);
  }

  // ---------------------------------------------------------------- blocking

  /** On the list of waiters, or taken out of it but not yet back from thread_block. */
  predicate Parked(p: Place) {
    p.Park? || p.Blocked?
  }

  /** Taken out of the list by an up, but not yet back from thread_block. */
  function Pending(s: State): set<nat> {
    set t | 0 <= t < |s.places| && Parked(s.places[t]) && t !in s.waiters
  }

  /** The threads on the list are parked and on it once, and every waiter that an up took out is
      pending or has resumed. */
  ghost predicate Queued(s: State) {
    && (forall i | 0 <= i < |s.waiters| :: s.waiters[i] < |s.places| && Parked(s.places[s.waiters[i]]))
    && (forall i, j | 0 <= i < j < |s.waiters| :: s.waiters[i] != s.waiters[j])
    && s.resumed + |Pending(s)| == s.popped
  }

  /** thread_block does not return to a thread that is still on the list. */
  ghost predicate Patient(s: State, m: Move) {
    m.Go? && m.t < |s.places| && s.places[m.t].Blocked? ==> m.t !in s.waiters
  }

  lemma EnqueueKeepsQueued(s: State, t: nat)
    requires Queued(s) && t < |s.places| && s.places[t].Enqueue?
    ensures Queued(Advance(s, t))
  {
    assert Pending(Advance(s, t)) == Pending(s);
  }

  lemma WakeKeepsQueued(s: State, t: nat)
    requires Queued(s) && t < |s.places| && s.places[t].Wake? && s.waiters != []
    ensures Queued(Advance(s, t))
  {
    var s', first := Advance(s, t), s.waiters[0];
    assert s.waiters == [first] + s'.waiters;
    assert first in s.waiters && first !in Pending(s);
    assert Pending(s') == Pending(s) + {first};
  }

  lemma ResumeKeepsQueued(s: State, t: nat)
    requires Queued(s) && t < |s.places| && s.places[t].Blocked? && t !in s.waiters
    ensures Queued(Advance(s, t))
  {
    assert t in Pending(s) && Pending(Advance(s, t)) == Pending(s) - {t};
  }

  /** Any other move changes neither the list, nor the counters, nor who is parked. */
  ghost predicate SameQueue(s: State, s': State) {
    && s'.waiters == s.waiters && s'.resumed == s.resumed && s'.popped == s.popped
    && |s'.places| == |s.places|
    && forall u | 0 <= u < |s.places| :: Parked(s'.places[u]) == Parked(s.places[u])
  }

  /** Nothing but the place of t, and not whether t is parked. */
  ghost predicate MovesAlone(s: State, s': State, t: nat)
    requires t < |s.places|
  {
    && s'.waiters == s.waiters && s'.resumed == s.resumed && s'.popped == s.popped
    && |s'.places| == |s.places| && s'.places == s.places[t := s'.places[t]]
    && Parked(s'.places[t]) == Parked(s.places[t])
  }

  predicate LockStep(p: Place) {
    p.Acquire? || p.Park? || p.Recheck? || p.Reacquire? || p.Unlock?
  }

  lemma LockAdvance(s: State, t: nat)
    requires t < |s.places| && LockStep(s.places[t])
    ensures MovesAlone(s, Advance(s, t), t)
  {
  }

  lemma DataAdvance(s: State, t: nat)
    requires t < |s.places| && (s.places[t].Test? || s.places[t].Load? || s.places[t].Store?)
    ensures MovesAlone(s, Advance(s, t), t)
  {
  }

  lemma OtherAdvance(s: State, t: nat)
    requires t < |s.places| && !s.places[t].Enqueue? && !s.places[t].Blocked? && (s.places[t].Wake? ==> s.waiters == [])
    ensures MovesAlone(s, Advance(s, t), t)
  {
    if LockStep(s.places[t]) {
      LockAdvance(s, t);
    } else if !s.places[t].Idle? && !s.places[t].Wake? {
      DataAdvance(s, t);
    }
  }

  lemma OtherMoves(s: State, m: Move)
    requires m.Go? && m.t < |s.places| ==>
               !s.places[m.t].Enqueue? && !s.places[m.t].Blocked? && (s.places[m.t].Wake? ==> s.waiters == [])
    ensures SameQueue(s, Next(s, m))
  {
    if m.Go? && m.t < |s.places| {
      OtherAdvance(s, m.t);
    }
  }

  lemma SameQueueKeepsQueued(s: State, s': State)
    requires Queued(s) && SameQueue(s, s')
    ensures Queued(s')
  {
    assert Pending(s') == Pending(s);
  }

  /** A move keeps the queue in order exactly when it is patient. */
  lemma NextKeepsQueued(s: State, m: Move)
    requires Queued(s)
    ensures Queued(Next(s, m)) <==> Patient(s, m)
  {
    if m.Go? && m.t < |s.places| && s.places[m.t].Enqueue? {
      EnqueueKeepsQueued(s, m.t);
    } else if m.Go? && m.t < |s.places| && s.places[m.t].Wake? && s.waiters != [] {
      WakeKeepsQueued(s, m.t);
    } else if m.Go? && m.t < |s.places| && s.places[m.t].Blocked? {
      if m.t in s.waiters {
        var i :| 0 <= i < |s.waiters| && s.waiters[i] == m.t;
        assert !Parked(Next(s, m).places[Next(s, m).waiters[i]]);
      } else {
        ResumeKeepsQueued(s, m.t);
      }
    } else {
      OtherMoves(s, m);
      SameQueueKeepsQueued(s, Next(s, m));
    }
  }

  ghost predicate AllPatient(threads: nat, val: nat, moves: seq<Move>)
    decreases |moves|
  {
    moves != [] ==>
      var before := moves[..|moves| - 1];
      AllPatient(threads, val, before) && Patient(After(threads, val, before), moves[|moves| - 1])
  }

  lemma {:induction false} ReachableQueued(threads: nat, val: nat, moves: seq<Move>)
    requires AllPatient(threads, val, moves)
    ensures Queued(After(threads, val, moves))
    decreases |moves|
  {
    if moves == [] {
      assert Pending(After(threads, val, moves)) == {};
    } else {
      var before := moves[..|moves| - 1];
      ReachableQueued(threads, val, before);
      NextKeepsQueued(After(threads, val, before), moves[|moves| - 1]);
    }
  }

  /** As long as thread_block keeps waiters blocked, no more downs are let through than the initial
      value and the ups allow. */
  lemma NoMoreDownsThanUps(threads: nat, val: nat, moves: seq<Move>)
    requires AllPatient(threads, val, moves)
    ensures var s := After(threads, val, moves);
            && s.taken + s.resumed <= val + s.ups
            && val + s.ups == s.val + s.taken + s.resumed + |Pending(s)|
  {
    Reachable(threads, val, moves);
    ReachableQueued(threads, val, moves);
  }
}

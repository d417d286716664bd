/** What the calls of the semaphore of libk/synch.c do: each of them when it runs alone, and all that
    have returned in any run. */
module SemaphoreCalls {
  import opened Machine
  import opened Semaphores

  // ---------------------------------------------------------------- calls that run alone

  /** n steps of thread t. */
  ghost function Solo(s: State, t: nat, n: nat): (s': State)
    requires t < |s.places|
    ensures |s'.places| == |s.places|
  {
    if n == 0 then s else Advance(Solo(s, t, n - 1), t)
  }

  /** Thread t begins a call and makes n steps. */
  ghost function Calling(s: State, t: nat, call: Call, n: nat): State
    requires t < |s.places|
  {
    Solo(Next(s, Begin(t, call)), t, n)
  }

  /** The state s with thread t at a place at which it has the lock. */
  function Inside(s: State, t: nat, p: Place): State
    requires t < |s.places|
  {
    At(s, t, p).(lock := 1, holder := Some(t))
  }

  /** Nobody has the lock, and t is not in a call. */
  ghost predicate AtRest(s: State, initial: nat, t: nat) {
    Invariant(s, initial) && s.holder.None? && t < |s.places| && s.places[t].Idle?
  }

  lemma EnterAlone(s: State, initial: nat, t: nat, call: Call)
    requires AtRest(s, initial, t)
    ensures Calling(s, t, call, 1) == Inside(s, t, Test(call))
  {
    assert Calling(s, t, call, 0) == At(s, t, Acquire(call));
    assert s.places[t := Acquire(call)][t := Test(call)] == s.places[t := Test(call)];
  }

  /** A step inside the lock that only moves on. */
  lemma StepInside(s: State, t: nat, p: Place)
    requires t < |s.places| && (p.Test? || p.Load?)
    ensures Advance(Inside(s, t, p), t)
            == match p
               case Load(call) => Inside(s, t, Store(call, s.val))
               case Test(call) =>
                 Inside(s, t, if call == Up then if s.waiters != [] then Wake else Load(Up)
                              else if s.val > 0 then Load(call)
                              else if call == Down then Enqueue else Unlock(TryDown, false))
               case _ => s
  {
    var moved := Advance(Inside(s, t, p), t).places[t];
    assert s.places[t := p][t := moved] == s.places[t := moved];
  }

  lemma LeaveAlone(s: State, t: nat, call: Call, ok: bool)
    requires t < |s.places| && s.lock == 0 && s.holder.None? && s.places[t].Idle? && !s.failed
    ensures Advance(Inside(s, t, Unlock(call, ok)), t) == s
  {
    assert s.places[t := Unlock(call, ok)][t := Idle] == s.places;
  }

  /** The load, the store and the release of an update. */
  lemma UpdateAlone(s: State, initial: nat, t: nat, call: Call)
    requires AtRest(s, initial, t)
    requires if call == Up then s.waiters == [] else s.val > 0
    ensures var changed := if call == Up then s.(val := s.val + 1, ups := s.ups + 1)
                           else s.(val := s.val - 1, taken := s.taken + 1);
            && Calling(s, t, call, 4) == Inside(changed, t, Unlock(call, true))
            && Calling(s, t, call, 5) == changed
  {
    var changed := if call == Up then s.(val := s.val + 1, ups := s.ups + 1)
                   else s.(val := s.val - 1, taken := s.taken + 1);
    EnterAlone(s, initial, t, call);
    StepInside(s, t, Test(call));
    assert Calling(s, t, call, 2) == Inside(s, t, Load(call));
    StepInside(s, t, Load(call));
    assert Calling(s, t, call, 3) == Inside(s, t, Store(call, s.val));
    assert s.places[t := Store(call, s.val)][t := Unlock(call, true)] == s.places[t := Unlock(call, true)];
    assert Calling(s, t, call, 4) == Inside(changed, t, Unlock(call, true));
    LeaveAlone(changed, t, call, true);
  }

  /** An up without waiters raises the value; with waiters it takes the front one out instead. */
  lemma UpAlone(s: State, initial: nat, t: nat)
    requires AtRest(s, initial, t)
    ensures if s.waiters == [] then Calling(s, t, Up, 5) == s.(val := s.val + 1, ups := s.ups + 1)
            else Calling(s, t, Up, 4) == s.(waiters := s.waiters[1..], ups := s.ups + 1, popped := s.popped + 1)
  {
    if s.waiters == [] {
      UpdateAlone(s, initial, t, Up);
    } else {
      var changed := s.(waiters := s.waiters[1..], ups := s.ups + 1, popped := s.popped + 1);
      EnterAlone(s, initial, t, Up);
      StepInside(s, t, Test(Up));
      assert Calling(s, t, Up, 2) == Inside(s, t, Wake);
      assert s.places[t := Wake][t := Unlock(Up, true)] == s.places[t := Unlock(Up, true)];
      assert Calling(s, t, Up, 3) == Inside(changed, t, Unlock(Up, true));
      LeaveAlone(changed, t, Up, true);
    }
  }

  /** A try_down takes one off a positive value and succeeds; at 0 it fails and leaves no trace. */
  lemma TryDownAlone(s: State, initial: nat, t: nat)
    requires AtRest(s, initial, t)
    ensures s.val > 0 ==>
              && Calling(s, t, TryDown, 4).places[t] == Unlock(TryDown, true)
              && Calling(s, t, TryDown, 5) == s.(val := s.val - 1, taken := s.taken + 1)
    ensures s.val == 0 ==>
              && Calling(s, t, TryDown, 2).places[t] == Unlock(TryDown, false)
              && Calling(s, t, TryDown, 3) == s
  {
    if s.val > 0 {
      UpdateAlone(s, initial, t, TryDown);
    } else {
      EnterAlone(s, initial, t, TryDown);
      StepInside(s, t, Test(TryDown));
      assert Calling(s, t, TryDown, 2) == Inside(s, t, Unlock(TryDown, false));
      LeaveAlone(s, t, TryDown, false);
    }
  }

  /** A down takes one off a positive value; at 0 it puts the caller in front of the waiters and blocks. */
  lemma DownAlone(s: State, initial: nat, t: nat)
    requires AtRest(s, initial, t)
    ensures if s.val > 0 then Calling(s, t, Down, 5) == s.(val := s.val - 1, taken := s.taken + 1)
            else Calling(s, t, Down, 4) == At(s, t, Blocked).(waiters := [t] + s.waiters)
  {
    if s.val > 0 {
      UpdateAlone(s, initial, t, Down);
    } else {
      EnterAlone(s, initial, t, Down);
      StepInside(s, t, Test(Down));
      assert Calling(s, t, Down, 2) == Inside(s, t, Enqueue);
      assert s.places[t := Enqueue][t := Park] == s.places[t := Park];
      assert Calling(s, t, Down, 3) == Inside(s, t, Park).(waiters := [t] + s.waiters);
      assert s.places[t := Park][t := Blocked] == s.places[t := Blocked];
    }
  }

  /** A thread that thread_block returns to takes the lock once more and returns. */
  lemma ResumeAlone(s: State, initial: nat, t: nat)
    requires Invariant(s, initial) && s.holder.None? && t < |s.places| && s.places[t].Blocked?
    ensures Solo(s, t, 4) == At(s, t, Idle).(resumed := s.resumed + 1)
  {
    var back := At(s, t, Idle).(resumed := s.resumed + 1);
    assert back.places[t := Recheck] == s.places[t := Recheck];
    assert s.places[t := Recheck][t := Reacquire] == back.places[t := Reacquire];
    assert back.places[t := Reacquire][t := Unlock(Down, true)] == back.places[t := Unlock(Down, true)];
    assert Solo(s, t, 1) == At(back, t, Recheck);
    assert Solo(s, t, 2) == At(back, t, Reacquire);
    assert Solo(s, t, 3) == Inside(back, t, Unlock(Down, true));
    LeaveAlone(back, t, Down, true);
  }

  // ---------------------------------------------------------------- calls that have returned

  /** The call that a thread at this place is in. */
  function CallAt(p: Place): Call
    requires !p.Idle?
  {
    match p
    case Acquire(call) => call
    case Test(call) => call
    case Load(call) => call
    case Store(call, _) => call
    case Unlock(call, _) => call
    case Wake => Up
    case _ => Down
  }

  /** A step of a thread stays in the call, or leaves it by the last release. */
  ghost predicate StaysInCall(p: Place, p': Place) {
    && (p.Idle? ==> p'.Idle?)
    && (!p.Idle? && !p'.Idle? ==> CallAt(p') == CallAt(p))
    && (!p.Idle? && p'.Idle? ==> p.Unlock?)
  }

  lemma LockStepStaysInCall(s: State, t: nat)
    requires t < |s.places| && LockStep(s.places[t])
    ensures StaysInCall(s.places[t], Advance(s, t).places[t])
  {
  }

  lemma OtherStepStaysInCall(s: State, t: nat)
    requires t < |s.places| && !LockStep(s.places[t])
    ensures StaysInCall(s.places[t], Advance(s, t).places[t])
  {
  }

  /** A thread enters a call only by beginning it, stays in it, and leaves it only by the last release. */
  lemma CallsAreKept(s: State, m: Move, u: nat)
    requires u < |s.places|
    ensures var p, p' := s.places[u], Next(s, m).places[u];
            && (p.Idle? && !p'.Idle? ==> m == Begin(u, CallAt(p')))
            && (!p.Idle? && !p'.Idle? ==> CallAt(p') == CallAt(p))
            && (!p.Idle? && p'.Idle? ==> m == Go(u) && p.Unlock?)
  {
    OnePlace(s, m);
    if m == Go(u) {
      if LockStep(s.places[u]) {
        LockStepStaysInCall(s, u);
      } else {
        OtherStepStaysInCall(s, u);
      }
    }
  }

  /** A move with which some thread begins the call. */
  ghost predicate Begins(s: State, m: Move, call: Call) {
    m.Begin? && m.call == call && m.t < |s.places| && s.places[m.t].Idle?
  }

  /** A move with which some thread goes back to Idle from the call, with that result. */
  ghost predicate Returns(s: State, m: Move, call: Call, ok: bool) {
    m.t < |s.places| && s.places[m.t] == Unlock(call, ok) && Next(s, m).places[m.t].Idle?
  }

  ghost function Begun(threads: nat, val: nat, moves: seq<Move>, call: Call): nat
    decreases |moves|
  {
    if moves == [] then 0
    else
      var before, m := moves[..|moves| - 1], moves[|moves| - 1];
      Begun(threads, val, before, call) + if Begins(After(threads, val, before), m, call) then 1 else 0
  }

  ghost function Returned(threads: nat, val: nat, moves: seq<Move>, call: Call, ok: bool): nat
    decreases |moves|
  {
    if moves == [] then 0
    else
      var before, m := moves[..|moves| - 1], moves[|moves| - 1];
      Returned(threads, val, before, call, ok) + if Returns(After(threads, val, before), m, call, ok) then 1 else 0
  }

  /** Groups of threads: in a call, past the effect of an up, or let through by a down or try_down. */
  datatype Group = InCall(call: Call) | UpDone | LetThrough

  predicate Belongs(p: Place, g: Group) {
    match g
    case InCall(call) => !p.Idle? && CallAt(p) == call
    case UpDone => p.Unlock? && p.call == Up
    case LetThrough => p.Recheck? || p.Reacquire? || (p.Unlock? && p.call != Up && p.ok)
  }

  function One(b: bool): int {
    if b then 1 else 0
  }

  /** How many threads belong to the group. */
  ghost function Members(places: seq<Place>, g: Group): nat {
    if places == [] then 0
    else Members(places[..|places| - 1], g) + One(Belongs(places[|places| - 1], g))
  }

  lemma {:induction false} MembersMove(places: seq<Place>, t: nat, p: Place, g: Group)
    requires t < |places|
    ensures Members(places[t := p], g) == Members(places, g) - One(Belongs(places[t], g)) + One(Belongs(p, g))
    decreases |places|
  {
    var n := |places| - 1;
    if t == n {
      assert places[t := p][..n] == places[..n];
    } else {
      assert places[t := p][..n] == places[..n][t := p];
      MembersMove(places[..n], t, p, g);
    }
  }

  lemma {:induction false} NoMembers(places: seq<Place>, g: Group)
    requires forall t | 0 <= t < |places| :: places[t].Idle?
    ensures Members(places, g) == 0
    decreases |places|
  {
    if places != [] {
      NoMembers(places[..|places| - 1], g);
    }
  }

  /** A move changes at most the place of its thread. */
  lemma OnePlace(s: State, m: Move)
    ensures if m.t < |s.places| then Next(s, m).places == s.places[m.t := Next(s, m).places[m.t]] else Next(s, m) == s
  {
  }

  lemma MembersNext(s: State, m: Move, g: Group)
    ensures Members(Next(s, m).places, g)
            == Members(s.places, g)
               + if m.t < |s.places| then One(Belongs(Next(s, m).places[m.t], g)) - One(Belongs(s.places[m.t], g)) else 0
  {
    OnePlace(s, m);
    if m.t < |s.places| {
      MembersMove(s.places, m.t, Next(s, m).places[m.t], g);
    }
  }

  /** Begin and return are the only ways in and out of a call. */
  lemma InCallNext(s: State, m: Move, call: Call)
    requires Locked(s)
    ensures Members(Next(s, m).places, InCall(call))
            == Members(s.places, InCall(call)) + One(Begins(s, m, call))
               - One(Returns(s, m, call, true)) - One(Returns(s, m, call, false))
  {
    MembersNext(s, m, InCall(call));
    if m.t < |s.places| {
      CallsAreKept(s, m, m.t);
    }
  }

  /** The ups that took effect are those past their effect or returned. */
  lemma UpDoneNext(s: State, m: Move)
    requires Locked(s)
    ensures Members(Next(s, m).places, UpDone) - Members(s.places, UpDone)
            == Next(s, m).ups - s.ups - One(Returns(s, m, Up, true)) - One(Returns(s, m, Up, false))
  {
    MembersNext(s, m, UpDone);
  }

  /** So are the downs that were let through, at once or after a wait. */
  lemma LetThroughNext(s: State, m: Move)
    requires Locked(s)
    requires forall t | 0 <= t < |s.places| :: TellsTruth(s.places[t])
    ensures var s' := Next(s, m);
            Members(s'.places, LetThrough) - Members(s.places, LetThrough)
            == s'.taken - s.taken + s'.resumed - s.resumed
               - One(Returns(s, m, Down, true)) - One(Returns(s, m, TryDown, true))
  {
    MembersNext(s, m, LetThrough);
    if m.Go? && m.t < |s.places| {
      LetThroughStep(s, m.t);
    }
  }

  lemma LetThroughStep(s: State, t: nat)
    requires t < |s.places| && TellsTruth(s.places[t])
    ensures var s' := Advance(s, t);
            One(Belongs(s'.places[t], LetThrough)) - One(Belongs(s.places[t], LetThrough))
            == s'.taken - s.taken + s'.resumed - s.resumed
               - One(s.places[t] == Unlock(Down, true)) - One(s.places[t] == Unlock(TryDown, true))
  {
  }

  /** Only a try_down fails. */
  ghost predicate TellsTruth(p: Place) {
    p.Unlock? && !p.ok ==> p.call == TryDown
  }

  lemma NextTellsTruth(s: State, m: Move)
    requires forall t | 0 <= t < |s.places| :: TellsTruth(s.places[t])
    ensures forall t | 0 <= t < |s.places| :: TellsTruth(Next(s, m).places[t])
  {
    OnePlace(s, m);
  }

  /** In every run, whatever interleaves: every call that was begun has returned or is under way; every
      up that took effect, and every down or try_down that was let through, has returned with success or
      is on its way out; and only a try_down ever returns with failure. */
  lemma {:induction false} Ledger(threads: nat, val: nat, moves: seq<Move>)
    ensures var s := After(threads, val, moves);
            && (forall call: Call ::
                  Begun(threads, val, moves, call)
                  == Returned(threads, val, moves, call, true) + Returned(threads, val, moves, call, false)
                     + Members(s.places, InCall(call)))
            && s.ups == Returned(threads, val, moves, Up, true) + Members(s.places, UpDone)
            && s.taken + s.resumed
               == Returned(threads, val, moves, Down, true) + Returned(threads, val, moves, TryDown, true)
                  + Members(s.places, LetThrough)
            && Returned(threads, val, moves, Up, false) == Returned(threads, val, moves, Down, false) == 0
            && (forall t | 0 <= t < threads :: TellsTruth(s.places[t]))
    decreases |moves|
  {
    var s := After(threads, val, moves);
    if moves == [] {
      forall g: Group
        ensures Members(s.places, g) == 0
      {
        NoMembers(s.places, g);
      }
    } else {
      var before, m := moves[..|moves| - 1], moves[|moves| - 1];
      var was := After(threads, val, before);
      Ledger(threads, val, before);
      Reachable(threads, val, before);
      forall call: Call
        ensures Members(s.places, InCall(call))
                == Members(was.places, InCall(call)) + One(Begins(was, m, call))
                   - One(Returns(was, m, call, true)) - One(Returns(was, m, call, false))
      {
        InCallNext(was, m, call);
      }
      UpDoneNext(was, m);
      LetThroughNext(was, m);
      NextTellsTruth(was, m);
    }
  }

  /** While waiters stay blocked, no more downs and try_downs return with success than the initial value
      and the ups that were begun allow. */
  lemma NoMoreDownsReturned(threads: nat, val: nat, moves: seq<Move>)
    requires AllPatient(threads, val, moves)
    ensures Returned(threads, val, moves, Down, true) + Returned(threads, val, moves, TryDown, true)
            <= val + Begun(threads, val, moves, Up)
  {
    NoMoreDownsThanUps(threads, val, moves);
    Ledger(threads, val, moves);
    DoneAreInCall(After(threads, val, moves).places);
  }

  lemma {:induction false} DoneAreInCall(places: seq<Place>)
    ensures Members(places, UpDone) <= Members(places, InCall(Up))
    decreases |places|
  {
    if places != [] {
      DoneAreInCall(places[..|places| - 1]);
    }
  }

  lemma NobodyWaits(s: State)
    requires Queued(s) && forall t | 0 <= t < |s.places| :: s.places[t].Idle?
    ensures s.waiters == [] && Pending(s) == {}
  {
    assert forall t :: t !in s.waiters;
    assert |multiset(s.waiters)| == 0;
  }

  /** When every call has returned, the value is the initial one with each up added and each down and
      successful try_down taken off, and nobody waits. */
  lemma Quiescent(threads: nat, val: nat, moves: seq<Move>)
    requires AllPatient(threads, val, moves)
    requires forall t | 0 <= t < threads :: After(threads, val, moves).places[t].Idle?
    ensures After(threads, val, moves).waiters == []
    ensures After(threads, val, moves).val
            == val + Begun(threads, val, moves, Up) - Begun(threads, val, moves, Down)
               - Returned(threads, val, moves, TryDown, true)
  {
    var s := After(threads, val, moves);
    ReachableQueued(threads, val, moves);
    NobodyWaits(s);
    NoMoreDownsThanUps(threads, val, moves);
    Ledger(threads, val, moves);
    NoMembers(s.places, InCall(Up));
    NoMembers(s.places, InCall(Down));
    NoMembers(s.places, UpDone);
    NoMembers(s.places, LetThrough);
  }

  // ---------------------------------------------------------------- a down without an up

  lemma AfterOneMore(threads: nat, val: nat, moves: seq<Move>, m: Move)
    ensures var s := After(threads, val, moves);
            && After(threads, val, moves + [m]) == Next(s, m)
            && Begun(threads, val, moves + [m], Up) == Begun(threads, val, moves, Up) + One(Begins(s, m, Up))
            && Returned(threads, val, moves + [m], Down, true)
               == Returned(threads, val, moves, Down, true) + One(Returns(s, m, Down, true))
  {
    assert (moves + [m])[..|moves|] == moves;
  }

  /** The places of a down that waits, in order. */
  function OnTheWay(i: nat): Place {
    if i == 0 then Acquire(Down)
    else if i == 1 then Test(Down)
    else if i == 2 then Enqueue
    else if i == 3 then Park
    else if i == 4 then Blocked
    else if i == 5 then Recheck
    else if i == 6 then Reacquire
    else if i == 7 then Unlock(Down, true)
    else Idle
  }

  /** The only thread of a semaphore with value 0, after i steps of its down. */
  ghost predicate Stage(s: State, i: nat) {
    && s.places == [OnTheWay(i)] && s.val == 0 && s.ups == 0 && !s.failed
    && s.lock == (if i == 1 || i == 2 || i == 3 || i == 7 then 1 else 0)
    && s.waiters == (if i <= 2 then [] else [0])
    && s.resumed == (if i <= 4 then 0 else 1)
  }

  lemma StageNext(s: State, i: nat)
    requires i < 8 && Stage(s, i)
    ensures Stage(Next(s, Go(0)), i + 1)
  {
    assert s.places[0] == OnTheWay(i);
  }

  /** thread_block returns at once to a caller that is not on the ready list. With one thread and an
      initial value of 0 a down then returns with success although no up was ever begun. */
  lemma DownWithoutUp() returns (moves: seq<Move>)
    ensures var s := After(1, 0, moves);
            && Returned(1, 0, moves, Down, true) == 1 && Begun(1, 0, moves, Up) == 0
            && s.places == [Idle] && s.waiters == [0] && !s.failed
  {
    moves := [];
    AfterOneMore(1, 0, moves, Begin(0, Down));
    moves := moves + [Begin(0, Down)];
    assert Stage(After(1, 0, moves), 0);
    for i := 0 to 8
      invariant Stage(After(1, 0, moves), i)
      invariant Begun(1, 0, moves, Up) == 0 && Returned(1, 0, moves, Down, true) == One(i == 8)
    {
      StageNext(After(1, 0, moves), i);
      AfterOneMore(1, 0, moves, Go(0));
      moves := moves + [Go(0)];
    }
  }
}

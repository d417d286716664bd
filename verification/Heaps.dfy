/** Runs of a first-fit allocator over a table of busy flags. The page allocator and the slab
    allocator are both proved to follow these steps. */
module Heaps {
  import opened Machine
  import opened Flags

  datatype Block = Block(start: nat, size: nat)

  /** A table of busy flags and the blocks handed out and not taken back, oldest first. */
  datatype Heap = Heap(busy: seq<bool>, live: seq<Block>)

  ghost predicate Within(b: Block, reserved: nat, busy: seq<bool>) {
    b.size > 0 && reserved <= b.start && b.start + b.size <= |busy| && RunAt(busy, b.start, b.size, true)
  }

  ghost predicate Disjoint(a: Block, b: Block) {
    a.start + a.size <= b.start || b.start + b.size <= a.start
  }

  function TotalSize(live: seq<Block>): (n: nat) {
    if live == [] then 0 else TotalSize(live[..|live| - 1]) + live[|live| - 1].size
  }

  /** The first `reserved` places are never handed out; live blocks are busy and inside the rest. */
  ghost predicate Placed(h: Heap, reserved: nat) {
    && reserved <= |h.busy|
    && RunAt(h.busy, 0, reserved, true)
    && forall i | 0 <= i < |h.live| :: Within(h.live[i], reserved, h.busy)
  }

  ghost predicate Separate(live: seq<Block>) {
    forall i, j | 0 <= i < j < |live| :: Disjoint(live[i], live[j])
  }

  /** Busy places are exactly as many as the reserved ones and those of all live blocks. */
  ghost predicate Conserved(h: Heap, reserved: nat) {
    Count(h.busy, 0, |h.busy|) == reserved + TotalSize(h.live)
  }

  ghost predicate Invariant(h: Heap, reserved: nat) {
    Placed(h, reserved) && Separate(h.live) && Conserved(h, reserved)
  }

  function Without(live: seq<Block>, i: nat): seq<Block>
    requires i < |live|
  {
    live[..i] + live[i + 1..]
  }

  ghost function Take(h: Heap, p: nat, n: nat): Heap
    requires p + n <= |h.busy|
  {
    Heap(Fill(h.busy, p, p + n, true), h.live + [Block(p, n)])
  }

  /** First fit: the leftmost free run that is long enough, or no change when there is none. */
  ghost function Allocate(h: Heap, n: nat): (r: Heap)
    ensures |r.busy| == |h.busy|
  {
    match FirstFit(h.busy, 0, n)
    case None => h
    case Some(p) => Take(h, p, n)
  }

  ghost function Release(h: Heap, i: nat): (r: Heap)
    requires i < |h.live| && h.live[i].start + h.live[i].size <= |h.busy|
    ensures |r.busy| == |h.busy|
  {
    var b := h.live[i];
    Heap(Fill(h.busy, b.start, b.start + b.size, false), Without(h.live, i))
  }

  lemma {:induction false} TotalSizeWithout(live: seq<Block>, i: nat)
    requires i < |live|
    ensures TotalSize(Without(live, i)) == TotalSize(live) - live[i].size
  {
    var n := |live| - 1;
    if i == n {
      assert Without(live, i) == live[..n];
    } else {
      TotalSizeWithout(live[..n], i);
      assert Without(live, i) == Without(live[..n], i) + [live[n]];
      assert Without(live, i)[..n - 1] == Without(live[..n], i);
    }
  }

  /** A busy block does not meet a free run, and stays busy when that run is taken. */
  lemma BusyMeetsNoFree(busy: seq<bool>, reserved: nat, b: Block, p: nat, n: nat)
    requires Within(b, reserved, busy) && n > 0 && p + n <= |busy| && RunAt(busy, p, n, false)
    ensures Disjoint(b, Block(p, n))
    ensures Within(b, reserved, Fill(busy, p, p + n, true))
  {
    // of two intervals that meet, one contains the start of the other
    assert busy[b.start] && !busy[p];
  }

  lemma TakePlaced(h: Heap, reserved: nat, p: nat, n: nat)
    requires Placed(h, reserved) && n > 0 && p + n <= |h.busy| && RunAt(h.busy, p, n, false)
    ensures Placed(Take(h, p, n), reserved)
  {
    var r := Take(h, p, n);
    assert !h.busy[p];
    forall i | 0 <= i < |r.live|
      ensures Within(r.live[i], reserved, r.busy)
    {
      if i < |h.live| { BusyMeetsNoFree(h.busy, reserved, h.live[i], p, n); }
    }
  }

  lemma TakeSeparate(h: Heap, reserved: nat, p: nat, n: nat)
    requires Placed(h, reserved) && Separate(h.live)
    requires n > 0 && p + n <= |h.busy| && RunAt(h.busy, p, n, false)
    ensures Separate(Take(h, p, n).live)
  {
    forall i | 0 <= i < |h.live|
      ensures Disjoint(h.live[i], Block(p, n))
    {
      BusyMeetsNoFree(h.busy, reserved, h.live[i], p, n);
    }
  }

  lemma TakeConserved(h: Heap, reserved: nat, p: nat, n: nat)
    requires Conserved(h, reserved) && p + n <= |h.busy| && RunAt(h.busy, p, n, false)
    ensures Conserved(Take(h, p, n), reserved)
  {
    CountFill(h.busy, p, p + n, true);
    CountRun(h.busy, p, p + n, false);
    assert Take(h, p, n).live[..|h.live|] == h.live;
  }

  lemma AllocateKeepsInvariant(h: Heap, reserved: nat, n: nat)
    requires Invariant(h, reserved) && n > 0
    ensures Invariant(Allocate(h, n), reserved)
  {
    var fit := FirstFit(h.busy, 0, n);
    if fit.Some? {
      TakePlaced(h, reserved, fit.value, n);
      TakeSeparate(h, reserved, fit.value, n);
      TakeConserved(h, reserved, fit.value, n);
    }
  }

  /** Clearing a block leaves every block disjoint from it busy. */
  lemma ReleaseKeepsOther(busy: seq<bool>, reserved: nat, b: Block, other: Block)
    requires Within(b, reserved, busy) && Within(other, reserved, busy) && Disjoint(b, other)
    ensures Within(other, reserved, Fill(busy, b.start, b.start + b.size, false))
  {
  }

  lemma ReleasePlaced(h: Heap, reserved: nat, i: nat)
    requires Placed(h, reserved) && Separate(h.live)
    requires i < |h.live| && h.live[i].start + h.live[i].size <= |h.busy|
    ensures Placed(Release(h, i), reserved)
  {
    var r := Release(h, i);
    assert Within(h.live[i], reserved, h.busy);
    forall j | 0 <= j < |r.live|
      ensures Within(r.live[j], reserved, r.busy)
    {
      var was := if j < i then j else j + 1;
      assert Disjoint(h.live[if was < i then was else i], h.live[if was < i then i else was]);
      ReleaseKeepsOther(h.busy, reserved, h.live[i], h.live[was]);
    }
  }

  lemma WithoutSeparate(live: seq<Block>, i: nat)
    requires Separate(live) && i < |live|
    ensures Separate(Without(live, i))
  {
    var r := Without(live, i);
    forall j, k | 0 <= j < k < |r|
      ensures Disjoint(r[j], r[k])
    {
      assert Disjoint(live[if j < i then j else j + 1], live[if k < i then k else k + 1]);
    }
  }

  lemma ReleaseConserved(h: Heap, reserved: nat, i: nat)
    requires Conserved(h, reserved) && i < |h.live| && Within(h.live[i], reserved, h.busy)
    ensures Conserved(Release(h, i), reserved)
  {
    var b := h.live[i];
    CountFill(h.busy, b.start, b.start + b.size, false);
    CountRun(h.busy, b.start, b.start + b.size, true);
    TotalSizeWithout(h.live, i);
  }

  lemma ReleaseKeepsInvariant(h: Heap, reserved: nat, i: nat)
    requires Invariant(h, reserved) && i < |h.live|
    ensures Within(h.live[i], reserved, h.busy)
    ensures Invariant(Release(h, i), reserved)
  {
    ReleasePlaced(h, reserved, i);
    WithoutSeparate(h.live, i);
    ReleaseConserved(h, reserved, i);
  }

  /** Taking back a block just handed out restores the table and the list of live blocks. */
  lemma AllocateReleaseRestores(h: Heap, n: nat)
    requires FirstFit(h.busy, 0, n).Some?
    ensures Release(Allocate(h, n), |h.live|) == h
  {
    var p := FirstFit(h.busy, 0, n).value;
    assert Without(h.live + [Block(p, n)], |h.live|) == h.live;
    assert Fill(Fill(h.busy, p, p + n, true), p, p + n, false) == h.busy;
  }

  // ---------------------------------------------------------------- runs

  type Positive = n: nat | n > 0 witness 1

  /** A run asks for blocks and gives live ones back with the size they were asked for. */
  datatype Op = Ask(n: Positive) | GiveBack(i: nat)

  /** `accepts` says which blocks, in a table of a given length, the allocator takes back. */
  ghost function Step(h: Heap, op: Op, accepts: (Block, nat) -> bool): (r: Heap)
    ensures |r.busy| == |h.busy|
  {
    match op
    case Ask(n) => Allocate(h, n)
    case GiveBack(i) =>
      if i < |h.live| && h.live[i].start + h.live[i].size <= |h.busy| && accepts(h.live[i], |h.busy|) then
        Release(h, i)
      else h
  }

  ghost function Play(h: Heap, ops: seq<Op>, accepts: (Block, nat) -> bool): (r: Heap)
    ensures |r.busy| == |h.busy|
    decreases |ops|
  {
    if ops == [] then h else Step(Play(h, ops[..|ops| - 1], accepts), ops[|ops| - 1], accepts)
  }

  lemma StepKeepsInvariant(h: Heap, reserved: nat, op: Op, accepts: (Block, nat) -> bool)
    requires Invariant(h, reserved)
    ensures Invariant(Step(h, op, accepts), reserved)
  {
    match op
    case Ask(n) => AllocateKeepsInvariant(h, reserved, n);
    case GiveBack(i) =>
      if i < |h.live| { ReleaseKeepsInvariant(h, reserved, i); }
  }

  /** Every run keeps live blocks apart and the busy places accounted for. */
  lemma {:induction false} PlayKeepsInvariant(h: Heap, reserved: nat, ops: seq<Op>, accepts: (Block, nat) -> bool)
    requires Invariant(h, reserved)
    ensures Invariant(Play(h, ops, accepts), reserved)
    decreases |ops|
  {
    if ops != [] {
      var before := ops[..|ops| - 1];
      PlayKeepsInvariant(h, reserved, before, accepts);
      StepKeepsInvariant(Play(h, before, accepts), reserved, ops[|ops| - 1], accepts);
    }
  }

  /** Giving a block straight back restores the heap exactly when the allocator accepts it. */
  lemma AskGiveBackRestores(h: Heap, n: Positive, accepts: (Block, nat) -> bool)
    requires FirstFit(h.busy, 0, n).Some?
    ensures Step(Step(h, Ask(n), accepts), GiveBack(|h.live|), accepts) == h
            <==> accepts(Block(FirstFit(h.busy, 0, n).value, n), |h.busy|)
  {
    AllocateReleaseRestores(h, n);
    assert |Allocate(h, n).live| == |h.live| + 1;
  }
}

/** The slab allocator of libk/slab.c. Its table of slabs lies at the bottom of the region it
    manages, its scans start at as many entries as would fit in the whole region, and the inner scan
    of a run is not bounded at all. Memory from the region's start on is therefore seen here as a
    sequence of entries: the first ones are the table that slab_init writes, and what the others hold
    is arbitrary. */
module Slabs {
  import opened Machine
  import opened Flags
  import opened Heaps

  const ENTRY_SIZE := 8
  const SLAB_SIZE := 64

  const SLAB_SUCC := 0
  const SLAB_FREE_FAIL := 1
  const SLAB_INIT_FAIL := 2

  datatype Slab = Slab(addr: nat, free: bool)

  // ---------------------------------------------------------------- layout

  /** The offset of the first slab, which slab_init also takes off the free memory. */
  function TableBytes(memSize: nat, slabSize: nat): (n: nat)
    requires slabSize > 0
    ensures n <= memSize
  {
    assert memSize / slabSize * slabSize <= memSize;
    (memSize / slabSize * slabSize) / ENTRY_SIZE
  }

  /** It is an eighth, rounded down, of the bytes of the whole slabs that the region could hold. */
  lemma TableBytesExact(memSize: nat, slabSize: nat)
    requires slabSize > 0
    ensures var n := TableBytes(memSize, slabSize);
            8 * n <= memSize - memSize % slabSize < 8 * n + 8
  {
  }

  /** The number of entries at which both scans may start: the code computes the same figure for it. */
  function TotalEntries(memSize: nat, slabSize: nat): nat
    requires slabSize > 0
  {
    TableBytes(memSize, slabSize)
  }

  /** How many slabs are laid out from `start` until `end` is reached. */
  function SlabsFrom(start: nat, end: nat, slabSize: nat): (n: nat)
    requires slabSize > 0
    decreases end - start
  {
    if start >= end then 0 else 1 + SlabsFrom(start + slabSize, end, slabSize)
  }

  function SlabCount(memSize: nat, slabSize: nat): nat
    requires slabSize > 0
  {
    SlabsFrom(TableBytes(memSize, slabSize), memSize, slabSize)
  }

  /** The address k slabs past base. */
  function SlabAddress(base: nat, k: nat, slabSize: nat): nat {
    if k == 0 then base else SlabAddress(base, k - 1, slabSize) + slabSize
  }

  lemma {:induction false} SlabAddressIs(base: nat, k: nat, slabSize: nat)
    ensures SlabAddress(base, k, slabSize) == base + k * slabSize
  {
    if k > 0 {
      SlabAddressIs(base, k - 1, slabSize);
      assert k * slabSize == (k - 1) * slabSize + slabSize;
    }
  }

  /** Slabs are laid out until the end is reached or passed, and no further. */
  lemma {:induction false} SlabsFromCovers(start: nat, end: nat, slabSize: nat)
    requires slabSize > 0
    ensures var n := SlabsFrom(start, end, slabSize);
            if start < end then end <= start + n * slabSize < end + slabSize else n == 0
    decreases end - start
  {
    if start < end {
      var n := SlabsFrom(start + slabSize, end, slabSize);
      SlabsFromCovers(start + slabSize, end, slabSize);
      assert (n + 1) * slabSize == n * slabSize + slabSize;
    }
  }

  lemma {:induction false} MultipleGap(a: nat, b: nat, d: nat)
    requires a < b
    ensures a * d + d <= b * d
    decreases b
  {
    assert b * d == (b - 1) * d + d;
    if a < b - 1 {
      MultipleGap(a, b - 1, d);
    }
  }

  lemma SameMultiple(q: nat, n: nat, d: nat)
    requires q * d <= n * d < q * d + d
    ensures q == n
  {
    if n < q {
      MultipleGap(n, q, d);
    } else if q < n {
      MultipleGap(q, n, d);
    }
  }

  lemma MultipleHasNoRemainder(n: nat, d: nat)
    requires d > 0
    ensures (n * d) % d == 0
  {
    var q, r := (n * d) / d, (n * d) % d;
    assert n * d == q * d + r;
    SameMultiple(q, n, d);
  }

  /** The slabs fill the region, and the initial free memory is theirs, exactly when the bytes after
      the table offset divide into slabs; otherwise the last slab runs past the end. */
  lemma LayoutExact(memSize: nat, slabSize: nat)
    requires slabSize > 0
    ensures var rest := memSize - TableBytes(memSize, slabSize);
            SlabCount(memSize, slabSize) * slabSize == rest <==> rest % slabSize == 0
  {
    var start, n := TableBytes(memSize, slabSize), SlabCount(memSize, slabSize);
    var rest := memSize - start;
    SlabsFromCovers(start, memSize, slabSize);
    MultipleHasNoRemainder(n, slabSize);
    if rest % slabSize == 0 {
      assert rest == rest / slabSize * slabSize;
      SameMultiple(rest / slabSize, n, slabSize);
    }
  }

  /** The kernel's layout: 64-byte slabs in a multiple of 512 bytes. Slabs are disjoint because each
      starts 64 bytes after the one before; the last ends at the end of the region, the table ends
      before the first, and the initial free memory is 64 bytes for each. */
  lemma KernelLayout(memSize: nat)
    requires memSize % 512 == 0
    ensures var n := SlabCount(memSize, SLAB_SIZE);
            && n == 7 * (memSize / 512)
            && ENTRY_SIZE * n <= TableBytes(memSize, SLAB_SIZE)
            && TableBytes(memSize, SLAB_SIZE) + n * SLAB_SIZE == memSize
            && n <= TotalEntries(memSize, SLAB_SIZE)
  {
    var k, n := memSize / 512, SlabCount(memSize, SLAB_SIZE);
    assert memSize == 512 * k && memSize / SLAB_SIZE == 8 * k;
    assert TableBytes(memSize, SLAB_SIZE) == 64 * k;
    SlabsFromCovers(64 * k, 512 * k, SLAB_SIZE);
    assert 448 * k <= 64 * n < 448 * k + 64;
  }

  /** With 64-byte slabs the table stays within the bytes kept for it exactly when what is left over
      after whole slabs is at most 8 bytes for each of them. */
  lemma TableFitsExact(memSize: nat)
    ensures ENTRY_SIZE * SlabCount(memSize, SLAB_SIZE) <= TableBytes(memSize, SLAB_SIZE)
            <==> memSize % SLAB_SIZE <= 8 * (memSize / SLAB_SIZE)
  {
    var q, r, n := memSize / SLAB_SIZE, memSize % SLAB_SIZE, SlabCount(memSize, SLAB_SIZE);
    assert memSize == 64 * q + r && TableBytes(memSize, SLAB_SIZE) == 8 * q;
    SlabsFromCovers(8 * q, memSize, SLAB_SIZE);
    if memSize > 8 * q {
      assert 56 * q + r <= 64 * n < 56 * q + r + 64;
    }
  }

  /** A region shorter than one slab gets one entry all the same, with no bytes kept for it and none
      at which a scan would start. */
  lemma ShortRegion(memSize: nat, slabSize: nat)
    requires 0 < memSize < slabSize
    ensures SlabCount(memSize, slabSize) == 1 && TableBytes(memSize, slabSize) == 0
    ensures TotalEntries(memSize, slabSize) == 0
  {
    assert SlabsFrom(slabSize, memSize, slabSize) == 0;
  }

  lemma EntriesFit(memSize: nat, slabSize: nat)
    requires slabSize >= ENTRY_SIZE
    ensures ENTRY_SIZE * (memSize / slabSize) <= memSize
  {
    var q := memSize / slabSize;
    assert q * ENTRY_SIZE <= q * slabSize <= memSize;
  }

  /** The slabs that kmalloc asks for. */
  function SlabsFor(size: nat): nat {
    var n := (size / SLAB_SIZE + SLAB_SIZE - 1) / SLAB_SIZE * SLAB_SIZE;
    if n == 0 then 1 else n
  }

  /** Below 64 bytes kmalloc asks for one slab, and otherwise for the least multiple of 64 slabs that is
      not less than the whole slabs in the request. In bytes that is a multiple of 4096, up to 63 bytes
      short of the request and up to 4095 bytes over it: 4096 bytes for 100. */
  lemma SlabsForExact(size: nat)
    ensures size < 64 ==> SlabsFor(size) == 1
    ensures size >= 64 ==> var n := SlabsFor(size);
                           n % 64 == 0 && n - 64 < size / 64 <= n && -64 < 64 * n - size < 4096
    ensures SlabsFor(100) == 64
  {
  }

  /** kmalloc divides before it rounds up, so the slabs cover a request exactly when it is not
      between 1 and 63 bytes above a positive multiple of 4096. */
  lemma SlabsForCovers(size: nat)
    ensures 64 * SlabsFor(size) >= size <==> size < 4096 || size % 4096 == 0 || size % 4096 >= 64
  {
    var q, r := size / 4096, size % 4096;
    assert size / SLAB_SIZE == 64 * q + r / SLAB_SIZE;
  }

  /** One byte more than a page is given slabs for one page. */
  lemma SlabsForOnePageAndAByte()
    ensures 64 * SlabsFor(4097) == 4096
  {
  }

  // ---------------------------------------------------------------- the table

  ghost function BusyFlags(entries: seq<Slab>): (b: seq<bool>)
    ensures |b| == |entries|
  {
    seq(|entries|, i requires 0 <= i < |entries| => !entries[i].free)
  }

  /** The entries with the n flags from `from` on set to `free`. */
  ghost function Marked(entries: seq<Slab>, from: nat, n: nat, free: bool): (r: seq<Slab>)
    requires from + n <= |entries|
    ensures |r| == |entries|
    ensures forall i | 0 <= i < |r| ::
              r[i] == if from <= i < from + n then entries[i].(free := free) else entries[i]
    ensures BusyFlags(r) == Fill(BusyFlags(entries), from, from + n, !free)
  {
    seq(|entries|, i requires 0 <= i < |entries| =>
      if from <= i < from + n then entries[i].(free := free) else entries[i])
  }

  /** Without a fit, the scan of a run is stopped only by an entry that reads as not free. */
  ghost predicate ScanStops(busy: seq<bool>, n: nat) {
    n == 0 || busy == [] || busy[|busy| - 1] || FirstFit(busy, 0, n).Some?
  }

  ghost predicate FirstWith(entries: seq<Slab>, addr: nat, k: nat) {
    k < |entries| && entries[k].addr == addr && forall j | 0 <= j < k :: entries[j].addr != addr
  }

  /** A block lies in the table exactly when the table itself has a run for the request; the scan then
      finds the leftmost run of the table. */
  lemma FitInTable(busy: seq<bool>, count: nat, n: nat)
    requires count <= |busy|
    ensures FirstFit(busy[..count], 0, n).Some? <==> FirstFit(busy, 0, n).Some? && FirstFit(busy, 0, n).value + n <= count
    ensures FirstFit(busy[..count], 0, n).Some? ==> FirstFit(busy, 0, n) == FirstFit(busy[..count], 0, n)
  {
    var inTable, inView := FirstFit(busy[..count], 0, n), FirstFit(busy, 0, n);
    if inTable.Some? {
      assert RunAt(busy, inTable.value, n, false);
    }
    if inView.Some? && inView.value + n <= count {
      assert RunAt(busy[..count], inView.value, n, false);
    }
    assert forall q | 0 <= q && q + n <= count :: RunAt(busy, q, n, false) == RunAt(busy[..count], q, n, false);
  }

  // ---------------------------------------------------------------- the table in a run

  /** 64-byte slabs, and the first `count` entries with the addresses slab_init gives them. */
  ghost predicate Addressed(entries: seq<Slab>, base: nat, count: nat) {
    && count <= |entries| && base + count * SLAB_SIZE < WORD
    && forall k | 0 <= k < count :: entries[k].addr == base + k * SLAB_SIZE
  }

  ghost function Table(entries: seq<Slab>, count: nat): (t: seq<bool>)
    requires count <= |entries|
    ensures |t| == count
  {
    BusyFlags(entries)[..count]
  }

  /** 64 bytes for each free entry of the table. */
  ghost function FreeBytes(entries: seq<Slab>, count: nat): int
    requires count <= |entries|
  {
    SLAB_SIZE * (count - Count(Table(entries, count), 0, count))
  }

  /** Marking a run of table entries that all had the other state. */
  lemma MarkInTable(entries: seq<Slab>, base: nat, count: nat, from: nat, n: nat, free: bool)
    requires Addressed(entries, base, count) && from + n <= count
    requires RunAt(Table(entries, count), from, n, free)
    ensures var after := Marked(entries, from, n, free);
            && Addressed(after, base, count)
            && Table(after, count) == Fill(Table(entries, count), from, from + n, !free)
            && FreeBytes(after, count) == (if free then FreeBytes(entries, count) + SLAB_SIZE * n
                                           else FreeBytes(entries, count) - SLAB_SIZE * n)
  {
    var table := Table(entries, count);
    FillPrefix(BusyFlags(entries), count, from, from + n, !free);
    CountFill(table, from, from + n, !free);
    CountRun(table, from, from + n, free);
  }

  /** Without a fit in the table the promised NULL depends on uninitialised memory: with all seven
      slabs of a 512-byte region busy, an eighth entry that happens to read as free is handed out. */
  lemma NullNotPromised()
    ensures var busy := seq(TotalEntries(512, SLAB_SIZE), i => i != 7);
            && SlabCount(512, SLAB_SIZE) == 7
            && FirstFit(busy[..7], 0, 1) == None
            && FirstFit(busy, 0, 1) == Some(7)
  {
    KernelLayout(512);
    var busy := seq(TotalEntries(512, SLAB_SIZE), i => i != 7);
    assert RunAt(busy, 7, 1, false);
    forall q | 0 <= q < 7
      ensures !RunAt(busy, q, 1, false) && !RunAt(busy[..7], q, 1, false)
    {
      assert busy[q];
    }
    FirstFitUnique(busy, 1, 7);
  }

  /** slab_free takes back every live block. */
  predicate AnyBlock(b: Block, count: nat) {
    true
  }

  /** What happens in a run: calls, and clients that write memory past the table between them. */
  datatype Event = Call(op: Op) | Scribble(k: nat, entry: Slab)

  /** The calls of a run, in order. */
  function Calls(events: seq<Event>): seq<Op> {
    if events == [] then []
    else
      var last := events[|events| - 1];
      Calls(events[..|events| - 1]) + if last.Call? then [last.op] else []
  }

  lemma CallsNext(events: seq<Event>, k: nat, h: Heap)
    requires k < |events|
    ensures Play(h, Calls(events[..k + 1]), AnyBlock)
         == match events[k]
            case Call(op) => Step(Play(h, Calls(events[..k]), AnyBlock), op, AnyBlock)
            case Scribble(_, _) => Play(h, Calls(events[..k]), AnyBlock)
  {
    var done := Calls(events[..k]);
    assert events[..k + 1][..k] == events[..k];
    match events[k]
    case Call(op) => assert (done + [op])[..|done|] == done;
    case Scribble(_, _) => assert done + [] == done;
  }

  /** Every request finds a run in the table as the calls before it left it. */
  ghost predicate AllFit(h: Heap, events: seq<Event>) {
    forall k | 0 <= k < |events| :: Fits(Play(h, Calls(events[..k]), AnyBlock), events[k])
  }

  ghost predicate Fits(h: Heap, event: Event) {
    event.Call? && event.op.Ask? ==> FirstFit(h.busy, 0, event.op.n).Some?
  }

  lemma ClearInvariant(count: nat)
    ensures Invariant(Heap(seq(count, _ => false), []), 0)
  {
    CountRun(seq(count, _ => false), 0, count, false);
  }

  /** After any run on a fresh table, live blocks are pairwise disjoint and inside the table, and free
      entries plus all live sizes make up the table. */
  lemma RunIsSafe(count: nat, ops: seq<Op>)
    ensures var h := Play(Heap(seq(count, _ => false), []), ops, AnyBlock);
            && Separate(h.live)
            && Count(h.busy, 0, count) == TotalSize(h.live)
            && forall i | 0 <= i < |h.live| :: Within(h.live[i], 0, h.busy)
  {
    ClearInvariant(count);
    PlayKeepsInvariant(Heap(seq(count, _ => false), []), 0, ops, AnyBlock);
  }

  /** Freeing a block straight after it was allocated restores the table. */
  lemma AllocFreeRestores(h: Heap, n: Positive)
    requires FirstFit(h.busy, 0, n).Some?
    ensures Step(Step(h, Ask(n), AnyBlock), GiveBack(|h.live|), AnyBlock) == h
  {
    AskGiveBackRestores(h, n, AnyBlock);
  }

  class SlabAllocator {
    var data: array<Slab>
    var mem: nat
    var memSize: nat
    var slabSize: nat
    var freeMemSize: nat
    ghost var count: nat  // the number of entries that Init wrote
    ghost var base: nat  // the address of the first slab

    ghost predicate Valid()
      reads this
    {
      slabSize > 0 && TotalEntries(memSize, slabSize) <= data.Length && freeMemSize < WORD
    }

    ghost function Busy(): (b: seq<bool>)
      reads this, data
      ensures |b| == data.Length
    {
      BusyFlags(data[..])
    }

    constructor (region: array<Slab>)
      ensures data == region && slabSize == 0
    {
      data := region;
      count, base := 0, 0;
      mem, memSize, slabSize, freeMemSize := 0, 0, 0, 0;
    }

    /** Writes one free entry for each slab and nothing else, or fails on slabs smaller than an entry and
        changes nothing. The memory given must hold the entries written and those scanned. */
    method Init(region: array<Slab>, mem: nat, memSize: nat, slabSize: nat) returns (code: int)
      requires slabSize > 0 && mem + memSize + slabSize < WORD
      requires TotalEntries(memSize, slabSize) <= region.Length && SlabCount(memSize, slabSize) <= region.Length
      modifies this, region
      ensures code == if slabSize < 8 then -2 else 0
      ensures code != 0 ==> unchanged(this) && unchanged(region)
      ensures code == 0 ==>
                && Valid() && data == region
                && this.mem == mem && this.memSize == memSize && this.slabSize == slabSize
                && freeMemSize == memSize - TableBytes(memSize, slabSize)
                && count == SlabCount(memSize, slabSize) && base == mem + TableBytes(memSize, slabSize)
                && (forall k | 0 <= k < count :: data[k] == Slab(SlabAddress(base, k, slabSize), true))
                && data[count..] == old(region[SlabCount(memSize, slabSize)..])
    {
      var numSlabs := memSize / slabSize;
      if slabSize < ENTRY_SIZE {
        return -SLAB_INIT_FAIL;
      }
      EntriesFit(memSize, slabSize);
      if mem == 0 && memSize < ENTRY_SIZE * numSlabs {
        assert false;
      }
      var offset := TableBytes(memSize, slabSize);
      var startingAddr := mem + offset;
      var k := 0;
      while startingAddr < mem + memSize
        invariant startingAddr == SlabAddress(mem + offset, k, slabSize) && mem <= startingAddr
        invariant k + SlabsFrom(startingAddr - mem, memSize, slabSize) == SlabCount(memSize, slabSize)
        invariant forall j | 0 <= j < k :: region[j] == Slab(SlabAddress(mem + offset, j, slabSize), true)
        invariant region[k..] == old(region[k..])
        decreases mem + memSize - startingAddr
      {
        region[k] := Slab(startingAddr, true);
        k := k + 1;
        startingAddr := startingAddr + slabSize;
      }
      data := region;
      this.mem, this.memSize, this.slabSize := mem, memSize, slabSize;
      freeMemSize := memSize - offset;
      count, base := k, mem + offset;
      return SLAB_SUCC;
    }

    /** The leftmost run of n free entries becomes busy, its first entry's address is returned and
        the counter drops by n slabs; NULL and no change exactly when no such run starts at an entry
        of the region. A request for no slabs takes nothing and is given the address of the first
        free entry. */
    method Alloc(n: nat) returns (addr: Option<nat>)
      requires Valid() && ScanStops(Busy(), n)
      modifies this`freeMemSize, data
      ensures var fit := FirstFit(old(Busy()), 0, if n == 0 then 1 else n);
              if fit.Some? && fit.value < TotalEntries(memSize, slabSize) then
                && addr == Some(data[fit.value].addr)
                && data[..] == Marked(old(data[..]), fit.value, n, false)
                && freeMemSize == U32(old(freeMemSize) - n * slabSize)
              else
                addr == None && data[..] == old(data[..]) && freeMemSize == old(freeMemSize)
    {
      ghost var busy, need := Busy(), if n == 0 then 1 else n;
      var total, i := TotalEntries(memSize, slabSize), 0;
      while i < total
        invariant i <= data.Length
        invariant forall q | 0 <= q < i && q + need <= data.Length :: !RunAt(busy, q, need, false)
        decreases total - i
      {
        if data[i].free {
          var temp, j := i, 0;
          while j < n
            invariant i == temp + j <= data.Length && j <= n
            invariant forall k | temp <= k < i :: data[k].free
            invariant j == 0 ==> data[i].free
            decreases n - j
          {
            assert i < data.Length;
            if data[i].free {
              j, i := j + 1, i + 1;
            } else {
              break;
            }
          }
          if j == n {
            FirstFitUnique(busy, need, temp);
            addr := Some(data[temp].addr);
            Mark(temp, n, false);
            freeMemSize := U32(freeMemSize - n * slabSize);
            return;
          }
        }
        assert busy[i];
        i := i + 1;
      }
      return None;
    }

    method Mark(from: nat, n: nat, free: bool)
      requires from + n <= data.Length
      modifies data
      ensures data[..] == Marked(old(data[..]), from, n, free)
    {
      var j := 0;
      while j < n
        invariant j <= n
        invariant forall i | 0 <= i < data.Length ::
                    data[i] == if from <= i < from + j then old(data[i]).(free := free) else old(data[i])
      {
        data[from + j] := data[from + j].(free := free);
        j := j + 1;
      }
    }

    /** The entry with the given address is found by a scan that only finding it stops. When the n
        entries from there on are all busy they become free and the counter grows by n slabs;
        otherwise nothing changes. */
    method Free(addr: nat, n: nat, ghost k: nat) returns (code: int)
      requires Valid() && FirstWith(data[..], addr, k) && k + n <= data.Length
      modifies this`freeMemSize, data
      ensures if RunAt(old(Busy()), k, n, true) then
                && code == 0
                && data[..] == Marked(old(data[..]), k, n, true)
                && freeMemSize == U32(old(freeMemSize) + n * slabSize)
              else code == -1 && data[..] == old(data[..]) && freeMemSize == old(freeMemSize)
    {
      var slab := 0;
      while data[slab].addr != addr
        invariant slab <= k
        decreases k - slab
      {
        slab := slab + 1;
      }
      var i := 0;
      while i < n
        invariant i <= n
        invariant forall j | k <= j < k + i :: Busy()[j]
      {
        if data[slab + i].free {
          assert !Busy()[k + i];
          return -SLAB_FREE_FAIL;
        }
        i := i + 1;
      }
      Mark(slab, n, true);
      freeMemSize := U32(freeMemSize + n * slabSize);
      return SLAB_SUCC;
    }

    // -------------------------------------------------------------- runs

    /** The kernel's allocator after Init, with a counter that is exact. */
    ghost predicate Ready()
      reads this, data
    {
      && Valid() && slabSize == SLAB_SIZE && count <= TotalEntries(memSize, SLAB_SIZE)
      && Addressed(data[..], base, count) && freeMemSize == FreeBytes(data[..], count)
    }

    /** A request that fits in the table. */
    method CarryAsk(n: Positive, ghost p: nat) returns (start: nat)
      requires Ready() && FirstFit(Table(data[..], count), 0, n) == Some(p)
      modifies this`freeMemSize, data
      ensures Ready()
      ensures start == p && p + n <= count
      ensures Table(data[..], count) == Fill(old(Table(data[..], count)), p, p + n, true)
    {
      FitInTable(Busy(), count, n);
      MarkInTable(data[..], base, count, p, n, false);
      var first := data[0].addr;
      var addr := Alloc(n);
      start := (addr.value - first) / SLAB_SIZE;
    }

    method CarryGiveBack(b: Block)
      requires Ready() && Within(b, 0, Table(data[..], count))
      modifies this`freeMemSize, data
      ensures Ready()
      ensures Table(data[..], count) == Fill(old(Table(data[..], count)), b.start, b.start + b.size, false)
    {
      MarkInTable(data[..], base, count, b.start, b.size, true);
      assert forall k | b.start <= k < b.start + b.size :: Busy()[k] == Table(data[..], count)[k];
      var _ := Free(data[0].addr + b.start * SLAB_SIZE, b.size, b.start);
    }

    /** slab_init as the kernel calls it: all slabs free, none past the end, an exact counter. */
    method Boot(region: array<Slab>, mem: nat, memSize: nat) returns (code: int)
      requires memSize % 512 == 0 && mem + memSize + SLAB_SIZE < WORD
      requires TotalEntries(memSize, SLAB_SIZE) <= region.Length
      modifies this, region
      ensures code == 0 && Ready() && data == region
      ensures count == 7 * (memSize / 512) && Table(data[..], count) == seq(count, _ => false)
      ensures mem + 8 * count <= base && base + 64 * count == mem + memSize && freeMemSize == 64 * count
    {
      KernelLayout(memSize);
      code := Init(region, mem, memSize, SLAB_SIZE);
      forall k | 0 <= k < count
        ensures data[k] == Slab(base + k * SLAB_SIZE, true)
      {
        SlabAddressIs(base, k, SLAB_SIZE);
      }
      CountRun(Table(data[..], count), 0, count, false);
    }

    /** One step of a run, in terms of the addresses that the calls return and take. */
    method Carry(op: Op, live: seq<Block>) returns (live': seq<Block>)
      requires Ready() && Invariant(Heap(Table(data[..], count), live), 0)
      requires op.Ask? ==> FirstFit(Table(data[..], count), 0, op.n).Some?
      modifies this`freeMemSize, data
      ensures Ready()
      ensures Heap(Table(data[..], count), live') == Step(Heap(old(Table(data[..], count)), live), op, AnyBlock)
    {
      live' := live;
      match op {
        case Ask(n) =>
          ghost var p := FirstFit(Table(data[..], count), 0, n).value;
          var start := CarryAsk(n, p);
          live' := live + [Block(start, n)];
        case GiveBack(i) =>
          if i < |live| {
            assert Within(live[i], 0, Table(data[..], count));
            CarryGiveBack(live[i]);
            live' := Without(live, i);
          }
      }
    }

    /** A client writes an entry past the table, which is slab memory or beyond the region. */
    method Overwrite(k: nat, entry: Slab)
      requires Ready() && count <= k < data.Length
      modifies data
      ensures Ready() && Table(data[..], count) == old(Table(data[..], count))
    {
      ghost var before := data[..];
      data[k] := entry;
      assert forall i | 0 <= i < count :: data[i] == before[i];
      assert Table(data[..], count) == Table(before, count);
    }

    /** Carries out a whole run of requests that fit and of returns of live blocks, while clients write
        anything past the table in between: table and live blocks are those of the abstract run of
        the calls alone, and the counter stays exact. */
    method Run(events: seq<Event>) returns (live: seq<Block>)
      requires Ready() && Table(data[..], count) == seq(count, _ => false)
      requires AllFit(Heap(Table(data[..], count), []), events)
      requires forall k | 0 <= k < |events| :: events[k].Scribble? ==> count <= events[k].k < data.Length
      modifies this`freeMemSize, data
      ensures Ready()
      ensures Heap(Table(data[..], count), live) == Play(Heap(old(Table(data[..], count)), []), Calls(events), AnyBlock)
      ensures freeMemSize == 64 * (count - TotalSize(live))
    {
      ghost var start := Heap(Table(data[..], count), []);
      ClearInvariant(count);
      live := [];
      for k := 0 to |events|
        invariant Ready()
        invariant Heap(Table(data[..], count), live) == Play(start, Calls(events[..k]), AnyBlock)
      {
        ghost var done := Calls(events[..k]);
        CallsNext(events, k, start);
        assert Fits(Play(start, done, AnyBlock), events[k]);
        match events[k] {
          case Call(op) =>
            PlayKeepsInvariant(start, 0, done, AnyBlock);
            live := Carry(op, live);
          case Scribble(i, entry) =>
            Overwrite(i, entry);
        }
      }
      assert events[..|events|] == events;
      PlayKeepsInvariant(start, 0, Calls(events), AnyBlock);
    }
  }
}

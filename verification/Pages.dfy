/** The page allocator of kernel/kalloc.c: first fit on a bitmap that is stored at the bottom of the
    region it manages. Calls are serialised and the lock is taken as acquired. */
module Pages {
  import opened Machine
  import opened Flags
  import opened Words
  import opened Bitmaps
  import opened Heaps

  const PG_SIZE := 4096
  const START_ADDR := 4 * 1024 * 1024

  /** The pages between the start address and the end of the 32-bit address space. */
  const MAX_PAGES := 0xF_FC00

  const MEM_FREE_SUCC := 0
  const MEM_FREE_FAIL := 2

  // ---------------------------------------------------------------- sizes and addresses

  function NumPages(memUpper: nat): nat {
    U32(U32(memUpper * 1024) - START_ADDR) / PG_SIZE
  }

  function Reserved(pages: nat): nat {
    pages / PG_SIZE + 1
  }

  /** The number of words that hold one bit for each page. */
  function MapWords(pages: nat): nat {
    (pages + 31) / 32
  }

  function PageAddress(idx: nat): nat {
    START_ADDR + idx * PG_SIZE
  }

  /** The page index pfree_mult computes: a signed pointer difference, divided toward zero and
      converted to size_t. */
  function PageIndex(addr: nat): nat {
    U32(TruncDiv(S32(addr - START_ADDR), PG_SIZE))
  }

  /** The managed pages lie in the reported upper memory, in 32 bits, exactly when that memory reaches
      the start address at 4 MB: below it the unsigned subtraction wraps. One page more would not fit. */
  lemma NumPagesExact(memUpper: nat)
    ensures var bytes, pages := U32(memUpper * 1024), NumPages(memUpper);
            && (0x40_0000 + 4096 * pages <= bytes <==> bytes >= 0x40_0000)
            && (bytes >= 0x40_0000 ==> bytes < 0x40_0000 + 4096 * (pages + 1) && pages <= 0xF_FC00)
            && (bytes < 0x40_0000 ==> pages >= 0xF_FC00)
            && (memUpper < 0x40_0000 ==> bytes == memUpper * 1024)
    ensures PageAddress(MAX_PAGES) == WORD
  {
  }

  /** The bitmap has as few words as hold one bit for each page. */
  lemma MapWordsExact(pages: nat)
    ensures 32 * MapWords(pages) - 32 < pages <= 32 * MapWords(pages)
  {
  }

  /** One page is reserved, and one more for every full 4096 pages, as if the map took a byte for each
      page. That covers the bitmap's own words, whatever the page count. */
  lemma ReservedCoversMap(pages: nat)
    ensures (Reserved(pages) - 1) * 4096 <= pages < Reserved(pages) * 4096
    ensures 4 * MapWords(pages) <= Reserved(pages) * 4096
    ensures pages >= 1 ==> Reserved(pages) <= pages
  {
  }

  /** The page that pfree_mult computes from any address. Below 2 GB past the start it is the page the
      address lies in; the page of addresses just below the start is 0 too; for all other addresses the
      difference is negative and the index is far outside every map. */
  lemma PageIndexExact(addr: nat)
    requires addr < WORD
    ensures var start, far := 0x40_0000, 0x8000_0000;
            if start <= addr < start + far then PageIndex(addr) * 4096 <= addr - start < (PageIndex(addr) + 1) * 4096
            else if addr < start then PageIndex(addr) == if addr > start - 4096 then 0 else WORD - (start - addr) / 4096
            else PageIndex(addr) == WORD - (start + WORD - addr) / 4096
    ensures MAX_PAGES <= PageIndex(addr) <==> addr <= 0x3F_F000 || addr >= 0x8040_0000
  {
  }

  lemma PageIndexOfPage(idx: nat)
    requires idx < MAX_PAGES
    ensures PageIndex(PageAddress(idx)) == if idx < 0x8_0000 then idx else WORD - 0x10_0000 + idx
  {
    var diff := idx * PG_SIZE;
    if idx >= 0x8_0000 {
      assert S32(diff) == -((0x10_0000 - idx) * PG_SIZE);
    }
  }

  // ---------------------------------------------------------------- runs

  /** Which blocks pfree_mult takes back: not one that ends at the last page, nor one that starts
      2 GB or more past the start address. */
  predicate Returnable(b: Block, pages: nat) {
    b.start + b.size < pages && b.start < 0x8_0000
  }

  ghost function Boot(pages: nat): (h: Heap)
    requires pages >= 1
    ensures |h.busy| == pages
  {
    ReservedCoversMap(pages);
    Heap(Fill(seq(pages, _ => false), 0, Reserved(pages), true), [])
  }

  lemma BootInvariant(pages: nat)
    requires pages >= 1
    ensures Invariant(Boot(pages), Reserved(pages))
  {
    var clear := seq(pages, _ => false);
    ReservedCoversMap(pages);
    CountFill(clear, 0, Reserved(pages), true);
    CountRun(clear, 0, pages, false);
    CountRun(clear, 0, Reserved(pages), false);
  }

  /** The first request after boot is given the pages right after the reserved ones, if there are enough:
      past one page for the bitmap and one more for every 4096 pages. */
  lemma FirstRequest(pages: nat, cnt: Positive)
    requires pages >= 1
    ensures FirstFit(Boot(pages).busy, 0, cnt)
            == if pages / 4096 + 1 + cnt <= pages then Some(pages / 4096 + 1) else None
  {
    var busy, first := Boot(pages).busy, pages / 4096 + 1;
    ReservedCoversMap(pages);
    assert Reserved(pages) == first;
    assert forall k | 0 <= k < pages :: busy[k] <==> k < first;
    forall q | 0 <= q < first && q + cnt <= pages
      ensures !RunAt(busy, q, cnt, false)
    {
      assert busy[q];
    }
    if first + cnt <= pages {
      FirstFitUnique(busy, cnt, first);
    }
  }

  /** The kernel takes ten pages for its slabs straight after boot; with 130048 KB of upper memory, of
      31488 pages, those are the ten after the first eight. */
  lemma KernelBoot()
    ensures NumPages(130048) == 31488 && FirstFit(Boot(31488).busy, 0, 10) == Some(8)
    ensures PageAddress(8) == 0x40_8000
  {
    FirstRequest(31488, 10);
  }

  /** In bytes: page-aligned, inside the managed region and past the bitmap's own words. */
  ghost predicate SafelyPlaced(b: Block, pages: nat) {
    && PageAddress(b.start) % PG_SIZE == 0
    && START_ADDR + 4 * MapWords(pages) <= PageAddress(b.start)
    && PageAddress(b.start + b.size) <= PageAddress(pages)
  }

  lemma WithinIsSafelyPlaced(b: Block, busy: seq<bool>)
    requires Within(b, Reserved(|busy|), busy)
    ensures SafelyPlaced(b, |busy|)
  {
    ReservedCoversMap(|busy|);
    assert PageAddress(b.start) == PG_SIZE * (1024 + b.start);
  }

  /** After any run from boot, live blocks are page-aligned, inside the managed region, pairwise
      disjoint and clear of the bitmap's own storage, and the set bits are accounted for. */
  lemma RunIsSafe(pages: nat, ops: seq<Op>)
    requires 1 <= pages <= MAX_PAGES
    ensures PageAddress(pages) <= WORD
    ensures var h := Play(Boot(pages), ops, Returnable);
            && Separate(h.live)
            && Count(h.busy, 0, pages) == Reserved(pages) + TotalSize(h.live)
            && forall i | 0 <= i < |h.live| :: SafelyPlaced(h.live[i], pages)
  {
    BootInvariant(pages);
    PlayKeepsInvariant(Boot(pages), Reserved(pages), ops, Returnable);
    var h := Play(Boot(pages), ops, Returnable);
    forall i | 0 <= i < |h.live|
      ensures SafelyPlaced(h.live[i], pages)
    {
      WithinIsSafelyPlaced(h.live[i], h.busy);
    }
  }

  /** Freeing a block straight after it was allocated restores the map exactly when the block ends
      before the last page and starts less than 2 GB past the start address. */
  lemma PallocPfreeRestores(h: Heap, cnt: Positive)
    requires FirstFit(h.busy, 0, cnt).Some?
    ensures var p := FirstFit(h.busy, 0, cnt).value;
            Play(h, [Ask(cnt), GiveBack(|h.live|)], Returnable) == h
            <==> p + cnt < |h.busy| && p < 0x8_0000
  {
    AskGiveBackRestores(h, cnt, Returnable);
    var ask, both := [Ask(cnt)], [Ask(cnt), GiveBack(|h.live|)];
    assert ask[..0] == [] && both[..1] == ask;
    assert Play(h, ask, Returnable) == Step(h, Ask(cnt), Returnable);
  }

  /** With two pages, one page asked for after boot is the last one, and it can not be given back. */
  lemma LastPageIsNotReturned()
    ensures FirstFit(Boot(2).busy, 0, 1) == Some(1)
    ensures Play(Boot(2), [Ask(1), GiveBack(0)], Returnable) != Boot(2)
  {
    var busy := Boot(2).busy;
    assert busy == [true, false];
    assert busy[0] && RunAt(busy, 1, 1, false);
    PallocPfreeRestores(Boot(2), 1);
  }

  /** What the requests of a run from boot report: a free of a live block reports failure. */
  ghost function FreeCodes(pages: nat, ops: seq<Op>): (codes: seq<Option<int>>)
    requires pages >= 1
    ensures |codes| == |ops|
  {
    if ops == [] then []
    else
      var n := |ops| - 1;
      var live := Play(Boot(pages), ops[..n], Returnable).live;
      FreeCodes(pages, ops[..n]) + [if ops[n].GiveBack? && ops[n].i < |live| then Some(-2) else None]
  }

  // ---------------------------------------------------------------- the allocator

  lemma FirstFitPrefix(flags: seq<bool>, n: nat, cnt: nat)
    requires n <= |flags|
    ensures forall p: nat | IsLeftmostRun(flags, 0, n, cnt, false, p) :: FirstFit(flags[..n], 0, cnt) == Some(p)
    ensures NoRun(flags, 0, n, cnt, false) ==> FirstFit(flags[..n], 0, cnt) == None
  {
    var fit := FirstFit(flags[..n], 0, cnt);
    if fit.Some? {
      assert RunAt(flags, fit.value, cnt, false);
    }
    forall p: nat | IsLeftmostRun(flags, 0, n, cnt, false, p)
      ensures fit == Some(p)
    {
      assert RunAt(flags[..n], p, cnt, false);
    }
  }

  /** The count taken over a range whose end may have wrapped equals cnt exactly when the range did
      not wrap and is busy throughout. */
  lemma CountDecides(flags: seq<bool>, n: nat, idx: nat, cnt: nat, busy: nat)
    requires n <= |flags| && n <= WORD && idx < WORD && cnt < WORD && U32(idx + cnt) < n
    requires busy == if idx <= U32(idx + cnt) then Count(flags, idx, U32(idx + cnt)) else 0
    ensures busy == cnt <==> idx + cnt < n && RunAt(flags[..n], idx, cnt, true)
  {
    if idx <= U32(idx + cnt) {
      CountFull(flags, idx, idx + cnt);
      assert RunAt(flags, idx, cnt, true) <==> RunAt(flags[..n], idx, cnt, true);
    }
  }

  class PageAllocator {
    const freeMap: Bitmap

    ghost predicate Valid() {
      && freeMap.Valid()
      && 1 <= freeMap.bits <= MAX_PAGES
      && freeMap.words.Length == MapWords(freeMap.bits)
    }

    /** One flag a page, set when the page is in use. */
    ghost function Busy(): (b: seq<bool>)
      requires Valid()
      reads freeMap.words
      ensures |b| == freeMap.bits
    {
      freeMap.Flags()[..freeMap.bits]
    }

    /** init_alloc, from a zeroed map, up to the creation of the slab allocator. */
    constructor (memUpper: nat)
      requires 1 <= NumPages(memUpper) <= MAX_PAGES
      ensures Valid() && fresh(freeMap) && fresh(freeMap.words)
      ensures freeMap.bits == NumPages(memUpper)
      ensures Busy() == Boot(freeMap.bits).busy
    {
      var pages := NumPages(memUpper);
      var words := new Word[MapWords(pages)](_ => Word(0));
      freeMap := new Bitmap(pages, words);
      new;
      ReservedCoversMap(pages);
      ghost var before := freeMap.Flags();
      assert forall i | 0 <= i < |before| :: !before[i] by { ZeroWordsAreClear(freeMap.words[..]); }
      var _ := freeMap.SetRange(0, pages / PG_SIZE + 1, true);
      FillPrefix(before, pages, 0, Reserved(pages), true);
      assert before[..pages] == seq(pages, _ => false);
    }

    /** NULL exactly when there is no run of cnt clear pages; otherwise the leftmost such run, which
        becomes busy while every other page keeps its state. A count of zero takes nothing. */
    method PallocMult(cnt: nat) returns (addr: Option<nat>)
      requires Valid() && cnt < WORD
      modifies freeMap.words
      ensures cnt > 0 ==>
                match FirstFit(old(Busy()), 0, cnt)
                case None => addr == None && Busy() == old(Busy())
                case Some(p) => addr == Some(PageAddress(p)) && Busy() == Fill(old(Busy()), p, p + cnt, true)
      ensures cnt == 0 ==>
                Busy() == old(Busy()) && (addr == None <==> forall k | 0 <= k < freeMap.bits :: !Busy()[k])
    {
      ghost var before, bits := freeMap.Flags(), freeMap.bits;
      var idx := freeMap.FindRange(0, freeMap.bits, cnt, false);
      FirstFitPrefix(before, bits, cnt);
      if idx != freeMap.bits + 1 {
        FillPrefix(before, bits, idx, idx + cnt, true);
        var _ := freeMap.SetRange(idx, cnt, true);
        assert cnt == 0 ==> Fill(before, idx, idx, true) == before;
        return Some(START_ADDR + idx * PG_SIZE);
      }
      return None;
    }

    /** A free is accepted when the computed range lies strictly below the last page and is busy
        throughout; it then clears exactly that range. A refused free changes nothing. The success
        code is returned only for page 0, because bitmap_set_range returns an end index. */
    method PfreeMult(addr: nat, cnt: nat) returns (code: int)
      requires Valid() && addr < WORD && cnt < WORD
      modifies freeMap.words
      ensures var idx := PageIndex(addr);
              var accepted := idx + cnt < freeMap.bits && RunAt(old(Busy()), idx, cnt, true);
              && Busy() == (if accepted then Fill(old(Busy()), idx, idx + cnt, false) else old(Busy()))
              && code == (if accepted && idx == 0 then 0 else -2)
    {
      ghost var before, bits := freeMap.Flags(), freeMap.bits;
      var idx := PageIndex(addr);
      if U32(idx + cnt) < freeMap.bits {
        var busy := freeMap.CountRange(idx, cnt);
        CountDecides(before, bits, idx, cnt, busy);
        if busy == cnt {
          FillPrefix(before, bits, idx, idx + cnt, false);
          var stop := freeMap.SetRange(idx, cnt, false);
          return if stop == cnt then MEM_FREE_SUCC else -MEM_FREE_FAIL;
        }
      }
      return -MEM_FREE_FAIL;
    }

    method CarryAsk(n: Positive, live: seq<Block>) returns (live': seq<Block>)
      requires Valid() && n < WORD
      modifies freeMap.words
      ensures Heap(Busy(), live') == Allocate(Heap(old(Busy()), live), n)
    {
      var addr := PallocMult(n);
      live' := if addr.Some? then live + [Block((addr.value - START_ADDR) / PG_SIZE, n)] else live;
    }

    /** Whether or not the block is taken back, the code is that of a failure. */
    method CarryGiveBack(b: Block) returns (code: int)
      requires Valid() && Within(b, Reserved(freeMap.bits), Busy())
      modifies freeMap.words
      ensures Busy() == if Returnable(b, freeMap.bits) then Fill(old(Busy()), b.start, b.start + b.size, false)
                        else old(Busy())
      ensures code == -2
    {
      PageIndexOfPage(b.start);
      code := PfreeMult(PageAddress(b.start), b.size);
    }

    /** One step of a run, in terms of the addresses that the calls return and take, and the code that
        a free reports. */
    method Carry(op: Op, live: seq<Block>) returns (live': seq<Block>, code: Option<int>)
      requires Valid() && Invariant(Heap(Busy(), live), Reserved(freeMap.bits))
      requires op.Ask? ==> op.n < WORD
      modifies freeMap.words
      ensures Heap(Busy(), live') == Step(Heap(old(Busy()), live), op, Returnable)
      ensures code == if op.GiveBack? && op.i < |live| then Some(-2) else None
    {
      live', code := live, None;
      match op {
        case Ask(n) =>
          live' := CarryAsk(n, live);
        case GiveBack(i) =>
          if i < |live| {
            assert Within(live[i], Reserved(freeMap.bits), Busy());
            var reported := CarryGiveBack(live[i]);
            code := Some(reported);
            if Returnable(live[i], freeMap.bits) {
              live' := Without(live, i);
            }
          }
      }
    }

    /** Carries out a whole run on the packed map: what it leaves there and which blocks it leaves
        live are those of the abstract run. Every free of a live block reports failure. */
    method Run(ops: seq<Op>) returns (live: seq<Block>, codes: seq<Option<int>>)
      requires Valid() && Busy() == Boot(freeMap.bits).busy
      requires forall i | 0 <= i < |ops| :: ops[i].Ask? ==> ops[i].n < WORD
      modifies freeMap.words
      ensures Heap(Busy(), live) == Play(Boot(freeMap.bits), ops, Returnable)
      ensures codes == FreeCodes(freeMap.bits, ops)
    {
      ghost var boot, reserved := Boot(freeMap.bits), Reserved(freeMap.bits);
      BootInvariant(freeMap.bits);
      live, codes := [], [];
      for n := 0 to |ops|
        invariant Heap(Busy(), live) == Play(boot, ops[..n], Returnable)
        invariant codes == FreeCodes(freeMap.bits, ops[..n])
      {
        assert ops[..n + 1][..n] == ops[..n];
        PlayKeepsInvariant(boot, reserved, ops[..n], Returnable);
        var code;
        live, code := Carry(ops[n], live);
        codes := codes + [code];
      }
      assert ops[..|ops|] == ops;
    }
  }
}

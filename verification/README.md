# Longhorn kernel: verified models of its stateful layers

Longhorn is a small 32-bit x86 kernel. This project models the layers that carry its state and proves
that each of them refines a simple specification, over all inputs and over whole runs:

- `Words`, `Bitmaps`, `Flags`, `Heaps`, `Pages`: the page allocator. First fit on a word-packed bitmap
  that is stored in the region it manages, proved against a plain sequence of flags; then every run of
  allocations and frees.
- `Slabs`: the slab allocator behind `kmalloc`, with its layout arithmetic; its runs follow the same
  first-fit theory (`Heaps`) as the page allocator.
- `Streams`, `Channel`: ring-buffer streams, sequentially as a bounded FIFO queue, and as a lock-free
  channel between one producer and one consumer whose steps interleave freely.
- `SpinLocks`, `Semaphores`, `SemaphoreCalls`: the lock and the semaphore as protocols of any number of threads in which
  every access to shared memory is a step of its own, what each call does alone, and what all calls that
  returned add up to in any run.
- `Lists`, `Threads`: the intrusive doubly linked list on heap nodes, and the moves of threads between
  the lists of waiters, blocked and ready threads.
- `Lines`: the cooked-mode line editor, from the keyboard to the line a program reads.
- `CStrings`, `Tokens`, `Numerals`, `Memory`: the tokeniser with its cursor (section 7.21.5.8 of ISO C99),
  number printing, and overlapping copies (section 7.21.2.2 of ISO C99).

Unsigned 32-bit arithmetic is written out (`Machine.U32`) wherever it can wrap; C's truncating division
and signed pointer differences are `Machine.TruncDiv`, `Machine.TruncMod` and `Machine.S32`. A NULL or a
-1 that means "nothing" is `None`. Calls into hardware and the display are absent.

Where the code departs from what its comments promise, the model follows the code, and the contract
states exactly when the promise holds:

- `pfree_mult` reports success only for page 0, which is never handed out, because `bitmap_set_range`
  returns an end index; it refuses a block that ends at the last page, and every block that starts 2 GB
  or more past the start address, where the pointer difference is negative.
- `slab_alloc` scans past its table; its promised NULL depends on uninitialised memory when the table
  has no fit. `slab_init` writes an entry for a region shorter than one slab. `kmalloc` divides before it
  rounds up and so asks for too few slabs for some sizes, the least of them 4097 bytes.
- `semaphore_down` completes without any `up` when `thread_block` returns to a thread that is still on
  the list of waiters, which it does at once for a caller that is not on the ready list.
- `thread_notify` without `all` takes a second waiter off the list and loses it.
- Backspace leaves the erased letter in the line buffer, so a program that reads the buffer sees the edited
  line exactly when the last key that changed it did not erase; a full line refuses every key.
- `int_to_string` and `int_to_hexstring` print a negative number as one character without a sign; what
  they print is read back, by a reader that knows signs, exactly for non-negative arguments.

Check the project with `dafny verify dfyconfig.toml`.

## Model

| member | source | states |
|---|---|---|
| Streams.FullTestExact | libk/stream.c:51 | The full test, with its unsigned wrap, looks at the cell before the reader for every reader position if and only if the stream has at most 2^31 cells |
| Streams.FullMeansFull | libk/stream.c:51 | The full test succeeds exactly when one character less than the size is unread |
| Streams.WindowPut | libk/stream.c:54-56 | Storing at `in` and advancing it appends one character to the unread ones, across the wrap |
| Streams.WindowGet | libk/stream.c:84-86 | The cell at `out` is the oldest unread character and advancing `out` drops exactly it |
| Streams.CharStream.constructor | libk/stream.c:24-30 | Any size gives zeroed cells; the stream is an empty queue if and only if it has 1 to 2^31 cells |
| Streams.CharStream.Flush | libk/stream.c:36-41 | Every cell is cleared and the queue is empty |
| Streams.CharStream.Put | libk/stream.c:50-59 | Appends and answers 1 exactly when fewer than size - 1 characters are unread, otherwise 0 and no change |
| Streams.CharStream.Get | libk/stream.c:80-89 | Returns and removes the oldest character, or nothing exactly when the queue is empty |
| Streams.CharStream.Run | libk/stream.c:24-89 | Any sequence of puts, gets and flushes gets the answers of a FIFO queue of capacity size - 1, and leaves its contents |
| Streams.StdStream.constructor | libk/stream.c:119-124 | A new standard stream is an empty queue, whatever its cells hold |
| Streams.StdStream.Flush | libk/stream.c:130-135 | Every cell is cleared and the queue is empty |
| Streams.StdStream.Put | libk/stream.c:144-153 | Appends and answers 0 exactly when fewer than 255 characters are unread, otherwise -1 and no change |
| Streams.StdStream.PutString | libk/stream.c:162-168 | Appends exactly the longest prefix that fits and returns its length |
| Streams.StdStream.Get | libk/stream.c:189-198 | Returns and removes the oldest character, or nothing exactly when the queue is empty |
| Channel.Reachable | libk/stream.c:144-198 | An inductive invariant of all interleavings of the accesses of one `put_std` and one `get_std` caller |
| Channel.Fifo | libk/stream.c:144-198 | Under every interleaving, what was received is a prefix of what was accepted, the rest is what lies unread in order, and it never exceeds the capacity |
| Channel.NoOverwrite | libk/stream.c:144-151 | From its test on, under any interleaving, a put has room for its character and a cell to spare; completing it appends that character to the unread ones and leaves the cell being read as it was |
| Channel.NoStaleRead | libk/stream.c:193 | A read under any interleaving yields the oldest accepted character not yet received, and the get delivers it |
| Channel.PutAlone | libk/stream.c:144-153 | The three steps of a put without interruption are the put of the sequential queue |
| Channel.GetAlone | libk/stream.c:189-198 | The three steps of a get without interruption are the get of the sequential queue |
| Words.SetWord | libk/bitmap.c:24-26 | Or-ing in a bit mask sets that bit and keeps every other bit of the word |
| Words.ResetWord | libk/bitmap.c:99-101 | Masking with the complement clears that bit and keeps every other bit of the word |
| Words.UnpackUpdate | libk/bitmap.c:34-36 | Changing one bit of one word changes one flag of the unpacked map and no other |
| Words.FlagIsBit | libk/bitmap.c:24-36 | Flag i of the map is the bit of value 2^(i mod 32) of word i / 32 |
| Bitmaps.Bitmap.Set | libk/bitmap.c:90-92 | Sets flag idx of the whole map and changes no other flag of any word |
| Bitmaps.Bitmap.Reset | libk/bitmap.c:99-101 | Clears flag idx of the whole map and changes no other flag of any word |
| Bitmaps.Bitmap.Test | libk/bitmap.c:110-112 | Returns flag idx |
| Bitmaps.Bitmap.SetVal | libk/bitmap.c:120-125 | Gives flag idx the value and changes no other |
| Bitmaps.Bitmap.SetRange | libk/bitmap.c:152-158 | Changes exactly the flags of the range, none when its end wraps; the result is the end index, not a count |
| Bitmaps.Bitmap.CountRange | libk/bitmap.c:168-177 | The number of set flags in the range, 0 when its end wraps |
| Bitmaps.Bitmap.FindRange | libk/bitmap.c:188-206 | The leftmost run of count equal bits inside the range, or bits + 1 exactly when there is none; what a count of 0 gives |
| Flags.CountSplit | libk/bitmap.c:168-177 | Counts are additive over adjacent ranges |
| Flags.CountFull | kernel/kalloc.c:107 | A range counts full exactly when all its flags are set |
| Flags.CountFill | libk/bitmap.c:152-177 | Filling a range replaces its own share of the total count and nothing else |
| Flags.FirstFit | libk/bitmap.c:188-206 | The leftmost run of clear flags, or none exactly when no run exists |
| Heaps.AllocateKeepsInvariant | kernel/kalloc.c:68-82 | First fit keeps live blocks busy, in place and pairwise disjoint, and busy places equal to the reserved ones plus all live sizes |
| Heaps.ReleaseKeepsInvariant | kernel/kalloc.c:101-117 | Taking back any live block keeps all of that for the remaining ones |
| Heaps.AllocateReleaseRestores | kernel/kalloc.c:68-117 | Releasing a block just allocated restores the table and the live blocks |
| Heaps.PlayKeepsInvariant | kernel/kalloc.c:68-117 | The invariant holds after every run, whichever blocks the allocator accepts back |
| Heaps.AskGiveBackRestores | kernel/kalloc.c:68-117 | Allocate-then-free is the identity if and only if the allocator accepts the block |
| Pages.NumPagesExact | kernel/kalloc.c:43 | For every reported size, in 32 bits, the managed pages lie in the reported memory if and only if it reaches the start address at 4 MB, and then one page more would not fit; below it the subtraction wraps |
| Pages.ReservedCoversMap | kernel/kalloc.c:44-45 | One page is reserved and one more for every full 4096; for every page count that covers the bitmap's own words, and the reserved pages exist |
| Pages.MapWordsExact | kernel/kalloc.c:44 | The map has the fewest words that hold one bit for each page |
| Pages.PageIndexExact | kernel/kalloc.c:105 | For every address: the page it lies in below 2 GB past the start, page 0 for the 4095 bytes before the start, and an index far outside every map for all others |
| Pages.PageIndexOfPage | kernel/kalloc.c:105 | The page index computed from a page's address is that page if and only if it starts below 2 GB past the start |
| Pages.FirstRequest | kernel/kalloc.c:42-82 | The first request after boot is given the pages right after the reserved ones, or nothing exactly when too few are left |
| Pages.KernelBoot | kernel/kalloc.c:42-48 | With 130048 KB of upper memory 31488 pages are managed and the ten pages for the slabs start at page 8 |
| Pages.RunIsSafe | kernel/kalloc.c:42-117 | After every run from boot, live blocks are page-aligned, inside the region, pairwise disjoint and clear of the bitmap's storage, and set bits are the reserved pages plus all live sizes |
| Pages.PallocPfreeRestores | kernel/kalloc.c:68-117 | Allocate-then-free restores the map if and only if the block ends before the last page and starts below 2 GB past the start |
| Pages.LastPageIsNotReturned | kernel/kalloc.c:101-117 | With two pages, the page asked for after boot is the last one and freeing it does not restore the map |
| Pages.PageAllocator.constructor | kernel/kalloc.c:42-46 | From a zeroed map exactly the reserved pages are busy |
| Pages.PageAllocator.PallocMult | kernel/kalloc.c:68-82 | NULL and no change exactly when no run of cnt clear pages exists, otherwise the address of the leftmost one, which becomes busy alone |
| Pages.PageAllocator.PfreeMult | kernel/kalloc.c:101-117 | For any address and count: accepted exactly when the range ends before the last page and is busy throughout; it then clears exactly that range, otherwise nothing; success is reported only for page 0 |
| Pages.PageAllocator.Run | kernel/kalloc.c:42-117 | Any run on the packed map leaves exactly the map and the live blocks of the abstract run, and every free of a live block reports failure, taken back or not |
| Slabs.LayoutExact | libk/slab.c:134-157 | The slabs fill the region and the initial free memory is theirs if and only if the bytes after the table offset divide into slabs |
| Slabs.KernelLayout | libk/slab.c:133-166 | For 64-byte slabs in a multiple of 512 bytes: seven slabs for each 512 bytes, the table ends before the first and the last ends at the end of the region |
| Slabs.TableBytesExact | libk/slab.c:142-159 | The first slab starts an eighth of the whole slabs' bytes into the region, for any slab size |
| Slabs.SlabsFromCovers | libk/slab.c:146-154 | Slabs are laid out until the end is reached or passed, and no further |
| Slabs.TableFitsExact | libk/slab.c:142-154 | The entries of 64-byte slabs stay within the bytes kept for them if and only if the bytes beyond whole slabs are at most 8 for each slab |
| Slabs.ShortRegion | libk/slab.c:134-154 | A region shorter than one slab gets one entry, with no bytes kept for it and none that a scan starts at |
| Slabs.SlabsForExact | kernel/kalloc.c:130-132 | One slab below 64 bytes, otherwise the least multiple of 64 slabs not less than the whole slabs in the request; at most 63 bytes short of it and less than 4096 over |
| Slabs.SlabsForCovers | kernel/kalloc.c:130-132 | The slabs kmalloc asks for cover the request if and only if it is not 1 to 63 bytes above a positive multiple of 4096 |
| Slabs.SlabsForOnePageAndAByte | kernel/kalloc.c:130-132 | A request of 4097 bytes is given 4096 |
| Slabs.FitInTable | libk/slab.c:34-78 | The scan finds a block inside the table if and only if the table itself has a fit, and then the leftmost one |
| Slabs.NullNotPromised | libk/slab.c:34-78 | A full table and one stray word beyond it for which a slab that does not exist is handed out |
| Slabs.MarkInTable | libk/slab.c:61-68 | Marking a run moves the free-memory figure by exactly 64 bytes for each entry and keeps all addresses |
| Slabs.RunIsSafe | libk/slab.c:34-118 | After every run on a fresh table, live blocks are disjoint and inside it, and the busy entries are exactly their sizes |
| Slabs.AllocFreeRestores | libk/slab.c:34-118 | Allocate-then-free restores the table |
| Slabs.SlabAllocator.Init | libk/slab.c:133-166 | Writes one free entry with its address for each slab and nothing else, in a region of any size; fails and changes nothing exactly for slabs smaller than an entry |
| Slabs.SlabAllocator.Alloc | libk/slab.c:34-78 | Takes the leftmost sufficient run that starts at a scanned entry, returns its address and lowers the counter; NULL and no change exactly when there is none |
| Slabs.SlabAllocator.Free | libk/slab.c:88-118 | Frees the n entries from the one with the address and raises the counter exactly when all are busy, otherwise fails without change |
| Slabs.SlabAllocator.Boot | kernel/kalloc.c:48 | The kernel's allocator starts with all slabs free, none past the end of the region, and a counter of 64 bytes for each slab |
| Slabs.SlabAllocator.Run | libk/slab.c:34-118 | Any run of requests that fit and frees of live blocks, with anything written past the table in between, leaves the table and live blocks of the abstract run of the calls, and the counter is 64 bytes for each slab not in a live block |
| SpinLocks.StepKeepsInvariant | libk/synch.c:188-225 | A step keeps the lock invariant if and only if it is not a release by a thread that does not hold the lock |
| SpinLocks.MutualExclusion | libk/synch.c:188-225 | For any number of threads and every interleaving: the value is 0 or 1, it is 1 exactly when one thread is between acquire and release, that thread is unique, and no check fails |
| SpinLocks.AcquireTakes | libk/synch.c:188-202 | An acquire of a free lock leaves it with value 1 and the caller as its only holder |
| SpinLocks.SpinExact | libk/synch.c:197 | An attempt takes the lock if and only if it is free, and otherwise changes nothing |
| SpinLocks.ReleaseFrees | libk/synch.c:209-225 | The holder's release leaves value 0, no holder and no error |
| SpinLocks.AcquireReleaseRestores | libk/synch.c:188-225 | Acquire and release without interruption restore the state |
| SpinLocks.Handover | libk/synch.c:188-225 | After the holder's release, whichever thread spins next holds the lock |
| SpinLocks.FreeReleaseSpoils | libk/synch.c:188-224 | A release of a free lock fails and leaves the value -1, at which every acquire fails |
| SpinLocks.StrayReleaseLetsIn | libk/synch.c:217-224 | A release by a thread outside reports no error while the lock is held, and lets a second holder in |
| Semaphores.AdvanceKeepsData | libk/synch.c:52-162 | What a thread knows under the lock stays true until it acts, so split loads and stores of the value lose no update |
| Semaphores.Conservation | libk/synch.c:52-162 | In every interleaving of down, try_down and up: value not negative, waiters only at value 0, initial value + ups = value + decrements + waiters let go, and no lock operation fails |
| Semaphores.NextKeepsQueued | libk/synch.c:93-107 | A step keeps waiters on the list once and accounted for if and only if thread_block does not return to a thread still on the list |
| Semaphores.NoMoreDownsThanUps | libk/synch.c:52-135 | While waiters stay blocked, no more downs are let through than the initial value and the ups allow, with the exact balance |
| SemaphoreCalls.UpAlone | libk/synch.c:117-135 | An up that runs alone, from any reachable state with the lock free: without waiters the value is raised by 1, with waiters the front one is taken out and the value kept; nothing else differs when it has returned |
| SemaphoreCalls.TryDownAlone | libk/synch.c:142-162 | A try_down that runs alone lowers a positive value by 1 and succeeds; at 0 it fails and leaves the state as it was |
| SemaphoreCalls.DownAlone | libk/synch.c:52-107 | A down that runs alone lowers a positive value by 1; at 0 it puts the caller in front of the waiters and blocks with the lock free |
| SemaphoreCalls.ResumeAlone | libk/synch.c:102-106 | A thread that thread_block returns to takes the lock, releases it and returns, and changes nothing else |
| SemaphoreCalls.CallsAreKept | libk/synch.c:52-162 | A thread enters a call only by beginning it, stays in that call, and leaves it only by the last release |
| SemaphoreCalls.Ledger | libk/synch.c:52-162 | In every interleaving: calls begun = calls returned + calls under way, for each kind; ups that took effect = ups returned + ups on their way out; decrements and resumed waiters = downs and successful try_downs returned + those on their way out; only a try_down fails |
| SemaphoreCalls.NoMoreDownsReturned | libk/synch.c:52-162 | While waiters stay blocked, no more downs and try_downs return with success than the initial value and the ups begun |
| SemaphoreCalls.Quiescent | libk/synch.c:52-162 | While waiters stay blocked, whenever all calls have returned nobody waits and value = initial value + ups - downs - successful try_downs |
| SemaphoreCalls.DownWithoutUp | libk/synch.c:93-107 | A run of one thread in which a down returns with success, with initial value 0 and no up begun |
| Lists.List.constructor | libk/list.c:29-35 | Two new sentinels, linked to each other, form the empty sequence |
| Lists.List.InsertFront | libk/list.c:66-92 | Prepends the node; links stay mutually inverse and acyclic |
| Lists.List.InsertEnd | libk/list.c:75-80 | Appends the node; links stay mutually inverse and acyclic |
| Lists.List.Delete | libk/list.c:101-120 | Removes exactly the given member and clears its links; for a non-member, a sentinel or NULL returns NULL and changes nothing |
| Lists.List.Pop | libk/list.c:128-133 | Takes the head of the sequence, or returns NULL and changes nothing when it is empty |
| Lists.List.IsEmpty | libk/list.c:194-198 | True exactly for the empty sequence |
| Lists.List.Size | libk/list.c:206-216 | The length of the sequence |
| Threads.WokenInOrder | kernel/thread.c:234-268 | Front insertion of waiters and front insertion of ready threads together wake threads in the order they began to wait |
| Threads.KeepWithout | kernel/thread.c:194 | Removing one more node from what is left of a list is leaving out one more node, in order |
| Threads.Scheduler.Unblock | kernel/thread.c:187-204 | Moves a blocked thread from the blocked list to the front of the ready list, both staying duplicate-free and disjoint; otherwise changes nothing |
| Threads.Scheduler.Notify | kernel/thread.c:252-268 | With `all`: waiters emptied, exactly they leave blocked, each gets the code, ready is the waiters oldest first before the old ready list; without it, one is woken and a second is lost; -1 exactly when nobody waits |
| Threads.Scheduler.WaitThenNotify | kernel/thread.c:234-268 | Any number of threads that begin to wait in turn and are then notified together stand in front of the ready list in the order they began, with the code; exactly they leave the blocked list and no waiter is left |
| Threads.JoinWaiters | kernel/thread.c:234-238 | The caller is put in front of the waiters; an error when there is no thread to wait for |
| Threads.WaitInTurn | kernel/thread.c:234-268 | Threads that begin to wait in turn stand newest first and would be woken in the order they began |
| Threads.AllocateTid | kernel/thread.c:450-459 | Takes the least free id below 512 and no other; 513 and no change exactly when none is free |
| Lines.LettersAreNotNul | drivers/line.c:18-30 | No key types a NUL, so the line never ends early |
| Lines.KeyMeanings | drivers/line.c:324-357 | Exactly which keycodes type, erase and toggle the shift state, by number |
| Lines.Keyboard | drivers/line.c:18-30 | What each typing key types without shift, row by row, and that with shift it is the capital of it |
| Lines.ShiftParity | drivers/line.c:334-344 | After any keycodes the shift state is the initial one, flipped once for each shift, shift release and caps lock among them |
| Lines.TypingGivesLetters | drivers/line.c:118-153 | Typing keys alone give their letters in order, up to a full line of 1023 |
| Lines.WithoutErase | drivers/line.c:118-153 | Any keycodes without an erase give the letters of the typing keys, each in the shift state that the keys before it leave, up to a full line |
| Lines.EraseUndoesType | drivers/line.c:135-150 | After any keycodes, a letter and Backspace cancel if and only if the line did not have 1022 letters |
| Lines.StaleExact | drivers/line.c:135-150 | After any keycodes, if the last key that changed the line erased a letter, exactly that letter stands after the line; if it typed one, nothing does |
| Lines.StaleKept | drivers/line.c:118-153 | Keycodes that never change the line leave what stood after it |
| Lines.StaleIffErased | drivers/line.c:118-153 | From a clear buffer, a letter stands after the line if and only if the last key that changed the line erased one |
| Lines.BackspaceLeavesLetter | drivers/line.c:135-150 | After any letter and Backspace the line is empty and the letter still in the buffer; after a letter and Shift it is not |
| Lines.LineDiscipline.Flush | drivers/line.c:99-108 | The buffer is all NUL and the line is empty |
| Lines.LineDiscipline.EvalKc | drivers/line.c:324-357 | Which keys toggle which modifier (`Lines.KeyMeanings`, `Lines.ShiftParity`); a keycode comes back only for typing and erasing keys, and then it is inside both key tables |
| Lines.LineDiscipline.LineIn | drivers/line.c:118-153 | One keycode edits the line as the append/drop-last editor does and keeps the cells above the index and the last cell NUL; the cell at the index is cleared by typing, holds the letter just erased, and is otherwise kept; a typed letter is offered to the stream; a full line refuses every key |
| Lines.LineDiscipline.BufferReadsAsLine | drivers/line.c:135-143 | The text in the buffer is the line and then the letter left after it, if any |
| Lines.LineDiscipline.Feed | drivers/line.c:118-153 | Every keycode sequence gives the line and the shift state of the simple editor, the text in the buffer is that line and the letter left behind, and from a clear buffer it is the line alone if and only if the last key that changed the line did not erase |
| Lines.LineDiscipline.FeedLine | drivers/line.c:118-153 | Whenever Enter is accepted, after any keycodes, the NUL-terminated buffer is the edited line and a newline |
| Lines.LineDiscipline.OutBufN | drivers/line.c:276-286 | Copies at most the whole buffer and reports how much; a full copy reads the same text |
| CStrings.StrLen | libc/string.c:306-313 | The place of the first NUL, hence the length of the text |
| CStrings.Reverse | libc/string.c:253-261 | Reverses the text and leaves its terminator and what follows alone |
| Numerals.ParsePrinted | libc/string.c:24-64 | Printing a number and reading it back, in either base, gives the number |
| Numerals.ReaderReadsAll | libc/string.c:16-64 | The signed reader reads every number, negative ones as a sign and the digits of the absolute value |
| Numerals.NumeralReadsBack | libc/string.c:24-64 | What the digit loops leave for n, in either base, reads as n if and only if n is not negative; for a negative n it is the one character of the truncated remainder |
| Numerals.Int32Digits | libc/string.c:26-31 | A 32-bit number has at most ten decimal and eight hexadecimal digits, so the buffer is never exceeded |
| Numerals.IntToString | libc/string.c:24-37 | The text reads back as n by a signed decimal reader if and only if n is not negative, with no leading zero; a negative n leaves one character |
| Numerals.IntToHexString | libc/string.c:46-64 | The text reads back as n by a signed 0x-hexadecimal reader if and only if n is not negative, with no leading zero; a negative n leaves one character after 0x |
| Memory.AscendingExact | libc/memcpy.c:21-30 | The ascending copy is right for every content if and only if the destination does not start inside the source after its first cell |
| Memory.AscendingRepeats | libc/memcpy.c:21-30 | A copy to a later place repeats the cells between the two starts over the whole destination, and changes nothing else |
| Memory.MemCpy | libc/memcpy.c:21-30 | Copies one cell at a time, lowest first, whatever the overlap |
| Memory.MemMove | libc/memmove.c:21-35 | For every overlap and offset the destination is the original source and nothing else changes |
| Tokens.TokensAreSegments | libc/string.c:200-226 | The tokens are exactly the maximal non-empty stretches without delimiters |
| Tokens.TokensInOrder | libc/string.c:200-226 | Each token stops before the next one starts |
| Tokens.Tokenizer.StrSpn | libc/string.c:128-144 | The length of the initial stretch of delimiters |
| Tokens.Tokenizer.StrPBrk | libc/string.c:236-247 | The first delimiter of the string, or NULL exactly when there is none |
| Tokens.Tokenizer.StrTok | libc/string.c:200-226 | One call: the next token from the cursor on, one NUL written exactly when a delimiter follows it, and the new cursor; NULL and no change exactly when only delimiters are left |
| Tokens.Tokenizer.Tokenize | libc/string.c:200-226 | One call and NULL calls with the same delimiters return all tokens in order; only one terminator after each token that a delimiter follows is written, and every token reads as its segment |
| Tokens.Tokenizer.Exhausted | libc/string.c:200-210 | After that, any number of calls return NULL and change nothing |

## Left out

- Slabs.SlabAllocator.Alloc: requires a fit or a busy entry to stop the inner scan in the modelled memory, which may extend past the region by any amount.
- Slabs.SlabAllocator.Free: requires an entry with the address, because the search is bounded by a counter that never moves, and requires the n entries to lie in the region.
- Pages.PageAllocator.constructor: does not make the slab allocator; its `palloc_mult(10)` is an ordinary request of a run, and its `slab_init` is `Slabs.SlabAllocator.Boot`.
- Pages.PageAllocator.PallocMult, Pages.PageAllocator.PfreeMult: serialised, with the lock taken as acquired; `pfree_mult` writes the map after it has released the lock, so concurrent frees have no clean property.
- Semaphores.Conservation: the value is unbounded, and the waiters are a sequence of thread ids; a thread that is enqueued twice would corrupt the intrusive list. No liveness or wake-up guarantee is claimed.
- Streams.CharStream.constructor: the buffer comes allocated and zeroed; the operations require 1 to 2^31 cells, the exact range in which the full test is right (`Streams.FullTestExact`).
- Lists.List.InsertFront, Lists.List.InsertEnd: require a node that is not in the list; the code does not check.
- Threads.Scheduler.Notify: requires every waiter to be blocked and on the blocked list; from a wait node to its thread it uses a map in place of the offset arithmetic of `LIST_ENTRY`.
- Threads.JoinWaiters: the part of `thread_wait` before the caller blocks.
- Lines.LineDiscipline.LineIn: COOKED mode; the echo on the display is absent.
- RAW mode, `line_recv`, `line_recs`, `line_ins`, `line_out` and `line_send` of the line discipline.
- `schedule`, `thread_block`, `idle`, thread creation, exit and kill, and context switching.
- Processes, the shell, `printf` and its family, and the test harness.
- `kfree`, `kcalloc`, and the allocation list of `kmalloc`.
- `bitmap_set_all`, `num_elems`, `num_bytes`, and the stream functions that copy or resize.
- The remaining string and memory functions, which are easy or do not meet their comments.
- Display, VGA, VESA, BMP, serial, timer and keyboard ports, interrupts and boot code.

# Verified model of the Pintos kernel and the shell tokenizer

A Dafny 4.11 model of the parts of the repository with the most to get wrong, and proofs about them.
`dafny verify dfyconfig.toml` checks everything.

Each component comes in two layers. A specification layer describes states and steps as datatypes and
functions, and holds the main theorems. A code layer has the source's own form, classes whose fields are
updated in place and methods with loops, each proved to take exactly the specified step.

- **File system** (`Disk`, `Bitmap`, `Directory`, `Geometry`, `FileSystem*`, `DirectoryCode`): sectors, flat
  byte arrays, names. In every run, whatever memory allocation fails, the extents of live inodes are disjoint,
  in range and marked, and reference and deny counts match the open handles; and every run refines a model of
  names, byte arrays and handles (`FileSystemHistory`), with an exact condition on directory scans.
- **Memory** (`Palloc`, `Heap*`, `Bits`, `PageTable`, `PageDirectory`, `PageDestroy`, `Elf`): two page pools,
  the size-class allocator under every interleaving of its callers, page directories as a partial map, and the
  memory image of an ELF file.
- **Synchronisation and scheduling** (`Synch`, `SynchCode`, `Donation`, `Threads`, `SleepQueue`, `SleepTimer`,
  `LoadAverage`, `Scheduler`, `Interrupt`): atomic steps under every interleaving, priority donation, the sleep
  queue, and the fixed-point recurrences of the feedback scheduler.
- **Library** (`Arithmetic`, `Sort`, `Printf`, `Ustar`): 64-bit division from a narrower instruction, heapsort
  with its comparison bound, the integer formatter with atoi, and the ustar header codec.
- **Shell** (`Tokenizer`): escapes, brackets and delimiters.

`Nonlinear` and `Sequences` hold facts about integers and sequences that several modules use.

Where the code and its comments disagree, the model follows the code:

- `dir_add` assumes that a short read means end of file (`Project2/src/filesys/directory.c:161-163`), but
  `inode_read_at` is also short when it gets no bounce buffer. `Directory.AddCorrectIff` says exactly when the result is
  right, and `Directory.AddCanOverwrite` shows a case where it is not. `dir_readdir` likewise reports that there are no
  more entries; `DirectoryCode.ListAll` says when a listing is complete.
- The comment on the field width promises a minimum width (`Project2/src/lib/stdio.c:108-109`), but the code may pad on both
  sides, because a negative width argument turns left justification on after the 0 flag was checked against it:
  `Printf.DirectiveWidth` and `Printf.PadsTwice`.
- `malloc` promises a block of at least the size asked for (`Project2/src/threads/malloc.c:87-88`); the largest requests wrap
  around: `Heap.EnoughPagesIff`, `HeapMain.LiveBlock` and, for what realloc then copies, `HeapMain.CopyFitsIff`.
- `tokenizer_load_raw_token` is documented to return true if it is not at the end of the line
  (`Project1/tokenizer.h:71-73`); it returns true exactly at the end.
- malloc is described as unable to handle blocks bigger than 2 kB (`Project2/src/threads/malloc.c:31-35`); its largest
  descriptor is 1 kB, and larger requests already take whole pages.
- `thread_donate` asserts that every lock in the chain has a holder; `Donation.DonateIsExact` says when that fails.

Memory that may or may not be available, and reads that may or may not succeed, are arguments of the operations or
arbitrary choices inside them; every theorem holds for all of them, or says for exactly which it does.

## Model

| member | source | states |
|---|---|---|
| Arithmetic.Nlz | Project2/src/lib/arithmetic.c:41-73 | the number of leading zero bits: the shifted value has its top bit set and no bit is lost |
| Arithmetic.UDiv64 | Project2/src/lib/arithmetic.c:77-127 | the quotient is floor(n / d) for all 64-bit n and all nonzero 64-bit d; every divl it issues has a quotient that fits 32 bits |
| Arithmetic.EstimateWithinOne | Project2/src/lib/arithmetic.c:121-124 | for d of at least 2^32 the estimate is the true quotient or one more, never less, the shift by 31 included |
| Arithmetic.CorrectEstimate | Project2/src/lib/arithmetic.c:124 | the final comparison, whose product may wrap modulo 2^64, picks the true quotient |
| Arithmetic.UMod64 | Project2/src/lib/arithmetic.c:129-135 | the value returned is the remainder truncated to 32 bits |
| Arithmetic.UMod64ExactDivisors | Project2/src/lib/arithmetic.c:129-135 | every remainder of a divisor comes back exact if and only if the divisor is at most 2^32 |
| Arithmetic.SDiv64 | Project2/src/lib/arithmetic.c:137-146 | the quotient truncated toward zero, for every pair but the least integer over -1, which wraps |
| Arithmetic.SMod64 | Project2/src/lib/arithmetic.c:148-154 | the value returned is the truncated remainder, wrapped to 32 bits |
| Arithmetic.SMod64ExactDivisors | Project2/src/lib/arithmetic.c:148-154 | every remainder of a divisor comes back exact if and only if its magnitude is at most 2^31 |
| Disk.PatchedContent | Project2/src/filesys/inode.c:257-318 | rewriting bytes of the data sectors is a slice update of the flat byte array |
| Disk.PatchedSlack | Project2/src/filesys/inode.c:299-307 | a write keeps the tail of the last sector, past the end of file |
| Bitmap.ScanAndFlip | Project2/src/lib/kernel/bitmap.c:295-326 | finds and marks the first run of clear bits, or changes nothing if there is none |
| FileSystemCode.Kernel.InodeReadAt | Project2/src/filesys/inode.c:200-250 | returns exactly the bytes of the flat array from the offset on, as many as the size, the end of file and the bounce buffer allow |
| FileSystemCode.Kernel.InodeWriteAt | Project2/src/filesys/inode.c:257-318 | writes exactly that many bytes, or none while writes are denied, and changes no other byte of the device |
| FileSystemCode.Kernel.FreeMapAllocate | Project2/src/filesys/free-map.c:22-41 | takes the first free run and saves the map; undone if saving fails |
| FileSystemCode.Kernel.FreeMapRelease | Project2/src/filesys/free-map.c:43-50 | clears the run and saves the map |
| FileSystemCode.Kernel.InodeCreate | Project2/src/filesys/inode.c:67-106 | writes the header and zeros the data sectors of a newly allocated run |
| FileSystemCode.Kernel.InodeOpen | Project2/src/filesys/inode.c:108-142 | one object per sector: an open inode is shared, a new one has the header that is on disk |
| FileSystemCode.Kernel.InodeClose | Project2/src/filesys/inode.c:160-186 | drops a reference; the last one of a removed inode gives its sectors back |
| FileSystemCode.Kernel.InodeDenyWrite | Project2/src/filesys/inode.c:320-327 | the deny count grows by one |
| FileSystemCode.Kernel.InodeAllowWrite | Project2/src/filesys/inode.c:329-338 | the deny count falls by one |
| Directory.PutSlotEntries | Project2/src/filesys/directory.c:169-173 | rewriting slot i changes entry i only, wherever it straddles sectors, and a write at the end of file adds none |
| Directory.LookupIsMapLookup | Project2/src/filesys/directory.c:91-112 | the linear search decides membership in the map of names and finds the bound sector |
| Directory.AddBindsOne | Project2/src/filesys/directory.c:141-178 | with every read served, dir_add binds exactly one new name, or changes nothing; it succeeds exactly for a valid unbound name with a free slot |
| Directory.RemoveUnbindsOne | Project2/src/filesys/directory.c:184-216 | dir_remove deletes exactly one key |
| Directory.CutLookup | Project2/src/filesys/directory.c:91-112 | a search cut short by a failed allocation gives the full answer exactly if the name is absent or its entry was still read |
| Directory.AddCorrectIff | Project2/src/filesys/directory.c:150-173 | a successful dir_add keeps every old binding if and only if the name was unbound and the slot chosen was free |
| Directory.AddCanOverwrite | Project2/src/filesys/directory.c:155-166 | the failing case: a read refused for lack of memory lets dir_add overwrite an entry in use |
| Directory.ListsEachNameOnce | Project2/src/filesys/directory.c:218-236 | the listing of a fresh handle has every bound name exactly once and nothing else |
| DirectoryCode.Lookup | Project2/src/filesys/directory.c:91-112 | the loop finds the first entry in use under the name among the entries it can read |
| DirectoryCode.FreeSlot | Project2/src/filesys/directory.c:157-166 | the loop finds the first free slot, or the end |
| DirectoryCode.DirAdd | Project2/src/filesys/directory.c:141-178 | the device changes as the directory specification says, over whatever the entry buffer held |
| DirectoryCode.Dir.ReadDir | Project2/src/filesys/directory.c:218-236 | the name of the next entry in use before the first refused read, and the position moves past it; none exactly if there is no such entry |
| DirectoryCode.ListAll | Project2/src/filesys/directory.c:218-236 | reading until there is nothing more lists the entries before the first refused read; that is the whole listing if and only if no entry in use comes later |
| Directory.CutListing | Project2/src/filesys/directory.c:218-236 | a listing that stops early is complete if and only if it leaves out no entry in use |
| Geometry.ClearIsUnowned | Project2/src/filesys/free-map.c:27-41 | sectors found free belong to no live inode: nothing reachable is handed out again |
| Geometry.PatchIsLocal | Project2/src/filesys/inode.c:257-318 | writing one live inode changes no header and no byte of another |
| FileSystemInvariants.CreateKeepsStorage | Project2/src/filesys/filesys.c:45-59 | creation, with every rollback, keeps extents disjoint, in range and marked, and cached headers equal to the disk |
| FileSystemRuns.GiveBack | Project2/src/filesys/inode.c:176-182 | both releases of the last close find every bit set and clear exactly the extent of the file |
| FileSystemRuns.DenyAssertsHold | Project2/src/filesys/inode.c:320-338 | the assertions on the deny count hold for every handle |
| FileSystemRuns.WritesRefusedIff | Project2/src/filesys/inode.c:265-266 | writes are refused exactly while some open file denies them |
| FileSystemMain.StepKeeps | Project2/src/filesys/filesys.c:45-91 | each operation keeps the invariant and the bytes of every other file, named or open, removed or not |
| FileSystemMain.RunKeeps | Project2/src/filesys/filesys.c:45-91 | the invariant holds after every run of create, open, reopen, close, remove, deny, seek, read and write, whatever memory fails |
| FileSystemMain.FormatEstablishes | Project2/src/filesys/filesys.c:93-103 | formatting a device establishes the invariant and an empty directory |
| FileSystemMain.CreateBinds | Project2/src/filesys/filesys.c:41-59 | a created file reads as zeros and lies on sectors nothing owned; it is bound to a new name without any other change if and only if no failed read misled the two scans of dir_add |
| FileSystemMain.FullScansServe | Project2/src/filesys/directory.c:150-166 | scans that no failed allocation cuts short never mislead dir_add |
| FileSystemMain.OpenFinds | Project2/src/filesys/filesys.c:61-76 | open succeeds exactly if the name is bound, the scan comes to it and there is memory, and then gives a handle on the file the name is bound to |
| FileSystemMain.RemoveUnbinds | Project2/src/filesys/filesys.c:78-91 | remove deletes exactly one name or none, and succeeds exactly if the name is bound, the scan comes to it and there is memory |
| FileSystemMain.WriteThenRead | Project2/src/filesys/file.c:62-100 | a write is a slice update of the length it reports, and reading there gives the data back |
| FileSystemMain.CloseFrees | Project2/src/filesys/file.c:44-54 | close frees the sectors of a file exactly if it was removed and this was its last handle |
| FileSystemHistory.StepRefines | Project2/src/filesys/filesys.c:41-91 | each operation is explained and followed by a model of names, byte arrays and handles without device, free map or inode table, if and only if it is not a creation misled by a failed read |
| FileSystemHistory.RunRefines | Project2/src/filesys/file.c:17-141 | along every run without such creations every reply, byte read and count returned is that of the simple model, and at the end names, bytes and handles are |
| FileSystemHistory.FormatRefines | Project2/src/filesys/filesys.c:93-103 | a formatted device is the simple model with no names and no files |
| FileSystemHistory.RunKeepsBytes | Project2/src/filesys/inode.c:257-318 | in every run, misled creations included, the bytes of a file change only by writes to it |
| FileSystemMain.SavedBitmapOnDisk | Project2/src/filesys/free-map.c:27-41 | after a successful save the free map file holds the free map |
| FileSystemCalls.FilesysCreate | Project2/src/filesys/filesys.c:41-59 | has exactly the effect of the Create step |
| FileSystemCalls.FilesysOpen | Project2/src/filesys/filesys.c:61-76 | has exactly the effect of the Open step and yields a handle on the opened inode |
| FileSystemCalls.FilesysRemove | Project2/src/filesys/filesys.c:78-91 | has exactly the effect of the Remove step |
| FileSystemCalls.FileReopen | Project2/src/filesys/file.c:37-42 | has exactly the effect of the Reopen step |
| FileSystemCalls.FileClose | Project2/src/filesys/file.c:44-54 | has exactly the effect of the Close step |
| FileSystemCalls.FileRead | Project2/src/filesys/file.c:62-74 | has exactly the effect of the Read step; the position advances by what was read |
| FileSystemCalls.FileWrite | Project2/src/filesys/file.c:87-100 | has exactly the effect of the Write step; the position advances by what was written |
| FileSystemCalls.FileDenyWrite | Project2/src/filesys/file.c:116-127 | denies once per handle |
| FileSystemCalls.FileAllowWrite | Project2/src/filesys/file.c:129-141 | allows only what the handle denied |
| FileSystemCalls.HandleIsUsable | Project2/src/filesys/file.c:44-141 | in every state that satisfies the invariant, no assertion on the way of a file call can fire |
| Heap.EnoughPagesIff | Project2/src/threads/malloc.c:105-119 | a big block is large enough, or refused, if and only if the request is less than 2^32 - 11: beyond, the 32-bit sum with the header wraps and one page is handed out |
| HeapMain.MallocKeeps | Project2/src/threads/malloc.c:89-154 | for every size_t request malloc keeps every free list equal to the unused blocks of the live arenas, counts exact, and a used block in each arena |
| HeapMain.MallocGives | Project2/src/threads/malloc.c:89-154 | malloc returns a block that was not live and changes no byte |
| HeapMain.FreeKeeps | Project2/src/threads/malloc.c:216-264 | free keeps the same invariant; an arena without used blocks leaves with its page |
| HeapMain.FreeKeepsBytes | Project2/src/threads/malloc.c:216-264 | free changes no byte of any other live block |
| HeapMain.LiveBlock | Project2/src/threads/malloc.c:177-186 | a live block lies past its arena header and within its pages, and is as large as asked for if and only if its request did not wrap |
| HeapMain.LiveApart | Project2/src/threads/malloc.c:89-154 | live blocks are disjoint |
| HeapMain.ReallocKeepsBytes | Project2/src/threads/malloc.c:188-214 | with no other call in between, realloc carries over the first min(new size, old capacity) bytes, keeps every other block, and changes nothing when it fails |
| HeapMain.CopyFitsIff | Project2/src/threads/malloc.c:205-211 | the bytes realloc copies fit the new block if and only if the request does not wrap or the old block fits a page |
| HeapRuns.RunLeaves | Project2/src/threads/malloc.c:89-264 | in every run of every thread a live block that its owner neither frees nor writes stays live, as large, and with the same bytes |
| HeapRuns.ReallocAmongOthers | Project2/src/threads/malloc.c:188-214 | whatever other threads do between its malloc, each byte it copies and its free, realloc accesses only live memory and carries over the first min(new size, old capacity) bytes |
| HeapRuns.RunKeeps | Project2/src/threads/malloc.c:71-294 | the invariant holds over every interleaving of malloc, free, the steps of realloc, writes and direct page use |
| HeapRuns.NoLeak | Project2/src/threads/malloc.c:227-262 | once nothing is live, every page the allocator took has gone back |
| HeapInvariants.DropArenaKeeps | Project2/src/threads/malloc.c:241-253 | an arena whose count is full has all its blocks on the free list and gives back its page |
| HeapCode.Allocator.Malloc | Project2/src/threads/malloc.c:89-154 | the in-place program has exactly the effect of the Malloc step |
| HeapCode.Allocator.Free | Project2/src/threads/malloc.c:216-264 | the in-place program has exactly the effect of the Free step |
| HeapCode.Allocator.Realloc | Project2/src/threads/malloc.c:188-214 | the in-place program has exactly the effect of the Realloc function, of Malloc for a null block and of Free for size 0 |
| HeapCode.Allocator.InitArena | Project2/src/threads/malloc.c:137-146 | the blocks of a new arena go to the end of the free list in order |
| HeapCode.Allocator.DelistBlocks | Project2/src/threads/malloc.c:247-251 | removing the blocks of an arena one by one leaves the others in order |
| Palloc.Allocator.constructor | Project2/src/threads/palloc.c:43-62 | the two pools are disjoint, within free memory, and empty of users |
| Palloc.Allocator.GetMultiple | Project2/src/threads/palloc.c:64-101 | hands out pages of the pool asked for that nobody had, whenever there is such a run |
| Palloc.Allocator.FreeMultiple | Project2/src/threads/palloc.c:116-142 | pages go back to the pool they came from, and no others do |
| Synch.StepKeeps | Project2/src/threads/synch.c:68-408 | every atomic step of every operation keeps the invariant |
| Synch.RunKeeps | Project2/src/threads/synch.c:68-408 | every interleaving of steps keeps it |
| Synch.SwitchPoints | Project2/src/threads/synch.c:68-408 | at every switch point of every run: no holder exactly if the lock's semaphore is 1; nobody parked on a positive semaphore; a waiter taken off a condition has been upped, or its signaller is about to |
| Synch.SignalBeforeSleep | Project2/src/threads/synch.c:342-357 | a waiter signalled before it sleeps does not sleep |
| Synch.NoSpuriousReturn | Project2/src/threads/synch.c:342-357 | a waiter goes on only after its own signal |
| Synch.PickIsFirstMax | Project2/src/threads/synch.c:359-390 | a search that nobody disturbs finds the first of the greatest waiters |
| SynchCode.Kernel.SemaDown | Project2/src/threads/synch.c:68-96 | parks on a semaphore at 0, else takes one |
| SynchCode.Kernel.SemaUp | Project2/src/threads/synch.c:143-162 | wakes every waiter, then adds one |
| SynchCode.Kernel.LockRelease | Project2/src/threads/synch.c:278-291 | clears the holder and ups the semaphore in one step |
| SynchCode.Kernel.CondWait | Project2/src/threads/synch.c:342-353 | appends a private semaphore at 0 |
| SynchCode.Kernel.CondSignal | Project2/src/threads/synch.c:376-390 | if no other thread runs during list_max, takes off the waiter it finds |
| SynchCode.Kernel.UpWaiter | Project2/src/threads/synch.c:388 | ups the private semaphore of the waiter taken off |
| SynchCode.UnblockAsserts | Project2/src/threads/thread.c:273-282 | the assertion that an unblocked thread is blocked holds in sema_up |
| Donation.DonateRestores | Project2/src/threads/thread.c:783-795 | despite stopping early, a donation leaves every holder at least as urgent as each thread that waits for it |
| Donation.DonateIsExact | Project2/src/threads/thread.c:783-795 | exactly the threads on the chain are raised; the assertion on a null holder fails if and only if the chain ends at a lock without one |
| Donation.BlockingDonates | Project2/src/threads/synch.c:78-92 | both for the call made each time a thread blocks on a held lock, for the first time or again after losing the race for it |
| Donation.DonationCanPanic | Project2/src/threads/thread.c:783-795 | the failing case: a woken thread that still names a lock nobody holds |
| Donation.ThreadDonate | Project2/src/threads/thread.c:783-795 | the recursion on threads and locks computes the donation, and ends on cyclic graphs too |
| LoadAverage.LoadStaysClose | Project2/src/threads/thread.c:832-844 | load_avg stays in [0, N] and the exact recurrence exceeds it by 0 to 60 (N + 1) units of 2^-14, over unboundedly many updates |
| LoadAverage.DecayRange | Project2/src/threads/thread.c:819-821 | the decay factor is below one, and at most 2N / (2N + 1) |
| LoadAverage.RecentStep | Project2/src/threads/thread.c:819-821 | the once-a-second update brings recent_cpu back to at most 240 N + 20 |
| LoadAverage.RunKeepsBounds | Project2/src/devices/timer.c:175-196 | recent_cpu stays between -(40 N + 20) and 240 N + 120 in every run |
| LoadAverage.NoOverflow | Project2/src/threads/fixed_point.h:18-76 | with at most 500 runnable threads no update overflows an int |
| Interrupt.TimerInterrupt | Project2/src/devices/timer.c:175-196 | a whole tick: exactly the due sleepers are made ready first and count as runnable in the load average of the same tick, then every recent_cpu takes its step of the recurrence; the bounds hold for up to 500 threads |
| Scheduler.Mlfqs.UpdateTick | Project2/src/devices/timer.c:185-195 | charges the running thread, then once a second updates load_avg and every recent_cpu in that order, then every fourth tick the priorities; in int and int64 |
| Scheduler.Mlfqs.CountLoadAvg | Project2/src/threads/thread.c:832-844 | counts the ready lists and the running thread and takes one step of the recurrence |
| Scheduler.PriorityFalls | Project2/src/threads/thread.c:854-866 | more recent_cpu or more nice never gives a higher priority |
| SleepQueue.HandlerIsExact | Project2/src/threads/thread.c:746-770 | the handler wakes exactly the sleepers whose tick has come |
| SleepQueue.RunKeeps | Project2/src/threads/thread.c:733-770 | in every run the queue is sorted and each thread is woken at its tick, or at the first after it lay down: never earlier, never later |
| SleepQueue.NobodyLost | Project2/src/threads/thread.c:733-770 | whoever lay down is still in the queue or was woken once |
| SleepTimer.Timer.SleepTheThread | Project2/src/threads/thread.c:733-743 | ordered insertion behind those that wake no later |
| Interrupt.HandleTick | Project2/src/threads/thread.c:746-770 | removes exactly the due front of the queue and puts each of its threads on a ready list |
| Sort.Heapify | Project2/src/lib/stdlib.c:93-123 | restores the heap from its node down, permutes the prefix, keeps the rest, with at most two comparisons a level |
| Sort.Sort | Project2/src/lib/stdlib.c:125-152 | a sorted permutation for every total preorder, with at most 3 n floor(log2 n) comparisons |
| Sort.DepthIsLog | Project2/src/lib/stdlib.c:125-130 | the depth that bounds the comparisons is the floor of the binary logarithm |
| Sort.BinarySearch | Project2/src/lib/stdlib.c:172-207 | on a sorted array a match is found if and only if there is one |
| Printf.FormatInteger | Project2/src/lib/stdio.c:462-547 | outputs the rendering for every 64-bit value, base, flags and precision, and never leaves its 64-byte buffer |
| Printf.BodyReads | Project2/src/lib/stdio.c:501-524 | the digits printed stand for the value, whatever the base, grouping and precision |
| Printf.FieldWidth | Project2/src/lib/stdio.c:526-546 | the minimum field width is met, and exceeded only by what has to be printed, if and only if padding is not asked for on both sides |
| Printf.DirectiveWidth | Project2/src/lib/stdio.c:340-416 | so it is for exactly the directives that do not combine the 0 flag with a negative width argument, no - flag and no precision |
| Printf.PadsTwice | Project2/src/lib/stdio.c:372-394 | the failing case: "%0*d" with width -8 prints 15 characters for 5 |
| Printf.Atoi | Project2/src/lib/stdlib.c:7-41 | returns the integer the string starts with; no intermediate value overflows |
| Printf.AtoiUndoesFormat | Project2/src/lib/stdio.c:462-547 | atoi of %d is the identity on every int, the least one included, for all flags but grouping, all widths and precisions |
| Printf.PrintThenParse | Project2/src/lib/stdlib.c:7-41 | the same for the two programs run one after the other |
| Ustar.StripAntisocialPrefixes | Project2/src/lib/ustar.c:56-73 | ends, and strips what the specification of a safe name says |
| Ustar.StripIdempotent | Project2/src/lib/ustar.c:56-73 | stripping again changes nothing |
| Ustar.ParseOctalField | Project2/src/lib/ustar.c:120-162 | accepts exactly some octal digits and a terminator with a value that fits an unsigned long |
| Ustar.OctalFieldRoundTrip | Project2/src/lib/ustar.c:102-115 | the octal printer and parser are inverse |
| Ustar.ChecksumIgnoresItself | Project2/src/lib/ustar.c:35-54 | the checksum does not depend on its own field |
| Ustar.CalculateChksum | Project2/src/lib/ustar.c:35-54 | sums the header with spaces in place of the checksum |
| Ustar.MakeHeader | Project2/src/lib/ustar.c:75-118 | all 512 bytes of the header, refused exactly for names that strip to more than 99 characters |
| Ustar.ParseHeader | Project2/src/lib/ustar.c:175-227 | returns what the header says or the first reason to refuse it |
| Ustar.ParseUndoesMake | Project2/src/lib/ustar.c:75-227 | parsing a header that was built gives the stripped name, the type and the size, 0 for directories; a negative size of a regular file is refused as too large |
| Tokenizer.Lossless | Project1/tokenizer.c:201-219 | raw tokens and delimiters put end to end are the input |
| Tokenizer.AllStable | Project1/tokenizer.c:201-219 | tokenizing a raw token again gives that single token and no delimiter |
| Tokenizer.StringFindPattern | Project1/tokenizer.c:59-67 | the length of the pattern if the text starts with it, else 0 |
| Tokenizer.Tokenizer.MoveToNext | Project1/tokenizer.c:201-219 | the cursor, token text and delimiter of the next token; true exactly if there is one |
| Tokenizer.Tokenizer.ScanToken | Project1/tokenizer.c:206-216 | every write stays within the buffer of length (1 + delta) + 1 |
| Tokenizer.Tokenizer.MoveJumpOverIgnoreBrackets | Project1/tokenizer.c:173-199 | skips a bracketed part to its first closing bracket or the end |
| Tokenizer.Tokenizer.LoadRawToken | Project1/tokenizer.c:257-265 | copies the raw token; true exactly if there was none |
| Tokenizer.Tokenize | Project1/tokenizer.c:201-265 | a caller's loop ends and sees exactly the tokens |
| Tokenizer.Tokenizer.Reset | Project1/tokenizer.c:267-271 | starts over from the first character |
| PageTable.AddressBits | Project2/src/threads/pte.h:31-39 | directory index, table index, page number and offset are the shifts and masks of the source |
| PageTable.EntryBits | Project2/src/threads/pte.h:70-97 | entries are the or of the page address and one flag after the other |
| PageTable.FieldBits | Project2/src/threads/pte.h:51-60 | the tests for present and writable, the address mask and the clearing of the present bit read and change the fields of the model |
| PageTable.PteRoundTrip | Project2/src/threads/pte.h:70-104 | an entry yields the frame and permission it was made from |
| PageTable.PutEntry | Project2/src/userprog/pagedir.c:98-119 | rewriting one entry changes the entry of no other page, even in the same table |
| PageDirectory.Mmu.Create | Project2/src/userprog/pagedir.c:16-25 | a copy of the kernel's directory maps no user page |
| PageDirectory.Mmu.LookupPage | Project2/src/userprog/pagedir.c:56-86 | finds or installs the page table; no binding changes |
| PageDirectory.Mmu.SetPage | Project2/src/userprog/pagedir.c:98-119 | adds one binding to the map of user pages, or none if no table can be had; frames stay unshared if the new ones are unused |
| PageDirectory.Mmu.GetPage | Project2/src/userprog/pagedir.c:125-137 | the frame the map has for the page, with the offset kept |
| PageDirectory.Mmu.ClearPage | Project2/src/userprog/pagedir.c:143-157 | removes one binding; frames stay unshared |
| PageDestroy.GivenBackIs | Project2/src/userprog/pagedir.c:27-48 | what is given back is exactly the mapped frames, the user page tables and the directory |
| PageDestroy.GivenBackOnce | Project2/src/userprog/pagedir.c:27-48 | each of them once when no frame is shared, and no page table of the kernel |
| PageDestroy.PagedirDestroy | Project2/src/userprog/pagedir.c:27-48 | the loops give back that list, and read no page they have given back |
| Elf.ValidateSegment | Project2/src/userprog/process.c:325-366 | accepts exactly the segments that are acceptable in unbounded arithmetic |
| Elf.Process.LoadSegment | Project2/src/userprog/process.c:382-425 | adds exactly the pages of the segment, none of which was mapped; the counters never underflow and the loop ends |
| Elf.SegmentIsLoaded | Project2/src/userprog/process.c:271-300 | memory is the file bytes up to p_filesz and zero up to p_memsz, with the segment's permission |
| Elf.ImageLoads | Project2/src/userprog/process.c:258-301 | a later segment leaves the earlier ones alone and shares no page with them |
| Elf.Load | Project2/src/userprog/process.c:208-317 | after success user memory is the image of all loadable segments and a stack page, each page mapped once |

## Left out

- Port input and output, inline assembly, context switches, drivers, boot code and descriptor tables: hardware. `divl` is
  modelled by its documented contract and the block device as a sequence of 512-byte sectors.
- File system operations are atomic with respect to each other, as the source, which has no locks there, needs them to be.
- Exact conservation of the free map: when `dir_add` fails, `filesys_create` gives back the header sector but not the data
  sectors, so they stay marked without an owner. Disjointness holds all the same.
- `free_map_open` reading the bitmap back at boot; the model mounts a device with the map that was written.
- `file_read_at`, `file_write_at` and `file_tell`, which are the inode calls already modelled, and `dir_reopen`.
- The link fields of lists and the bit groups of bitmaps: lists are sequences and bitmaps sequences of truth values. The
  first bytes of a free heap block, which hold its links, are therefore not part of the modelled memory.
- A call of malloc or free is one step, although parts of it touch only what the caller owns and run outside its lock, and
  other descriptors may be used meanwhile; realloc is as many steps as it makes calls and copies bytes. `calloc`'s size check.
- HeapCode.Allocator.Realloc: the program alone, without other threads, and for copies that fit; HeapRuns.ReallocAmongOthers
  and HeapMain.CopyFitsIff state the rest.
- `do_swap` byte by byte: an element of the sorted array is moved whole.
- The translation buffer, and the accessed and dirty bits of page table entries.
- User memory in `Elf` is a map from pages to contents, which is what `PageDirectory` proves a page directory to be; the
  two are not composed into one program, so frames and page table contents do not appear in the loader.
- Reading the characters of a directive in `parse_conversion`, and the conversions other than integers; a width argument
  of INT_MIN, whose negation overflows.
- Which thread runs next, `thread_yield_if_needed`, `thread_update_donations`, and `thread_set_priority`: in `Synch` any
  thread that is not parked may take the next step, and priorities may change at any time.
- SynchCode.Kernel.CondSignal: `cond_signal` searches its list with interrupts on, so that priorities may change and waiters
  park during the search. The method models a search that nobody disturbs; in `Synch` the step may take any waiter.
- Donation.DonationCanPanic: a graph, not a run: `Synch` does not keep the `locked_on` field that `Donation` is about.
- Ready threads are not moved between lists when priorities are recomputed, so nothing is claimed about the highest
  priority running under the feedback scheduler.
- `thread_get_recent_cpu` and `thread_get_load_avg`, which multiply by 100; time slices and
  statistics of `thread_tick`.
- Tick counts are unbounded.
- Failures to allocate memory in `tokenizer_init`, and `int` overflow of its buffer size for strings near 2 GB.
- Processes, redirection and built-in commands of the shell, its containers, and all networking code.
- The copies of these components in Project3.

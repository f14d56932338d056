# Nautilus AeroKernel: verified models

Dafny models of the algorithmic core of the Nautilus AeroKernel and of the build
tools that come with it, with proofs of what they promise. Seven groups are covered.

- **MCS queue lock** (`McsLock`, `McsCalls`): a protocol of any number of threads that call lock,
  trylock and unlock again and again. A step is one access to shared memory.
- **Counting barrier** (`CountingBarrier`): a protocol of `size` threads that call the
  reusable two-counter barrier again and again.
- **Symbol-name compressor** (`TokenCompression`, `TokenTable`, `TokenShortage`, `Kallsyms`): the byte-pair
  compressor of kallsyms. The specification works on sequences. The class `Compressor` is the
  program: buffers rewritten in place, counts kept up to date, the token table filled
  slot by slot, and the recursive expander.
- **Gaussian elimination** (`Gauss`, `GaussSerial`, `GaussParallel`, `GaussProgress`, `GaussExact`): the serial
  program on arrays and the OpenMP program as a protocol, over arithmetic that is left
  uninterpreted, and the serial program in exact real arithmetic.
- **Bitmaps** (`BitWords`, `WordRounding`, `Bitmap`, `BitmapRange`, `BitmapRegion`, `RegionSearch`, `RegionAllocator`): word-at-a-time
  searches and range operations against their bit-at-a-time meaning, and the aligned-region
  allocator over whole runs. Words are numbers below 2^64 with explicit wrap-around.
- **Circular lists** (`CircularList`): pointer operations on a family of disjoint rings
  against operations on sequences.
- **Symbol image** (`SymbolInput`, `SymbolSort`, `SymbolImage`): the list built from the input, the linked-list merge
  sort, the image writer, and the kernel linker that reads the image. Little-endian bytes are in `Bytes`.

`Machine` holds the widths of the target's integers, `Selection` filtering of sequences, `Division` and
`Pigeonhole` facts about numbers that several modules need.

## Assumptions

- Memory is sequentially consistent.
- MCS lock: the lock word starts as NULL, every thread has its own node, only the holder unlocks,
  and a thread makes one call at a time. Nodes start with arbitrary contents.
- Barrier: exactly `size` threads take part, 1 <= `size` < 2^64, each calling again and again.
- OpenMP: the worksharing loop deals rows round-robin and ends with an implicit barrier
  (section 2.7.1 of OpenMP 4.5). Threads of a team of any positive size run it.
- Compressor: a symbol is valid or not by an arbitrary predicate on its address and text. Symbols contain
  no NUL: their names are C strings, and the type byte in front, read as any character, is assumed not to be NUL.
  As read, a symbol has at least two bytes, its type and a name.
- Image: `Fits` says that addresses are 64-bit, names contain no NUL, and string table and count fit the
  fields the linker reads. The writer itself is specified for every list, with its 32-bit offset wrapping.

## Where the code falls short of what one would expect

- kallsyms expands all 256 slots when it prints the token table. If the pairs run out before
  slot 0 is reached, slot 0 holds the pair (0,0) and the expansion does not end.
  `TokenTable.TokenTableTerminates` gives the exact condition, which can be read off slot 0 before printing.
  On the symbols themselves, `TokenShortage.ScarcePairsDiverge` shows that fewer adjacent pairs than free
  slots always lead there, so every small symbol table does, with `TokenShortage.LoneSymbolDiverges` as an
  input; `TokenShortage.ManySymbolsTerminate` shows that 256 different symbols never do. Symbols never use
  such codes, so compression stays lossless.
- The linker compares at most 128 characters. For a shorter name it finds exactly the symbols of that name
  (`SymbolImage.ShortNamesExact`); for every other name there is a table without it in which it finds a
  foreign symbol (`SymbolImage.LongNamesConfused`); `SymbolImage.NamesToldApart` puts the two together.
- The region functions of the bitmap library take positions as `unsigned long` and pass them on as `int`.
  The search stays within ints if and only if the map has fewer than 2^31 + 2^order bits or a region that
  begins below 2^31 is free (`RegionSearch.FindSafeIff`). On every other map its position turns into -2^31 and
  it reads 2^25 words before the map (`RegionSearch.FullMapFails`, with `RegionSearch.LongFullMap` as an input).
  Allocation and release reach the region asked for exactly below 2^31 (`RegionSearch.PositionKept`), and from
  2^32 on they reach another one (`RegionSearch.PositionAliased`).
- The image writer reads the `next` field of a list head that it never initialises. The field has been stored
  to if and only if some input line has a nonzero address (`SymbolInput.ReadSymbols`), so with no symbol in
  the input the value read is arbitrary.

## Model

| member | source | states |
|---|---|---|
| `McsLock.MutualExclusion` | include/nautilus/mcslock.h:41-99 | In every run, for any number of threads and any interleaving of lock, trylock and unlock, two threads that are both between acquisition and release are the same thread. |
| `McsLock.FifoHandoff` | include/nautilus/mcslock.h:49-85 | In every run the orders of release, acquisition and grant are prefixes of the order in which threads hit the lock word; grants are never more than one ahead of releases, and if they are level nobody is queued. |
| `McsLock.BoundedWaiting` | include/nautilus/mcslock.h:49-61 | In every run a waiting thread waits through at most nine non-spinning steps per thread in the system, all by threads that arrived no later; what is left of that work is bounded too. |
| `McsCalls.TrylockReturns` | include/nautilus/mcslock.h:88-99 | In every run a thread whose latest call is trylock never waits; after four steps of its own, the call included, it holds the lock if the lock word was NULL before the fourth and is idle otherwise; it goes on to anything else only if it got the lock. |
| `McsCalls.LockAcquires` | include/nautilus/mcslock.h:41-62 | In every run a thread whose latest call is lock is idle exactly if it has since acquired and released the lock once, and holds it exactly if it has acquired and not released. |
| `McsCalls.FailedTrylockTouchesNothing` | include/nautilus/mcslock.h:96-98 | The compare-and-swap of a trylock on a taken lock changes neither the lock word nor any node, and the caller is idle. |
| `McsCalls.CallInvariant` | include/nautilus/mcslock.h:41-99 | Every run keeps each thread's place in the code in agreement with the call it began. |
| `McsCalls.CallStep` | include/nautilus/mcslock.h:41-99 | One step of a thread keeps that agreement. |
| `McsLock.Progress` | include/nautilus/mcslock.h:52-84 | In every run in which a thread is queued, some queued thread has an enabled step that is not a spin, and if the given thread is waiting that other thread is no later in the queue. |
| `McsLock.UnlockWaitsForLinker` | include/nautilus/mcslock.h:76-80 | Whenever unlock waits for its next pointer, some thread has swapped in behind it and is about to write exactly that pointer. |
| `McsLock.NodeLifetime` | include/nautilus/mcslock.h:58-84 | In every run a step stores to another thread's node, whatever the value, only while that thread is between its swap and its release, so never after its unlock returned; all other nodes keep their contents. |
| `McsLock.NeverFaults` | include/nautilus/mcslock.h:58-84 | In every run every pointer about to be followed points to a node of some thread. |
| `McsLock.RunInvariant` | include/nautilus/mcslock.h:41-99 | Every run keeps the queue invariant together with the shape of the four logs. |
| `McsLock.InvStep` | include/nautilus/mcslock.h:41-99 | Any step of any thread keeps the invariant, with arrivals appended to the queue and the head dropped on release. |
| `McsLock.ArriveStep` | include/nautilus/mcslock.h:46-58 | Swapping onto the lock word, or a successful trylock, appends the thread to the queue and keeps the invariant. |
| `McsLock.ReleaseStep` | include/nautilus/mcslock.h:68-85 | A releasing compare-and-swap or flag write is made by the head of the queue and keeps the invariant for the rest. |
| `McsLock.WaiterStep` | include/nautilus/mcslock.h:56-61 | Linking and spinning keep the invariant and the queue. |
| `McsLock.HolderStep` | include/nautilus/mcslock.h:68-80 | A holder that looks at its next pointer or at the lock word without releasing keeps the invariant and the queue. |
| `McsLock.OutsideStep` | include/nautilus/mcslock.h:46-47 | Resetting one's own node, or a failed trylock, keeps the invariant and stays out of the queue. |
| `McsLock.HolderIsHead` | include/nautilus/mcslock.h:51-61 | Whoever holds the lock is the head of the queue. |
| `McsLock.GrantTarget` | include/nautilus/mcslock.h:68-84 | A granting holder's next pointer names its successor in the queue, which already spins on an unset flag. |
| `McsLock.AwakenedIsHead` | include/nautilus/mcslock.h:60 | A thread whose spin ends is the head of the queue. |
| `McsLock.TouchesQueuedOnly` | include/nautilus/mcslock.h:58-84 | The node written by a linking or granting thread belongs to a thread still in the queue. |
| `McsLock.OthersNodesKept` | include/nautilus/mcslock.h:58-84 | The state form of NodeLifetime. |
| `McsLock.StoresOnly` | include/nautilus/mcslock.h:46-84 | A step changes no node but those it stores to. |
| `McsLock.LogStep` | include/nautilus/mcslock.h:41-99 | One step extends the logs so that they again match the queue and its head. |
| `McsLock.SomeoneMoves` | include/nautilus/mcslock.h:60-80 | If the head of the queue can only spin, its successor's link write is enabled. |
| `McsLock.WorkStep` | include/nautilus/mcslock.h:49-84 | While a thread waits no step adds to the work of the threads up to it, and each of their useful steps removes some. |
| `CountingBarrier.NobodyLeavesEarly` | include/nautilus/barrier.h:78-102 | In every run a thread has returned from no more calls than any other thread has arrived in, so completed rounds differ by at most one, for unboundedly many rounds. |
| `CountingBarrier.CounterReuse` | include/nautilus/barrier.h:82-100 | In every run the counter about to be incremented has the parity of the caller's round and is below size, and anyone spinning on it arrived in that same round. |
| `CountingBarrier.CountersBounded` | include/nautilus/barrier.h:82-87 | In every run neither counter exceeds size, so the 64-bit add never wraps, and the index read from cur is 0 or 1. |
| `CountingBarrier.NeverSticks` | include/nautilus/barrier.h:78-102 | In every run some thread has a step that is not a spin. |
| `CountingBarrier.UsefulStepsCompleteRounds` | include/nautilus/barrier.h:78-102 | In every run the non-spinning steps number at most seven per thread per round begun, so runs that keep moving keep completing rounds, and every thread has returned from all closed rounds but perhaps the last. |
| `CountingBarrier.RunInvariant` | include/nautilus/barrier.h:73-102 | Every run from an initialised barrier keeps the invariant that ties both counters, cur and every thread to the number of closed rounds. |
| `CountingBarrier.InvStep` | include/nautilus/barrier.h:78-102 | Any step of any thread keeps that invariant. |
| `CountingBarrier.AllArrived` | include/nautilus/barrier.h:87-93 | Once a thread is closing the round, all have arrived in it and all others spin on its counter. |
| `CountingBarrier.NobodyCloses` | include/nautilus/barrier.h:85-87 | While some thread has not arrived, nobody is closing the round. |
| `CountingBarrier.ArriveEffect` | include/nautilus/barrier.h:85-87 | An arrival increments the counter without wrap-around, and exactly the last one goes on to close the round. |
| `CountingBarrier.ArriveStep` | include/nautilus/barrier.h:85-87 | An arrival keeps the invariant. |
| `CountingBarrier.ReadCurStep` | include/nautilus/barrier.h:81-83 | Reading cur keeps the invariant: the value read is the parity of the open round. |
| `CountingBarrier.CloseStep` | include/nautilus/barrier.h:91 | Reading and toggling cur keeps the invariant. |
| `CountingBarrier.ZeroStep` | include/nautilus/barrier.h:93 | Zeroing the counter closes the round and keeps the invariant. |
| `CountingBarrier.SpinStep` | include/nautilus/barrier.h:98 | A spinning read keeps the invariant and ends only for a round that is closed. |
| `CountingBarrier.SomeoneMoves` | include/nautilus/barrier.h:78-102 | The state form of NeverSticks. |
| `CountingBarrier.WorkStep` | include/nautilus/barrier.h:78-102 | A useful step uses up work of the round unless it closes it. |
| `CountingBarrier.UsefulBound` | include/nautilus/barrier.h:78-102 | Steps taken and work left stay within the budget of the rounds begun. |
| `TokenCompression.SubstFirst` | scripts/kallsyms.c:376-397 | Replacement from the left rewrites the first occurrence and goes on behind it. |
| `TokenCompression.OccIsCount` | scripts/kallsyms.c:329-335 | The count of a pair in a symbol is the number of places at which it starts. |
| `TokenCompression.SubstAbsent` | scripts/kallsyms.c:376-377 | A symbol without the pair is left alone. |
| `TokenCompression.SubstRemovesPair` | scripts/kallsyms.c:384-397 | After replacement by a code outside the pair, the pair no longer occurs. |
| `TokenCompression.SubstCreatesNothing` | scripts/kallsyms.c:384-397 | Replacement never adds occurrences of a pair that does not contain the new code. |
| `TokenCompression.TotalAfterSubst` | scripts/kallsyms.c:365-404 | Over the whole table the replaced pair's count is zero afterwards and no count of a pair without the new code grows. |
| `TokenCompression.TotalUpdate` | scripts/kallsyms.c:380-402 | Rewriting one symbol changes the total of a pair by the difference of that symbol's occurrences. |
| `TokenCompression.TotalAppend` | scripts/kallsyms.c:352-358 | Adding a symbol adds its occurrences to the total. |
| `TokenCompression.TotalPositive` | scripts/kallsyms.c:414-419 | A pair has a positive total exactly when it occurs in some symbol. |
| `TokenTable.Lossless` | scripts/kallsyms.c:225-248 | For every table of NUL-free symbols, expanding each compressed symbol with the finished token table gives back its original bytes, within 256 levels of recursion. |
| `TokenTable.LosslessAll` | scripts/kallsyms.c:424-480 | The same for all symbols of the table at once. |
| `TokenTable.TokensUnique` | scripts/kallsyms.c:407-448 | In the finished table a slot that is not a character holds a pair that no longer occurs in any symbol, and two such slots are equal only if both hold the dead pair (0,0). |
| `TokenTable.CharactersKept` | scripts/kallsyms.c:434-465 | In the finished table exactly the characters that occur in a symbol stand for themselves, and every other slot has been given a pair. |
| `TokenTable.GreedyChoice` | scripts/kallsyms.c:430-447 | Every pair in the finished table was the first of the most frequent ones among the symbols as they were when its slot was reached. |
| `TokenTable.OptimizeSlots` | scripts/kallsyms.c:430-447 | The loop fills the empty slots and leaves the others alone. |
| `TokenTable.OptimizeResumes` | scripts/kallsyms.c:430-447 | Stopping the loop at any slot and going on from there gives the same result. |
| `TokenTable.TokenTableTerminates` | scripts/kallsyms.c:311-316 | Expanding all 256 slots terminates if and only if slot 0 does not hold the dead pair; true for every NUL-free input. |
| `TokenTable.DeadDiverges` | scripts/kallsyms.c:225-248 | If slot 0 holds the dead pair, expanding it or any slot with that pair exceeds every depth. |
| `TokenTable.DeadOrOk` | scripts/kallsyms.c:424-448 | After the greedy loop slot 0 is dead or every slot expands. |
| `TokenTable.SpentFillsDead` | scripts/kallsyms.c:411-447 | Once no pair occurs any more, the loop ends with the dead pair in a free slot 0. |
| `TokenTable.OkTerminates` | scripts/kallsyms.c:225-248 | A code built only from characters and larger slots expands within 256 levels. |
| `TokenTable.SubstPreservesMeaning` | scripts/kallsyms.c:384-397 | Replacing a pair by the code of a slot that holds it leaves the expansion of the symbol unchanged. |
| `TokenTable.FreshSlot` | scripts/kallsyms.c:434-442 | Filling an empty slot changes the expansion of no code that expanded before. |
| `TokenTable.BestBelow` | scripts/kallsyms.c:407-421 | The chosen pair has the largest count and is the first with that count. |
| `TokenTable.ChosenPair` | scripts/kallsyms.c:411-420 | The chosen pair has count zero only if no pair occurs at all, and then it is (0,0). |
| `TokenTable.FillStep` | scripts/kallsyms.c:434-446 | Filling a slot keeps the invariant of the greedy loop. |
| `TokenTable.FillMeaning` | scripts/kallsyms.c:434-446 | Filling a slot changes the expansion of no symbol. |
| `TokenTable.OptimizeFills` | scripts/kallsyms.c:430-447 | The whole greedy loop keeps its invariant and the number of symbols. |
| `TokenTable.OptimizeMeaning` | scripts/kallsyms.c:430-447 | The whole greedy loop changes the expansion of no symbol. |
| `TokenTable.RealTableFilled` | scripts/kallsyms.c:451-465 | The table of characters in use establishes the invariant of the greedy loop. |
| `TokenShortage.ScarcePairsDiverge` | scripts/kallsyms.c:311-316 | For every NUL-free input with fewer adjacent pairs than slots free of characters, slot 0 gets the dead pair and its expansion exceeds every depth. |
| `TokenShortage.LoneSymbolDiverges` | scripts/kallsyms.c:311-316 | That is so for the one symbol "a" of type T, stored as "Ta". |
| `TokenShortage.ManySymbolsTerminate` | scripts/kallsyms.c:311-316 | For every NUL-free input with 256 different nonempty symbols slot 0 gets a live pair and all 256 expansions terminate. |
| `TokenShortage.ScarceFillsDead` | scripts/kallsyms.c:430-447 | From any point of the greedy loop, fewer pairs than slots left to fill end in the dead pair. |
| `TokenShortage.PairsShrink` | scripts/kallsyms.c:384-397 | Replacing a pair that occurs uses up at least one pair of the table. |
| `TokenShortage.ManyFillLive` | scripts/kallsyms.c:430-447 | From any point of the greedy loop, 256 symbols that stand for different texts keep the dead pair out of slot 0. |
| `TokenShortage.CodesRunOut` | scripts/kallsyms.c:414-419 | When no pair is left, fewer than 256 symbols can stand for different texts. |
| `TokenShortage.StayDifferent` | scripts/kallsyms.c:434-446 | Filling a slot keeps symbols that stand for different texts different. |
| `Kallsyms.SubstituteInPlace` | scripts/kallsyms.c:372-399 | The memmem/memmove loop, whose searched size keeps the original end, computes exactly the left-to-right replacement, leaves a NUL behind it and touches nothing past the original end. |
| `Kallsyms.SubstituteFrom` | scripts/kallsyms.c:384-397 | The replacement loop entered at the first occurrence ends with everything up to the shrunken length replaced. |
| `Kallsyms.HalfwayStep` | scripts/kallsyms.c:385-390 | One turn of the loop keeps the relation between rewritten part, rest and goal. |
| `Kallsyms.HalfwayDone` | scripts/kallsyms.c:392-399 | When no occurrence is left the buffer holds the replacement. |
| `Kallsyms.NextOccurrence` | scripts/kallsyms.c:392-395 | The search over the trailing zero bytes finds an occurrence only inside the shrunken symbol, and the first one. |
| `Kallsyms.ReplacePair` | scripts/kallsyms.c:385-388 | Writing the code and moving the rest down one byte. |
| `Kallsyms.Memmem` | scripts/kallsyms.c:376 | The first position of the pair in the searched bytes, or none. |
| `Kallsyms.MoveDown` | scripts/kallsyms.c:388 | Overlapping move down by one byte. |
| `Kallsyms.Compressor.constructor` | scripts/kallsyms.c:123-133 | A table of NUL-terminated symbols in distinct buffers, all counts zero. |
| `Kallsyms.Compressor.LearnSymbol` | scripts/kallsyms.c:329-335 | Adds to every count the occurrences of that pair in the symbol. |
| `Kallsyms.Compressor.ForgetSymbol` | scripts/kallsyms.c:338-344 | Subtracts from every count the occurrences of that pair in the symbol. |
| `Kallsyms.Compressor.BuildInitialTokTable` | scripts/kallsyms.c:347-361 | Keeps exactly the valid symbols, in order, and makes all counts exact. |
| `Kallsyms.Compressor.CompactTable` | scripts/kallsyms.c:351-359 | The compacting loop: kept entries first, counts exact for them. |
| `Kallsyms.KeptIsFilter` | scripts/kallsyms.c:351-359 | The kept entries are the input filtered by validity. |
| `Selection.FilterIs` | scripts/kallsyms.c:352-358 | What is kept are exactly the valid entries, each once, in order. |
| `Kallsyms.CompactStep` | scripts/kallsyms.c:352-358 | One turn of the compacting loop: a valid entry moves down to the next free place, an invalid one is passed over. |
| `Kallsyms.Compressor.CompressSymbols` | scripts/kallsyms.c:365-404 | Replaces the pair in every symbol and keeps all counts exact. |
| `Kallsyms.Compressor.CompressOne` | scripts/kallsyms.c:372-402 | The same for one symbol; addresses and buffers stay. |
| `Kallsyms.Compressor.Rewrite` | scripts/kallsyms.c:379-402 | Forget, rewrite, learn: the counts change by the difference of the two texts. |
| `Kallsyms.Compressor.FindBestToken` | scripts/kallsyms.c:407-421 | The scan over all 65536 counts returns the first most frequent pair of the symbols. |
| `Kallsyms.Compressor.FillSlot` | scripts/kallsyms.c:434-446 | One turn of the greedy loop on an empty slot, counts exact before and after. |
| `Kallsyms.Compressor.OptimizeResult` | scripts/kallsyms.c:424-448 | The greedy loop in place computes the specified table and symbols. |
| `Kallsyms.Compressor.InsertRealSymbols` | scripts/kallsyms.c:451-465 | The table ends with exactly the characters in use standing for themselves. |
| `Kallsyms.Compressor.InsertCharacters` | scripts/kallsyms.c:459-463 | One symbol's characters are entered. |
| `Kallsyms.Compressor.OptimizeTokenTable` | scripts/kallsyms.c:467-480 | Fails exactly when no symbol is valid; otherwise entry j has the address of the j-th valid symbol and expands with the resulting table to its bytes, exactly the characters in use stand for themselves, and every other slot holds a pair. |
| `Kallsyms.Compressor.ExpandSymbol` | scripts/kallsyms.c:225-248 | Writes exactly the expansion at the output position, ends it with a NUL, returns its length and changes nothing behind the NUL. |
| `Kallsyms.Compressor.ExpandNext` | scripts/kallsyms.c:230-241 | The same for one code, whether copied or expanded through its slot. |
| `Kallsyms.Compressor.CompressAndExpand` | scripts/kallsyms.c:225-248 | Round trip of the program: after compression, expanding entry j writes exactly the bytes of the j-th valid symbol and a NUL, and the entry has its address. |
| `GaussExact.UniqueSolution` | omptest-ori.c:96-127 | Over the reals, if no pivot met is zero, a vector solves the original system if and only if it is the one computed, for every N. |
| `GaussExact.ReducesKeepsSolutions` | omptest-ori.c:105-113 | Subtracting multiples of the pivot equation from later ones keeps the set of solutions. |
| `GaussExact.PhaseReduces` | omptest-ori.c:105-113 | A phase is such a reduction. |
| `GaussExact.PhaseClears` | omptest-ori.c:105-113 | A phase with nonzero pivot clears its column below the diagonal and keeps earlier columns cleared. |
| `GaussExact.ElimChain` | omptest-ori.c:96-115 | The phases form a chain of reductions from the input to the triangular system. |
| `GaussExact.ChainKeepsSolutions` | omptest-ori.c:96-115 | A chain of reductions keeps the set of solutions. |
| `GaussExact.RowFixesUnknown` | omptest-ori.c:120-127 | Given the later unknowns, a row of a triangular system holds exactly for the computed value. |
| `GaussExact.BackSubSolves` | omptest-ori.c:120-127 | A vector satisfies the triangular rows from i on if and only if it is what back substitution computes there. |
| `GaussExact.RemainderIsDot` | omptest-ori.c:121-124 | The inner loop subtracts the scalar product of the row with the known unknowns. |
| `GaussParallel.ParallelEqualsSerial` | omptest-ori.c:141-166 | For any number of threads and any interleaving of shared accesses, once all threads are done A and B are what the serial elimination leaves, and so is X, whatever the arithmetic. |
| `GaussParallel.RowsDealtOnce` | omptest-ori.c:144-145 | The round-robin schedule gives every row of a phase to exactly one thread in exactly one turn. |
| `GaussParallel.RowsOfThread` | omptest-ori.c:144-145 | In every run a working thread is in a row of its round-robin share, and no two threads of a phase are in the same row. |
| `GaussParallel.RunInvariant` | omptest-ori.c:141-154 | Every reachable state is a snapshot of one phase of the serial elimination. |
| `GaussParallel.AnyStep` | omptest-ori.c:141-154 | Any step of any thread keeps the snapshot or moves it to the next phase. |
| `GaussParallel.LoadStep` | omptest-ori.c:147-151 | Loads see the values the serial phase would see. |
| `GaussParallel.StoreColStep` | omptest-ori.c:149 | A store of a matrix element keeps the snapshot. |
| `GaussParallel.StoreRhsStep` | omptest-ori.c:151 | The store that ends a row keeps the snapshot and goes to the next row of the share. |
| `GaussParallel.CatchUpStep` | omptest-ori.c:144-152 | A thread that leaves the barrier late joins the running phase. |
| `GaussParallel.PhaseComplete` | omptest-ori.c:144-152 | When the implicit barrier opens, memory is the result of the serial phase. |
| `GaussParallel.AdvanceStep` | omptest-ori.c:143-152 | The first thread past the barrier begins the next phase from that memory. |
| `GaussParallel.InitSnapshot` | omptest-ori.c:141-143 | The initial state is a snapshot of phase 0. |
| `GaussParallel.NeverStuck` | omptest-ori.c:141-154 | In every run all accesses are in bounds and, until all threads are done, some thread can take a step that changes the state. |
| `GaussProgress.RunsEnd` | omptest-ori.c:141-154 | A run has at most procs * N * (N * (3N + 10) + 2) steps that are not looks at a closed barrier, whatever the interleaving; a run in which no further such step is possible has left the serial result in A and B. |
| `GaussProgress.WorkLeft` | omptest-ori.c:141-154 | In every run the steps taken and the work left of all threads stay within that budget. |
| `GaussProgress.StepTodo` | omptest-ori.c:141-154 | A step changes only the thread that takes it, and if it changes anything it uses up work. |
| `GaussProgress.FinishParallel` | omptest-ori.c:160-166 | Back substitution on the arrays that any finished parallel run has left computes the X of the serial program. |
| `GaussParallel.SomeoneMoves` | omptest-ori.c:141-154 | The state form of NeverStuck. |
| `GaussSerial.SerialGauss` | omptest-ori.c:87-129 | The in-place program leaves the specified triangular system in A and B and its back substitution in X. |
| `GaussSerial.Eliminate` | omptest-ori.c:96-115 | The elimination loops in place run the specified phases. |
| `GaussSerial.RunPhase` | omptest-ori.c:105-113 | The row loop in place runs one phase. |
| `GaussSerial.EliminateRow` | omptest-ori.c:107-112 | One row and its right-hand side are eliminated; nothing outside the N by N corner changes. |
| `GaussSerial.EliminateCols` | omptest-ori.c:109-111 | The column loop in place; other rows stay. |
| `GaussSerial.SolveRow` | omptest-ori.c:121-125 | The inner loop of back substitution computes one unknown from the later ones. |
| `GaussSerial.BackSubstitute` | omptest-ori.c:120-127 | Back substitution in place computes the specified vector. |
| `GaussSerial.PhaseExtend` | omptest-ori.c:105-113 | Eliminating one more row takes the phase one row further although the rows above it have changed. |
| `GaussSerial.ResetInputs` | omptest-ori.c:56-67 | A and B become copies of the saved inputs and X is zero. |
| `GaussSerial.SolveExactly` | omptest-ori.c:56-129 | Reset followed by the serial program: with nonzero pivots X is the one solution of the saved system. |
| `Gauss.ElimColsAt` | omptest-ori.c:109-111 | Element by element what the column loop has done. |
| `Gauss.PhaseRow` | omptest-ori.c:105-113 | Row by row what a phase has done. |
| `Gauss.RowFrozen` | omptest-ori.c:96-113 | A row is final once its own phase has begun. |
| `BitWords.Ffs` | include/asm/bitops.h:132-138 | The position of the lowest set bit of a nonzero word. |
| `BitWords.Ffz` | include/asm/bitops.h:146-152 | The position of the lowest clear bit of a word that has one. |
| `BitWords.HighMask` | include/lib/bitmap.h:56 | All-ones shifted left by k has exactly the bits from k on. |
| `BitWords.LowMask` | lib/bitmap.c:49 | All-ones shifted right by 64 - k has exactly the bits below k. |
| `WordRounding.WholeWords` | lib/bitmap.c:21 | Masking off the low six bits leaves the bits of whole words. |
| `Bitmap.FindNextBit` | lib/bitmap.c:17-54 | The first set position from offset on below size, or size, whatever the unused tail bits hold. |
| `Bitmap.FindNextZeroBit` | lib/bitmap.c:62-99 | The same for clear bits. |
| `Bitmap.FoundInWord` | lib/bitmap.c:30-53 | A filtered word is zero exactly when it holds no position searched for, and otherwise its lowest bit is the first. |
| `Bitmap.FilterSet` | lib/bitmap.c:29-49 | The masks leave exactly the searched set bits of a word. |
| `Bitmap.FilterZero` | lib/bitmap.c:74-94 | The masks leave exactly the searched clear bits of a word. |
| `Bitmap.ScanSet` | lib/bitmap.c:38-53 | The word loop and the last word. |
| `Bitmap.ScanZero` | lib/bitmap.c:83-98 | The word loop and the last word for clear bits. |
| `Bitmap.ForEachSetBitFrom` | include/lib/bitops.h:72-81 | The loop visits exactly the set positions, once each, in increasing order. |
| `Bitmap.ForEachClearBitFrom` | include/lib/bitops.h:83-92 | The same for clear positions. |
| `BitmapRange.BitmapSet` | lib/bitmap.c:331-349 | Sets exactly the bits of [start, start + nr) and changes no other, for ranges that end below 2^31. |
| `BitmapRange.BitmapClear` | lib/bitmap.c:352-370 | Clears exactly those bits and changes no other, for ranges that end below 2^31. |
| `BitmapRange.SetMasked` | lib/bitmap.c:339 | Or-ing a mask sets the mask's range of the map and nothing else. |
| `BitmapRange.ClearMasked` | lib/bitmap.c:360 | And-ing the complement clears the mask's range and nothing else. |
| `BitmapRange.FirstMaskIs` | include/lib/bitmap.h:56 | The first-word mask is the range from start to the end of its word. |
| `BitmapRange.LastWordMaskBit` | include/lib/bitmap.h:57-61 | Bit by bit the last-word mask. |
| `BitmapRange.CutMask` | lib/bitmap.c:346 | Cutting a mask with the last-word mask ends its range at size. |
| `BitmapRegion.FindNextZeroArea` | lib/bitmap.c:385-407 | Returns the least aligned index from start on with nr clear bits inside size; a value above size exactly when there is none; for nr = 0 the first clear position rounded up. The goto loop terminates. |
| `BitmapRegion.AlignMaskIs` | include/lib/bitops.h:28-29 | Masked rounding gives the least multiple at or above the argument. |
| `WordRounding.AndRoundsDown` | include/lib/bitops.h:28 | And-ing with the complement of a low mask is rounding down to a multiple. |
| `BitmapRegion.SkipToZero` | lib/bitmap.c:393-396 | No aligned free area begins before the first clear position rounded up. |
| `BitmapRegion.SkipPastSet` | lib/bitmap.c:401-404 | No free area begins at or before a set bit found inside the candidate. |
| `RegionAllocator.RunFromEmpty` | lib/bitmap.c:411-549 | From an empty map, after any allowed sequence of calls, a bit is set exactly if a live region covers it, and live regions are aligned and pairwise disjoint. Every find was answered with the lowest region vacant at that moment, or with -1 exactly when none was; every allocation with 0 exactly if the region was vacant, else -1; and the live regions changed exactly by what was found, allocated or released. |
| `RegionSearch.FindSafeIff` | lib/bitmap.c:501-512 | Every position the search tests survives the conversion to int if and only if the map has fewer than 2^31 + 2^order bits or an aligned region that begins below 2^31 is free; for every map and every order up to 30. |
| `RegionSearch.SafeFromIff` | lib/bitmap.c:505-507 | The same from any candidate up to 2^31 below which nothing is free. |
| `RegionSearch.FullMapFails` | lib/bitmap.c:435-452 | On every longer map that is full below 2^31 the search is not safe: the position becomes -2^31 and the word index -2^25. |
| `RegionSearch.LongFullMap` | lib/bitmap.c:501-512 | A map of 2^31 + 1 set bits is such a map. |
| `RegionSearch.WordIndexIs` | lib/bitmap.c:451 | The word index computed from an int position is the position divided by 64, and negative for every negative position. |
| `RegionSearch.PositionKept` | lib/bitmap.c:526-549 | A position survives the conversion to int exactly below 2^31. |
| `RegionSearch.PositionAliased` | lib/bitmap.c:526-549 | A position of 2^32 more than an int is converted to that int. |
| `RegionAllocator.Allocator.Run` | lib/bitmap.c:411-549 | Any allowed sequence of calls on the map gives the answers and the live regions of the specification, described call by call by History, and keeps the set bits equal to their union. |
| `RegionAllocator.Allocator.Answer` | lib/bitmap.c:501-549 | One call gives the described answer and changes the live regions as described, bits included. |
| `RegionAllocator.FindIsLowest` | lib/bitmap.c:501-512 | The search of the specification answers r if and only if r is the lowest vacant aligned region, or -1 and none is vacant. |
| `RegionAllocator.ServeIsAnswer` | lib/bitmap.c:501-549 | The specification of a call is the only answer and the only change that its description allows. |
| `RegionAllocator.History` | lib/bitmap.c:411-549 | Along every sequence of calls each is answered, as described, from the regions live before it. |
| `RegionAllocator.AnswerAt` | lib/bitmap.c:411-549 | Call i of a sequence is answered from the regions that the calls before it have left live. |
| `RegionAllocator.ReleaseUndoesFind` | lib/bitmap.c:501-529 | Releasing what a find has just allocated gives back the live regions. |
| `RegionAllocator.Allocator.FindAndRelease` | lib/bitmap.c:501-529 | Finding a region and releasing it again leaves every bit of the map as it was. |
| `RegionAllocator.RegOp` | lib/bitmap.c:435-485 | Reports whether an aligned region at an int position is free, or sets or clears exactly its bits, for regions inside one word and of many words. |
| `RegionAllocator.RegionIsFree` | lib/bitmap.c:465-471 | The test loop answers whether all bits of the region are clear. |
| `RegionAllocator.FillRegion` | lib/bitmap.c:473-481 | The set and clear loops change exactly the region. |
| `RegionAllocator.PartMask` | lib/bitmap.c:450-462 | The one mask covers the region's part of every word it spans. |
| `RegionAllocator.TestMasked` | lib/bitmap.c:467 | A masked word is zero exactly when the masked range is clear. |
| `RegionAllocator.BitmapFindFreeRegion` | lib/bitmap.c:501-512 | On every map on which the search stays within ints, however long, allocates the lowest free aligned region, or fails without change exactly when there is none. |
| `RegionAllocator.BitmapReleaseRegion` | lib/bitmap.c:526-529 | Clears exactly the region at the position converted to int. |
| `RegionAllocator.BitmapAllocateRegion` | lib/bitmap.c:543-549 | Allocates the region at the position converted to int if it is free, and otherwise fails without change. |
| `RegionSearch.NextCandidate` | lib/bitmap.c:505-507 | Skipping a region that is not free passes over no free one. |
| `RegionAllocator.VacantIsFree` | lib/bitmap.c:465-471 | The bits of a region are clear exactly when it meets no live region. |
| `RegionAllocator.VacancyIsFit` | lib/bitmap.c:501-512 | The exact condition for the search, told by the live regions instead of the bits. |
| `RegionAllocator.AllocTracks` | lib/bitmap.c:473-476 | Setting a vacant region keeps set bits equal to the union of live regions. |
| `RegionAllocator.ReleaseTracks` | lib/bitmap.c:478-481 | Clearing a live region does too. |
| `RegionAllocator.Allocator.constructor` | include/lib/bitmap.h:66-74 | A zeroed map with no live regions. |
| `RegionAllocator.Allocator.FindFreeRegion` | lib/bitmap.c:501-512 | Keeps the set bits equal to the union of live regions; takes the lowest vacant aligned region, or answers -1 exactly when there is none. |
| `RegionAllocator.Allocator.AllocateRegion` | lib/bitmap.c:543-549 | Keeps the same; answers 0 and takes the region if it is vacant, else answers -1 and takes nothing. |
| `RegionAllocator.Allocator.ReleaseRegion` | lib/bitmap.c:526-529 | Keeps the same; the region is no longer live. |
| `CircularList.Run` | include/nautilus/list.h:73-246 | Any sequence of add, delete, move and splice operations keeps every ring linked in both directions and disjoint from the others, each equal to what the same operations give on sequences. |
| `CircularList.Execute` | include/nautilus/list.h:73-246 | One operation keeps the family equal to the same operation on sequences; on the links, it puts the entry or the spliced entries where the source does, joins the neighbours of a removed entry, and leaves poison or self links where the source does. |
| `CircularList.AddBetween` | include/nautilus/list.h:85-93 | Inserts a node between two neighbours of a ring. |
| `CircularList.DelBetween` | include/nautilus/list.h:128-132 | Takes a node out of a ring without touching the node. |
| `CircularList.Unlink` | include/nautilus/list.h:128-132 | The neighbours of the entry are joined, heads that pointed at it point past it, and its own links stay. |
| `CircularList.InitListHead` | include/nautilus/list.h:73-77 | A node becomes the head of an empty list, other lists stay. |
| `CircularList.ListAdd` | include/nautilus/list.h:103-106 | The list gets the node in front, linked between the head and the old first, other lists stay. |
| `CircularList.ListAddTail` | include/nautilus/list.h:116-119 | The list gets the node at the end, linked between the old last and the head, other lists stay. |
| `CircularList.ListDel` | include/nautilus/list.h:140-145 | The list loses the entry, the entry is poisoned, other lists stay. |
| `CircularList.ListDelInit` | include/nautilus/list.h:151-155 | The list loses the entry, which becomes an empty list. |
| `CircularList.ListMove` | include/nautilus/list.h:162-166 | The entry leaves its list and comes to the front of another or of the same. |
| `CircularList.ListMoveTail` | include/nautilus/list.h:173-178 | The entry leaves its list and comes to the end of another or of the same. |
| `CircularList.ListEmpty` | include/nautilus/list.h:184-187 | Tells whether the list is empty. |
| `CircularList.SpliceRings` | include/nautilus/list.h:207-219 | Links the entries of one ring in behind the head of another. |
| `CircularList.ListSplice` | include/nautilus/list.h:226-230 | The entries come to the front of the other list; the old head keeps its stale links and heads no list, unless it was empty. |
| `CircularList.ListSpliceInit` | include/nautilus/list.h:239-246 | The same, and the old head heads an empty list. |
| `CircularList.SpliceAndInit` | include/nautilus/list.h:239-246 | The nonempty case of list_splice_init, on the links too. |
| `CircularList.DelUndoesAdd` | include/nautilus/list.h:103-145 | Deleting a node just added, in front or at the end, restores all lists as sequences. |
| `CircularList.AddAndDelete` | include/nautilus/list.h:103-145 | The same on the nodes: every link of every list is as before. |
| `CircularList.SpreadNew` | include/nautilus/list.h:73-77 | A new head keeps the rings disjoint. |
| `CircularList.SpreadSplice` | include/nautilus/list.h:207-246 | Splicing keeps the rings disjoint. |
| `SymbolSort.MergeSortCorrect` | scripts/format_syms.c:94-113 | The sort gives an address-sorted permutation of the same nodes in which nodes of equal address keep their order. |
| `SymbolSort.StableSortUnique` | scripts/format_syms.c:94-113 | There is only one such sequence. |
| `SymbolSort.MergeSorted` | scripts/format_syms.c:72-92 | Merging sorted lists gives a sorted list. |
| `SymbolSort.MergeMultiset` | scripts/format_syms.c:72-92 | Merging keeps exactly the nodes of both lists. |
| `SymbolSort.SelectMerge` | scripts/format_syms.c:83-90 | Merging puts nodes of equal address from the first list first. |
| `SymbolSort.FindMiddle` | scripts/format_syms.c:53-63 | The slow walker stops at the last node of the first half. |
| `SymbolSort.Cut` | scripts/format_syms.c:67-69 | Cutting behind a node leaves the two lists before and after it. |
| `SymbolSort.FrontBackSplit` | scripts/format_syms.c:48-70 | The list is cut into its first half, the longer one if they differ, and the rest. |
| `SymbolSort.SortedMerge` | scripts/format_syms.c:72-92 | Relinks the nodes of two disjoint lists into their merge. |
| `SymbolSort.MergeSortSymlist` | scripts/format_syms.c:94-113 | Relinks the nodes into the specified sorted order and terminates. |
| `SymbolImage.ResolveInImage` | src/nautilus/linker.c:67-90 | In the image written for any symbol list that fits, the linker finds the lowest address of a symbol that agrees with the name in the first 128 characters, or nothing exactly when none does; for a name shorter than 128 characters that is the lowest address of a symbol with exactly that name. |
| `SymbolImage.ImageFaithful` | src/nautilus/linker.c:233-240 | In that image entry i has the address of symbol i and matches a name exactly when symbol i agrees with it in the first 128 characters. |
| `SymbolImage.NamesToldApart` | src/nautilus/linker.c:71 | In the images of all tables that fit, the entries that match a name are those of symbols with that name, if and only if the name is shorter than 128 characters. |
| `SymbolImage.ShortNamesExact` | src/nautilus/linker.c:71 | For a shorter name, entry i of the image matches exactly if symbol i has that name. |
| `SymbolImage.LongNamesConfused` | src/nautilus/linker.c:67-84 | For every longer name there is a table that fits and has no such symbol, in whose image the first entry matches and has any given address. |
| `SymbolImage.ResolveSymbol` | src/nautilus/linker.c:63-97 | Without a value, the address of the first matching entry, or nothing when none matches; with a value, that value moved by the load address, modulo 2^64. |
| `SymbolImage.StrnEqualIs` | src/nautilus/linker.c:71 | Bounded comparison of NUL-terminated names is equality of their first n characters. |
| `SymbolImage.ImageHeader` | src/nautilus/linker.c:233-240 | The second header word is the position just past the names, the third the number of symbols, and names and entries are where they say. |
| `SymbolImage.ImageMagic` | scripts/format_syms.c:157-158 | The image begins with the bytes 00 27 95 00. |
| `SymbolImage.HeaderBytes` | scripts/format_syms.c:157-208 | Bytes 4 to 7 of the file are the position just past the names, bytes 8 to 11 the number of symbols, lowest byte first, and the length is that of header, names and descriptors. |
| `SymbolImage.ImageEntry` | scripts/format_syms.c:210-216 | Entry i carries the address of symbol i and the offset of its name. |
| `SymbolImage.EntryBytes` | scripts/format_syms.c:210-216 | The first eight bytes of descriptor i are the address of symbol i, the other eight the offset of its name, lowest byte first. |
| `SymbolImage.ImageName` | scripts/format_syms.c:195-200 | At that offset stands exactly that NUL-terminated name. |
| `SymbolImage.ImageReadable` | src/nautilus/linker.c:233-240 | Nothing the linker reads lies outside the image, and offsets fit its int. |
| `SymbolImage.WriteImage` | scripts/format_syms.c:157-216 | Sorting and writing from a list and its count gives the specified image of the sorted symbols, with offsets and count modulo 2^32, beginning with the bytes 00 27 95 00. |
| `SymbolInput.FormatSymbols` | scripts/format_syms.c:149-216 | For every input with a symbol, the file is the image of the lines with nonzero address, sorted by address, those at the same address in input order, and begins with the bytes 00 27 95 00. |
| `SymbolInput.SortedLines` | scripts/format_syms.c:191-192 | Sorting the nodes sorts their symbols stably by address. |
| `SymbolInput.ReadSymbols` | scripts/format_syms.c:149-186 | The list holds exactly the lines with nonzero address, in order, and noe is their number modulo 2^32; the head's next field has been stored to if and only if there is such a line. |
| `SymbolInput.ReadLine` | scripts/format_syms.c:163-185 | One turn of the reading loop: a line with address 0 is skipped, any other appended and counted. |
| `SymbolInput.AppendSymbol` | scripts/format_syms.c:171-180 | A new node comes to the end of the list, or behind the head if it is the first. |
| `SymbolInput.KeptNothing` | scripts/format_syms.c:163-166 | No line is kept exactly when every address is 0. |
| `SymbolInput.KeptIs` | scripts/format_syms.c:163-185 | The kept lines are exactly those with a nonzero address, each once, in order. |
| `SymbolImage.WriteSorted` | scripts/format_syms.c:194-216 | The same from a list that is already sorted. |
| `SymbolImage.WriteNames` | scripts/format_syms.c:194-200 | Writes the names in order and leaves each node with the 32-bit offset of its name. |
| `SymbolImage.WriteEntries` | scripts/format_syms.c:210-216 | Appends one 16-byte descriptor per node. |
| `SymbolImage.WriteHeader` | scripts/format_syms.c:202-208 | Overwrites the two placeholders and nothing else. |
| `SymbolImage.FirstIsLowest` | scripts/format_syms.c:189-216 | The first sorted node with a name has the lowest address of all input nodes with it. |
| `SymbolImage.EntriesAreNodes` | scripts/format_syms.c:194-216 | The entries of the image are the sorted nodes, in order. |
| `Bytes.LeRoundTrip` | scripts/format_syms.c:157-160 | A number that fits its field is read back from its little-endian bytes. |
| `Bytes.LeAt` | scripts/format_syms.c:157-160 | Byte i of a number as written is its i-th digit to base 256, lowest first. |

## Left out

- Weak memory: fences and compiler barriers are not modelled, because memory is taken to be sequentially consistent.
- Floating-point rounding, the MXCSR register, timing, random inputs and the shell command around the elimination.
- GaussParallel.ParallelEqualsSerial: the parallel region is a protocol over values, so it does not model aliasing of A and B.
- McsLock.BoundedWaiting: counts steps that are not spins; fairness of the scheduler is not assumed, so no bound in time is stated.
- Kallsyms.Compressor.FindBestToken: counts are unbounded integers; a 32-bit overflow of `token_profit` is not modelled.
- Kallsyms.Compressor.ExpandSymbol: requires room for the result; the 128-byte buffer its caller passes is not modelled.
- kallsyms input parsing, the string rules of `symbol_valid` and the printed assembler text: input and output only.
- BitmapRegion.FindNextZeroArea: assumes that `size + align_mask + nr` does not wrap, as its callers must.
- RegionAllocator.RegOp: aligned regions inside the map and orders up to 30 only, the regions its documentation speaks of; beyond that `1 << order` overflows an int.
- RegionAllocator.Allocator.AllocateRegion: positions below 2^31, where the region reached is the region asked for.
- RegionAllocator.Allocator.ReleaseRegion: only regions handed out before are released.
- BitmapRange.BitmapSet: `start` and `nr` are ints whose sum must not overflow; negative arguments are not modelled.
- BitmapRange.BitmapClear: as BitmapSet.
- The big-endian bitmap functions and the standalone `find_first_bit` bodies, which this target does not build, and the bitmap operations that treat every word alike (fill, and, or, complement, emptiness), which have no state or boundary case beyond the last-word mask modelled here.
- CircularList.ListSplice: splicing a list into itself, which leaves the head outside its ring, is not modelled.
- CircularList.ListSpliceInit: as ListSplice.
- Traversal macros, `list_empty_careful` and the hlist operations of list.h: they read the rings or repeat the operations on a singly headed chain.
- The tool's splitting of text lines, including the hexadecimal conversion, and file errors.
- The thread barriers and core barriers declared next to the counting barrier: not part of this model.
- The rest of the kernel: scheduler, memory management, devices, ACPI, PCI, Lua and the boot code.

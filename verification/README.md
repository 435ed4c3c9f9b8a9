# Verified models of the Orbis compatibility layer

The compatibility layer contains five pieces of real algorithm or protocol. This project models each of
them in Dafny and proves what it is for. `dafny verify dfyconfig.toml` checks everything.

* **The wide-character library** (`src/orbis_wchar32.c`). The two-way substring search is proved complete
  and sound down to the critical factorization theorem: `Factorization` has the theorem, `SuffixLoop` what
  each branch of a factorization loop keeps, `TwoWay` the code, with `size_t` that wraps and every index
  in range. `Utf8` has RFC 3629 as a definition and the decoder's packed state word beside it; `Mbrtowc`
  relates the two for every input and every way of cutting it up; `WideToBytes`, `BytesToWide`,
  `Mbsrtowcs`, `Mbsnrtowcs`, `WideRoundTrip` and `Utf16` build the string converters on that.
* **The C++ static-guard protocol** (`src/orbis_cxa_guard.c`). `GuardTable` is the locked code in place,
  `GuardProtocol` a state machine for any number of threads and guards, `GuardSafety` its invariant and what
  callers rely on, `GuardCalls` that every call of acquire is answered once.
* **The futex over pthreads** (`include/sys/umtx.h`). `Umtx` is a state machine in which taking the lock,
  comparing, parking, waking and storing to the word are separate steps; `UmtxCall` is the code of one call,
  with steps of other threads between its own and the pthread primitives as steps of the machine.
* **The direct-memory mapper** (`src/orbis_mmap.cpp`). `Blocks` and `BlockCounts` treat one block list,
  `CarveOut` the same operations in place, `MapperSpec`, `MapperProofs` and `MapperRuns` the whole table
  over whole runs, `Mapper` the table's methods.
* **The JIT arena** (`src/orbis_jit.c`). `JitSpans` treats the free list, `JitPlacement` the address search
  and rel32 reach, `JitSpec`, `JitProofs`, `JitFree`, `JitRuns` and `JitCounts` the allocator over whole runs, `Jit`
  its methods, `JitProtect` the promotion table, `JitVerdict` the verdict that both record in.

Where the source updates fields, arrays or the output buffer step by step, the model is a method or a class
that does the same, proved against a specification function; the theorems are about that function and about
runs of it. A C string is the sequence of its elements up to and including the zero; an index inside
the sequence is a read the source may do, so index safety is part of every method's proof.

## Assumptions

* The kernel, `mprotect`, the proof stub, clocks and environment settings are parameters: any answer
  is considered, including every failure. A kernel is *honest* when it grants only ranges that nobody holds.
* What the source does under one lock is a single step. A condition variable releases the mutex and
  parks in one step, and may wake for no reason. Memory ordering is sequential.
* Guard identities (`%fs:0`) differ between threads unless they are zero. That this is needed is a lemma.
* The mapper is asked for lengths above 0 and at most 2^64 minus a page.
* The JIT is asked for sizes whose rounding does not wrap; a reported mapping end rounds up without wrapping;
  the module is loaded more than 1.5 GiB above address 0; the ranges passed to `orbis_jit_reachable` and
  `orbis_jit_protect` end inside the address space; `orbis_jit_free` gets NULL, an address outside every
  arena, an address in a dedicated arena, or a live block; writes stay behind the header of a live block.
* `mbsnrtowcs` starts from an initial, non-null state.
* What the UTF-8 converters read is terminated or long enough; what they write fits the buffer they are told
  of, except that the buffer of `mbsrtowcs` is assumed to go on as far as it stores.

## Where the code does not keep its promise

* `mbsrtowcs` promises to store at most as many characters as there is room for. A pending character is
  finished without a look at the room: with none, the count wraps and everything up to the terminator is
  stored. `Mbsrtowcs.StoresStayInsideIff` gives the exact condition, `Mbsrtowcs.NoRoomIsOverrun` an input.
* `include/orbis_jit.h:112-117` promises that `orbis_jit_protect` is idempotent per range, so that code
  generated in promoted pages is not scribbled on. The stub is six bytes at the caller's address, but the
  pages are rounded from the caller's range: a request shorter than the stub, close to the end of a granule,
  writes past its own pages. `JitProtect.HarmlessIffItFits` and `JitProtect.EarlierStubsAreSafeIff` give the
  exact conditions over all runs, `JitProtect.Spill` and `JitProtect.EmptyRequestIsStubbedAgain` the runs
  that fail.
* `mbsnrtowcs` says that its last loop runs "fewer than sizeof(wbuf)/8 times", which is 128. It can go round
  131 times (`Mbsnrtowcs.AsciiRounds`); `Mbsnrtowcs.RoundsBelow128Iff` says when it does not reach 128. The
  scratch has 256 entries, so nothing is overrun.

`wcsrtombs` does not look at the next character once its buffer is full, `wcsnrtombs` does: an unencodable
value right there is an error for one and not for the other. `WideToBytes.Unseen` is the difference.

## Model

| member | source | states |
|---|---|---|
| TwoWay.Wcsstr | src/orbis_wchar32.c:960-972 | Returns the first position where the needle occurs, NULL exactly when it occurs nowhere; for every haystack and needle, empty ones included. |
| TwoWay.TwoWayWcsstr | src/orbis_wchar32.c:873-958 | The same for the two-way core. Its shifts skip no occurrence, what mem remembers really matches, every read is inside a string, and it terminates. |
| TwoWay.Prepare | src/orbis_wchar32.c:882-926 | The cut is critical; the shift is at most every period of the needle; the length to remember is 0, or the needle less its period with the cut shorter than the period. With wrapping size_t, where the cut minus one may be minus one. |
| TwoWay.MaximalSuffixLoop | src/orbis_wchar32.c:882-918 | Either factorization loop ends, by the measure on ip and then jp+k, with the lexicographically greatest suffix under its order and the smallest period of that suffix. |
| SuffixLoop.EqualLetters | src/orbis_wchar32.c:885-889 | Comparing equal letters keeps: every start seen so far loses to the current best, and the run has the current period and no smaller one. |
| SuffixLoop.SmallerLetter | src/orbis_wchar32.c:890-893 | A smaller challenger letter keeps the same, with everything seen as the new period. |
| SuffixLoop.GreaterLetter | src/orbis_wchar32.c:894-897 | A greater challenger letter keeps the same with the challenger as the new best start: all starts of the old run lose to it. |
| SuffixLoop.Finish | src/orbis_wchar32.c:884-900 | When the challenger runs off the end, the best start is the maximal suffix and the period the smallest of it. |
| Factorization.LaterCutIsCritical | src/orbis_wchar32.c:919-920 | Critical factorization: the later of the two maximal-suffix cuts is critical, and the part in front of it is shorter than every period of the needle. |
| Factorization.PeriodicNeedle | src/orbis_wchar32.c:922-926 | When the front recurs one period later, that period is the smallest of the whole needle and longer than the front. |
| Factorization.AperiodicNeedle | src/orbis_wchar32.c:922-925 | When it does not, every period of the needle exceeds both parts, so shifting by the longer part plus one is safe. |
| TwoWay.NoOccurrenceBeforeMismatch | src/orbis_wchar32.c:945-950 | After a mismatch right of the cut no occurrence starts within the shift by k-ms. |
| TwoWay.NoOccurrenceBeforeShift | src/orbis_wchar32.c:952-956 | After the right part matched no occurrence starts within the shift by p. |
| TwoWay.PrefixStillMatches | src/orbis_wchar32.c:955-956 | After the shift by p the first mem0 letters do match at the new place. |
| TwoWay.WmemchrZero | src/orbis_wchar32.c:707-711 | The zero within the given stretch, or a proof that the string reaches further; never a read past the zero. |
| TwoWay.CompareLeft | src/orbis_wchar32.c:952-954 | The backwards comparison stops at or below mem exactly when the needle occurs here. |
| TwoWay.Wcschr | src/orbis_wchar32.c:834-839 | The first occurrence of a non-zero character, or NULL exactly when there is none. |
| Utf8.StepFollowsDefinition | src/orbis_wchar32.c:199-239 | The table, the OOB range check and the shift, as a step on the packed 32-bit state, complete exactly the sequences of RFC 3629 section 4 with their value, wait after exactly their proper beginnings and fail on everything else. |
| Utf8.PartialStatesAreHigh | src/orbis_wchar32.c:676-677 | Every partial character leaves the top state bit set. |
| Utf8.EncodeThenDecode | src/orbis_wchar32.c:501-526 | Exactly the scalar values have an encoding; it is one well-formed character, whose value is the encoded one. |
| Utf8.DecodeThenEncode | src/orbis_wchar32.c:501-526 | Every well-formed character has a scalar value, whose encoding is the same bytes. |
| Mbrtowc.MbrtowcCall | src/orbis_wchar32.c:261-305 | mbrtowc with its early exits and its loop does, from any state left by an earlier call, what stepping byte by byte does. |
| Mbrtowc.CallFollowsDefinition | src/orbis_wchar32.c:261-305 | From the state after a partial character: a character is returned exactly when the pending and some of the new bytes make one; -2 exactly when all bytes continue one properly; -1 in every other case; and the state left is the right one. |
| Mbrtowc.CallSplits | src/orbis_wchar32.c:261-305 | A call that runs dry on one part followed by a call on the next does what one call on both does, wherever the cut. |
| Mbrtowc.ChunksDoNotMatter | src/orbis_wchar32.c:261-305 | However the input is cut into buffers, repeated calls deliver the same characters, the same failure and the same state as on the whole. |
| Mbrtowc.DrainOfEncoding | src/orbis_wchar32.c:261-305 | Well-formed text, even with its last character cut short, is read as exactly its characters. |
| Mbrtowc.DrainAcceptsOnlyText | src/orbis_wchar32.c:261-305 | Whatever is read without failure is such text, for those characters and that state. |
| Mbrtowc.Mbtowc | src/orbis_wchar32.c:316-353 | The stateless form returns what mbrtowc returns from the initial state, with -1 for an incomplete character; the one test on the lead state is exact, so no byte past n is read. |
| WideToBytes.Wcrtomb | src/orbis_wchar32.c:501-526 | Stores the encoding and nothing else and returns its length; for what is no scalar value stores nothing and returns -1. |
| WideToBytes.Wcsrtombs | src/orbis_wchar32.c:551-586 | The buffer receives exactly the bytes of the converted prefix and, if it fits, the terminator; the bytes around them are unchanged; the source pointer is left at the first unwritten character, or NULL after the terminator; -1 exactly at a value with no encoding that the buffer still has room to look at. |
| WideToBytes.WcsrtombsTail | src/orbis_wchar32.c:568-585 | The same for the second loop, which encodes aside and stores only what fits. |
| WideToBytes.ConvertMeaning | src/orbis_wchar32.c:534-587 | The converted prefix is text, its bytes with any terminator are at most n, and each stop is real: a terminator, a value with no encoding, a character that does not fit, or the end of the share. |
| WideToBytes.ConvertIsLongest | src/orbis_wchar32.c:534-587 | No longer prefix of whole characters fits, and a terminator right behind is converted if it fits. |
| WideToBytes.WcsrtombsLength | src/orbis_wchar32.c:540-550 | With no buffer: the bytes of the whole string, or -1. |
| WideToBytes.LengthIsExact | src/orbis_wchar32.c:540-550 | With more room than that length the whole string is converted, with any less the buffer is full. |
| WideToBytes.Wcsnrtombs | src/orbis_wchar32.c:589-620 | As wcsrtombs, from at most wn characters, and looking at each value before the room left. |
| WideToBytes.WcsnrtombsLength | src/orbis_wchar32.c:589-620 | With no buffer: the bytes of the share up to any terminator, or -1. |
| BytesToWide.DecodeThenEncodeAll | src/orbis_wchar32.c:365-440 | The bytes a conversion uses are exactly the encoding of the non-zero characters it delivers, at most k of them, and its stop is real. |
| BytesToWide.DecodeOfEncoding | src/orbis_wchar32.c:365-440 | The encoding of non-zero scalar values in front of anything is delivered character by character as far as there is room. |
| BytesToWide.PlainLoopDecodes | src/orbis_wchar32.c:478-494 | A plain loop of mbrtowc calls delivers what decoding by the definition of a character delivers. |
| BytesToWide.DecodeGoesOn | src/orbis_wchar32.c:456-477 | Converting m characters and then going on is converting k; a conversion that stops for another reason is not changed by more room. |
| Mbsrtowcs.StoreLoop | src/orbis_wchar32.c:396-440 | The buffer receives exactly the decoded characters and any terminator; the pointer is left behind the last used byte, at the offending character, or NULL. Reads stay inside 4*wn bytes or before the zero. |
| Mbsrtowcs.FinishChar | src/orbis_wchar32.c:407-418 | From resume on: the pending and the next bytes make a character with its value, or cannot make one; the bytes read are there; on failure the pointer goes back to the lead byte. |
| Mbsrtowcs.Mbsrtowcs | src/orbis_wchar32.c:365-440 | From any pending or initial state: what is stored is what decoding the pending and the new bytes together delivers, and nothing else changes; result and pointer are described in every case, one before the new bytes when the pending character fails; the state is left initial. The room wraps as in the source. |
| Mbsrtowcs.StoresStayInsideIff | src/orbis_wchar32.c:376-430 | Every store stays inside the room exactly when no character is pending, or there is room for one, or the pending one fails. |
| Mbsrtowcs.NoRoomIsOverrun | src/orbis_wchar32.c:376-380 | With a pending lead byte, its second byte and the terminator, and no room at all, two characters are stored. |
| Mbsrtowcs.SkipChar | src/orbis_wchar32.c:384-394 | The counting mode reads the number of further bytes from two bits of the unshifted state, and accepts the same bytes as the storing mode. |
| Mbsrtowcs.MbsrtowcsCount | src/orbis_wchar32.c:371-395 | With no buffer: the number of characters before the terminator, or -1; the wrapping arithmetic on wn does not matter. |
| Mbsrtowcs.CountIsExact | src/orbis_wchar32.c:378-395 | With room for more than that count the whole string is converted; with any less the room is filled with its beginning. |
| Mbsnrtowcs.Mbsnrtowcs | src/orbis_wchar32.c:442-494 | On any n bytes, terminated or not: result, pointer and buffer are those of a plain mbrtowc loop; no byte past n is read; storing never exceeds wn and counting never leaves the 256-entry scratch. |
| Mbsnrtowcs.OneByOne | src/orbis_wchar32.c:478-494 | The last loop runs to the same end, and goes round once for every character left to it; counting, it starts with at most 131 bytes. |
| Mbsnrtowcs.RoundsAreFew | src/orbis_wchar32.c:478-494 | For every input the last loop goes round at most 131 times. |
| Mbsnrtowcs.RoundsBelow128Iff | src/orbis_wchar32.c:489 | The rounds stay below 128 exactly when the batches do not leave room for 128 characters together with bytes that begin with 128 characters. |
| Mbsnrtowcs.AsciiRounds | src/orbis_wchar32.c:478-494 | Counting, up to 131 ASCII bytes give as many rounds: 131 bytes give 131. |
| Mbsnrtowcs.BatchDone | src/orbis_wchar32.c:456-477 | After each batch the call goes on right behind it, or is finished the way the batch was. |
| WideRoundTrip.ThereAndBack | src/orbis_wchar32.c:534-587 | A terminated string of non-zero scalar values written by wcsrtombs and read by mbsrtowcs is itself. |
| WideRoundTrip.BackAndThere | src/orbis_wchar32.c:365-440 | Terminated well-formed bytes read by mbsrtowcs and written by wcsrtombs are themselves. |
| WideRoundTrip.ShortBufferHoldsWholeCharacters | src/orbis_wchar32.c:568-586 | What a short buffer received reads back as the converted prefix with no byte left over. |
| Utf16.Mbrtoc16 | src/orbis_wchar32.c:665-691 | mbrtoc16: a pending low surrogate first, else one mbrtowc, whose character is delivered or split. |
| Utf16.ReturnIsMbrtowcs | src/orbis_wchar32.c:676-690 | Unless a surrogate waits the value returned is that of mbrtowc, so 0 exactly for a zero byte; a waiting one is delivered from the state word. |
| Utf16.StatesAreDistinct | src/orbis_wchar32.c:676-683 | A partial UTF-8 state is never taken for a pending surrogate, and a pending surrogate always is. |
| Utf16.ReadDeliversTheUnits | src/orbis_wchar32.c:665-691 | Reading by mbrtoc16, from any partial state, delivers exactly the code units of RFC 2781 of the characters that mbrtowc delivers, with the same failure and final state. |
| Utf16.C16rtomb | src/orbis_wchar32.c:628-658 | Stores the bytes the unit completes, none for a high surrogate, and leaves the state word as stated; -1 leaves the buffer alone. |
| Utf16.WriteOfUnits | src/orbis_wchar32.c:628-658 | Well-formed UTF-16, even with a pair cut short at the end, is written as the encoding of its characters. |
| Utf16.WriteAcceptsOnlyUtf16 | src/orbis_wchar32.c:628-658 | Whatever is written without failure is such UTF-16. |
| Utf16.BytesThereAndBack | src/orbis_wchar32.c:628-691 | Bytes that mbrtoc16 reads as whole characters are what c16rtomb writes for the units. |
| Utf16.UnitsThereAndBack | src/orbis_wchar32.c:628-691 | Units that c16rtomb writes as whole pairs are what mbrtoc16 reads from the bytes. |
| GuardTable.Table.OwnerSet | src/orbis_cxa_guard.c:178-190 | The first free slot, if there is one, takes guard and owner; no other slot changes. |
| GuardTable.Table.OwnerClear | src/orbis_cxa_guard.c:192-204 | The first slot of the guard, if there is one, becomes free; no other slot changes. |
| GuardTable.Table.IsSelf | src/orbis_cxa_guard.c:209-218 | True exactly when the guard is recorded and its owner is this non-zero identity. |
| GuardTable.Table.Acquire | src/orbis_cxa_guard.c:253-289 | One pass of the loop: the outcome and the whole new state of bytes and table. |
| GuardTable.Table.Release | src/orbis_cxa_guard.c:302-312 | Done is set, flags and slot are cleared, and a broadcast is owed exactly when somebody waited. |
| GuardTable.Table.Abort | src/orbis_cxa_guard.c:321-328 | As release, without done: the guard is untouched again. |
| GuardSafety.StepKeepsInvariant | src/orbis_cxa_guard.c:248-329 | Every step of every thread keeps: the guard bytes tell its phase, exactly the phase's thread runs the initializer, the slots name runners, parked threads are covered. |
| GuardSafety.ReachableInvariant | src/orbis_cxa_guard.c:248-329 | So every reachable state satisfies it, for any number of threads and guards. |
| GuardSafety.OneInitializerAtATime | src/orbis_cxa_guard.c:263-268 | At most one thread runs a guard's initializer. |
| GuardSafety.EveryHistoryIsLegal | src/orbis_cxa_guard.c:248-329 | In every run each guard goes through claim, abort and release in the legal order. |
| GuardSafety.ReleaseIsFinal | src/orbis_cxa_guard.c:257-261 | After a release acquire returns only 0: no second claim, release or abort. |
| GuardSafety.TurnFollowsHistory | src/orbis_cxa_guard.c:253-277 | An acquire returns 0 exactly after a release, 1 exactly when the guard is idle, so also after an abort, and aborts exactly for the recorded runner itself. |
| GuardSafety.NoLostWakeup | src/orbis_cxa_guard.c:288-329 | Whoever is parked is covered by an owed broadcast, or by a running initializer with the waiting flag set. |
| GuardCalls.StaysInside | src/orbis_cxa_guard.c:253-295 | Whatever step anybody takes, a thread inside acquire stays inside for the same guard, unless it takes its own turn and gets 0, 1 or the recursion abort for that guard. |
| GuardCalls.WakingGoesBack | src/orbis_cxa_guard.c:289-294 | After a broadcast, or a waking for no reason, a thread that was parked on a guard is back before the tests for that guard. |
| GuardCalls.EveryCallIsAnsweredOnce | src/orbis_cxa_guard.c:248-296 | Over any run each thread's calls of acquire for a guard number its answers, plus one while it is inside. |
| GuardCalls.WaitingParks | src/orbis_cxa_guard.c:271-294 | A turn while another initializes leaves the flag set and parks, unless the condition variable refuses. |
| GuardCalls.FinishOwesIffAwaited | src/orbis_cxa_guard.c:302-328 | A release or an abort owes a broadcast exactly when the waiting flag is set, and clears it. |
| GuardSafety.RecursionMeansReentry | src/orbis_cxa_guard.c:271-277 | The recursion abort fires only on true re-entry by the same thread. |
| GuardSafety.SharedIdentityFiresFalsely | src/orbis_cxa_guard.c:271-277 | With an identity shared by two threads there is a reachable state where it fires falsely; so distinct identities are needed. |
| GuardSafety.ClaimRecordedIffSlotFree | src/orbis_cxa_guard.c:178-190 | A claim is recorded exactly when one of the 64 slots was free. |
| GuardSafety.FullTableMeansManyInFlight | src/orbis_cxa_guard.c:170-176 | A full table means at least 64 guards in flight: slots are neither doubled nor leaked. |
| GuardSafety.ModestRunsRecordEverything | src/orbis_cxa_guard.c:170-218 | While at most 64 guards are in flight, every re-entry by a thread with an identity is detected and no such thread waits for itself. |
| Umtx.StepKeepsInvariant | include/sys/umtx.h:356-436 | Every step, also stores without the lock between compare and park, keeps: locks belong to those who hold them, and stale sleepers are owed a wake. |
| Umtx.NoSleeperStranded | include/sys/umtx.h:376-436 | Whoever sleeps, or is about to, on a value its word no longer has is owed a wake on that very word. |
| Umtx.AllWakesIssuedMeansNobodyStale | include/sys/umtx.h:376-436 | Once every store has been followed by its wake, every sleeper's word has the value it sleeps on. |
| Umtx.BucketsAreExclusive | include/sys/umtx.h:379-435 | Two threads never hold one bucket, and whoever holds one has a step to take. |
| UmtxCall.Shared.UmtxOp | include/sys/umtx.h:372-446 | The call, for the literal operation codes, with arbitrary steps of other threads between its own: it is a run of the state machine. A wait returns EWOULDBLOCK exactly when the value it saw while it had the lock was not the expected one, times out exactly when its deadline is what woke it, and returns 0 exactly when it slept and was woken otherwise. A wake has left nobody asleep on the word. The bucket lock is free on every return. |
| Umtx.Deadline | include/sys/umtx.h:323-354 | The deadline on the condition variable's clock is exactly as far ahead as the timeout is on the caller's clock, and not behind now when the timeout has passed. |
| Umtx.NeighboursNeverShareABucket | include/sys/umtx.h:358-361 | The 64 words of an aligned 256-byte block go to 64 different buckets. |
| Umtx.StridesNeverShareABucket | include/sys/umtx.h:358-361 | 64 words at a distance of 1 KiB from one to the next go to 64 different buckets. |
| CarveOut.Carve.AllocIn | src/orbis_mmap.cpp:145-168 | In place, with memmove: the first fit is served and split, and the list is the one the specification says; nothing served leaves it alone. |
| CarveOut.Carve.FreeIn | src/orbis_mmap.cpp:246-284 | In place: free by binary search with two-sided coalescing leaves the specified list, and refuses exactly as specified. |
| CarveOut.Carve.Search | src/orbis_mmap.cpp:249-255 | The binary search ends at the first block at or past the offset. |
| Blocks.LiveNeverOverlap | src/orbis_mmap.cpp:145-168 | Two live mappings of a tiled carve-out never overlap. |
| Blocks.AllocIsFirstFit | src/orbis_mmap.cpp:145-168 | The lowest block that is free and just right, or longer with a slot left of 1536, is the one served; none is served exactly when there is none. |
| Blocks.TakeKeepsValid | src/orbis_mmap.cpp:145-168 | Allocation keeps the tiling, in pages, and leaves no two neighbouring free blocks. |
| Blocks.TakeAddsOneMapping | src/orbis_mmap.cpp:145-168 | It adds exactly the served mapping to the live ones. |
| Blocks.FreeFindsExactlyTheLive | src/orbis_mmap.cpp:249-266 | Free succeeds on exactly the live mappings, by base and length. |
| Blocks.GiveKeepsValid | src/orbis_mmap.cpp:268-283 | Free keeps the tiling and leaves no two neighbouring free blocks. |
| Blocks.GiveRemovesOneMapping | src/orbis_mmap.cpp:268-283 | It ends exactly the freed mapping. |
| Blocks.FreeUndoesAlloc | src/orbis_mmap.cpp:145-284 | Freeing what was just allocated restores the list block for block. |
| BlockCounts.TwiceLivePlusOne | src/orbis_mmap.cpp:42-46 | A coalesced list has at most twice its live blocks plus one entries. |
| BlockCounts.RefusedOnlyForSize | src/orbis_mmap.cpp:42-46 | With mappings of at least 240 KiB a full-size carve-out has at most 546 of them in at most 1093 blocks, so it refuses only when no free block is long enough. |
| MapperProofs.LiveMappingsDisjoint | src/orbis_mmap.cpp:145-341 | Live mappings never overlap, in one carve-out or across. |
| MapperProofs.TakeConserves | src/orbis_mmap.cpp:190-224 | A failure at any kernel call gives back what was taken; success holds exactly one range and one mapping more. |
| MapperProofs.AddCarveKeepsValid | src/orbis_mmap.cpp:170-244 | A refused carve-out changes nothing; a granted one is one free block at the end of the table, long enough, within the cap. |
| MapperProofs.AddCarveInNumbers | src/orbis_mmap.cpp:170-244 | In the same numbers: a carve-out is refused exactly for those reasons, and a new one is exactly as long as said. |
| MapperProofs.MapServes | src/orbis_mmap.cpp:298-321 | Under the lock a request is served page-aligned, long enough and apart from everything live, or falls back and changes no mapping; no byte changes. |
| MapperProofs.MapInNumbers | src/orbis_mmap.cpp:298-321 | In numbers: falls back exactly when no block of any carve-out can serve, and there are twelve carve-outs, or one more of max(request, 128 MiB) rounded up to 2 MiB would exceed 12 * 128 MiB, or the kernel does not grant, map or align it. The first carve-out that can serve does, from its lowest block; else the new one, of exactly that length, from its start. |
| MapperProofs.UnmapIsExact | src/orbis_mmap.cpp:481-496 | Unmapping succeeds on exactly the live mappings, ends exactly that one and touches no byte. |
| MapperRuns.RunFromStartIsValid | src/orbis_mmap.cpp:145-496 | After any run from the start, with kernel failures anywhere: carve-outs are tiled and apart, the ranges and mappings held are exactly the table's, and they are within the 1536 MiB cap. |
| MapperRuns.ZeroWhenReturned | src/orbis_mmap.cpp:322-339 | A mapping is zero over its rounded length when it is returned, whatever earlier owners wrote and whatever others map, unmap, clear and write between the serving under the lock and the clearing outside it; the clearing changes no byte of another mapping. |
| MapperRuns.HeldMappingKeepsBytes | src/orbis_mmap.cpp:298-341 | A mapping keeps its bytes as long as it is held and not written to, whatever is mapped, unmapped and written elsewhere. |
| MapperRuns.SlotsNeverRunOut | src/orbis_mmap.cpp:42-168 | Over any run of requests of at least 240 KiB a 128 MiB carve-out never lacks one of its 1536 slots. |
| MapperRuns.DescribeIsTruthful | src/orbis_mmap.cpp:382-416 | An address in a carve-out is described with the block that contains it, as used exactly when it lies in a live mapping; any other is not described. |
| Mapper.Mapper.AddCarveLocked | src/orbis_mmap.cpp:170-244 | The method moves the table as specified, with each failure's clean-up. |
| Mapper.Mapper.MapOwned | src/orbis_mmap.cpp:298-341 | The method serves under the lock, lets others do anything, clears, and hands out what it should; or falls back. |
| Mapper.Mapper.TakeLocked | src/orbis_mmap.cpp:302-321 | The locked part moves the table as specified, and soundly. |
| Mapper.Mapper.Munmap | src/orbis_mmap.cpp:481-496 | The method unmaps as specified, and exactly. |
| Mapper.Mapper.MmapDirectDescribe | src/orbis_mmap.cpp:382-416 | The two nested scans find the specified answer. |
| JitSpans.TakeAtTakesItsBytes | src/orbis_jit.c:455-481 | Exactly the taken bytes leave the free list. |
| JitSpans.TakeAtKeepsSpaced | src/orbis_jit.c:455-481 | Taking keeps the spans sorted, disjoint and never touching. |
| JitSpans.TakeIsFirstFit | src/orbis_jit.c:455-481 | The lowest span that is long enough is taken from, at its start; none exactly when there is none. |
| JitSpans.GiveKeepsSpaced | src/orbis_jit.c:487-520 | Giving back anything apart from the spans keeps them so: both sides are merged. |
| JitSpans.GiveAddsItsBytes | src/orbis_jit.c:487-520 | Exactly the given bytes join the list, unless it is full. |
| JitSpans.GiveUndoesTake | src/orbis_jit.c:455-520 | Giving back what was just taken restores the list exactly when it was a whole span or a slot is free. |
| JitSpans.FullListIsOneSpan | src/orbis_jit.c:487-520 | A list that holds every byte of an arena is one span. |
| Jit.SpanTable.TakeSpan | src/orbis_jit.c:455-481 | In place, with memmove: the first fit, as specified. |
| Jit.SpanTable.GiveSpan | src/orbis_jit.c:487-520 | In place: insertion and both merges, as specified. |
| JitPlacement.FindFree | src/orbis_jit.c:282-306 | Whatever is reported, what is returned is aligned and unmapped throughout. Unless a report overstates an end it is the lowest such place, and NULL means there is none, as for a walk over every granule. In a window where nothing is mapped it is the start. |
| JitPlacement.SkipIsSafe | src/orbis_jit.c:293-299 | What a reported end skips holds no candidate; a report that is too small, or behind, only costs speed. |
| JitPlacement.ReachableIsSafe | src/orbis_jit.c:246-257 | A yes means the displacement between any two points of the ranges fits 32 bits, both ways. |
| JitPlacement.UnreachableIsFar | src/orbis_jit.c:246-257 | A no for disjoint ranges means some displacement does not fit. |
| JitPlacement.NearModuleIffInReach | src/orbis_jit.c:238-244 | For an arena on one side of the module the re-check is yes exactly when every point within 256 MiB of the anchor reaches every point of the arena by a signed 32-bit displacement, and back. |
| JitPlacement.WindowPassesTheTest | src/orbis_jit.c:410-421 | What the window search places always passes the later re-check, and every byte of it is in reach of every byte of the module. |
| JitProofs.MapArenaConserves | src/orbis_jit.c:312-369 | A map attempt that fails at any step leaves the kernel as it was; one that succeeds holds one range and one mapping more, where it was asked for. |
| JitProofs.FreeRunIsApart | src/orbis_jit.c:261-267 | A run of unmapped granules overlaps nothing this file has mapped, so a fixed mapping there replaces nothing. |
| JitProofs.ServeIsSound | src/orbis_jit.c:532-557 | A served block is new, inside its arena and apart from every live or leaked one. |
| JitRuns.AllocKeepsValid | src/orbis_jit.c:524-561 | alloc gives a new block apart from all others with its true length in the header, in reach of the module if asked; or nothing, and no block moves. |
| JitRuns.AllocIsFirstFit | src/orbis_jit.c:530-557 | The first arena that can serve does, from its lowest span that is long enough, 64 bytes behind its start. |
| JitRuns.AllocWritesOneHeader | src/orbis_jit.c:546-557 | Of what any arena holds, alloc writes the header of its own block and nothing else, a new arena's stub included. |
| JitSpec.ArenaSizeInNumbers | src/orbis_jit.c:371-392 | A new arena is as long as the request, or 16 MiB, or what is set from 1 to 512 MiB, whichever is more, rounded up to 16 KiB. |
| JitRuns.AllocRefusesIff | src/orbis_jit.c:546-551 | alloc refuses exactly when no arena serves and none can be taken, with the step that fails named: no slot, no place in reach, no memory, not mapped, landed elsewhere, not promoted, stub failed. |
| JitRuns.AllocAtKeepsValid | src/orbis_jit.c:563-592 | alloc_at gives a mapping exactly at the address, which was unmapped throughout; or nothing, and holds nothing new. |
| JitRuns.AllocAtWritesNothing | src/orbis_jit.c:578-588 | alloc_at writes nothing into any other arena. |
| JitRuns.AllocAtRefusesIff | src/orbis_jit.c:568-588 | alloc_at refuses exactly for an address that is no place for an arena, a full table, an address in use, or a failing step. |
| JitFree.FreeKeepsValid | src/orbis_jit.c:594-653 | A free of a live block ends exactly that block, into the list or, when the table is full, as a leak; any other permitted free ends none. |
| JitFree.FreeOfNothing | src/orbis_jit.c:598-608 | Freeing NULL, or an address in no arena, changes nothing. |
| JitFree.FreeTouchesOneArena | src/orbis_jit.c:631-648 | A block goes back into the spans of its own arena; everything else of every arena stays. |
| JitFree.FreeOfDedicated | src/orbis_jit.c:610-630 | Freeing a dedicated arena's base gives back exactly its mapping and its physical range; an interior pointer does nothing. |
| JitFree.ReleaseAllIsComplete | src/orbis_jit.c:655-668 | Releasing everything leaves nothing held. |
| JitFree.EmptyArenaIsOneSpan | src/orbis_jit.c:487-520 | An arena with no live or leaked block is one span. |
| JitRuns.RunKeepsValid | src/orbis_jit.c:312-668 | Over any run, with failures at any step and writes behind any header: spans sorted, never touching and apart from blocks, headers true, kernel holdings exactly the table's. |
| JitRuns.RunFromStart | src/orbis_jit.c:312-668 | From the start: what is held is exactly the table's, and an arena all of whose blocks came back without a leak is one span. |
| JitRuns.BytesAddUp | src/orbis_jit.c:453-653 | Free plus live plus leaked bytes equal the arena. |
| JitCounts.SpansAreFew | src/orbis_jit.c:74-78 | An arena has at most one free span more than live and leaked blocks. |
| JitCounts.FewOutNeverLeaks | src/orbis_jit.c:74-78 | A run that never frees with more than 254 blocks out leaks nothing. |
| Jit.Allocator.SearchNear | src/orbis_jit.c:410-430 | Unmapped throughout and in one of two ranges given in numbers: from 256 MiB past the anchor and ending 512 MiB short of 2 GiB past it, or the mirrored range. Unless a report overstates it is the lowest place above, or if there is none the lowest below, and nothing exactly when there is none. Where nothing is mapped above it is the first granule there. |
| Jit.Allocator.AllocBlock | src/orbis_jit.c:524-561 | The method does as specified with its own search, is sound, and refuses exactly when nothing serves and a named step fails; a new arena has the specified size, and a near one is at the place the search came to, the nearest unless a report overstates, over unmapped granules only. |
| Jit.Allocator.AllocArenaAt | src/orbis_jit.c:563-592 | The method never maps over a mapped granule, gives exactly the address, and refuses exactly when the address is unfit or in use, the table full, or a step fails. |
| Jit.Allocator.FreeBlock | src/orbis_jit.c:594-653 | The method frees as specified and soundly. |
| Jit.Allocator.ReleaseEverything | src/orbis_jit.c:655-668 | The loop gives back every arena. |
| JitProtect.YesMeansPromoted | src/orbis_jit.c:688-770 | A result of 1 means every page of the rounded range was promoted. |
| JitProtect.ProtectKeepsValid | src/orbis_jit.c:688-770 | Any call keeps: entries that say yes stand for promoted pages, and the verdict tells whether all answers were yes. |
| JitProtect.Spill | src/orbis_jit.c:697-753 | For each request that does not fit and is not empty at a granule, the run from the start that promotes the next granule first: the second stub overwrites the first. |
| JitProtect.EmptyRequestIsStubbedAgain | src/orbis_jit.c:697-753 | A request about no byte at a granule is stubbed, and so is the next one at that granule, at the same place. |
| JitProtect.NoGranuleStubbedTwice | src/orbis_jit.c:688-770 | While the table has room, in any sequence of overlapping calls whose six bytes fit their pages no granule is stubbed twice. |
| JitProtect.EveryCallIsRemembered | src/orbis_jit.c:733-763 | After any such run every call's pages lie in one entry, which holds the answer it was given. |
| JitProtect.TableIsUnion | src/orbis_jit.c:733-763 | After any run that the table has room for it covers the pages of the calls and no others. |
| JitProtect.RepeatsDoNothing | src/orbis_jit.c:709-715 | A later call about pages inside an earlier call's writes no stub, promotes nothing and changes nothing in the table. |
| JitProtect.CallByHistory | src/orbis_jit.c:707-763 | By the calls before it alone: a stub is written, at the caller's address, exactly when the promotion is granted and no page was the subject of an earlier call, and the answer then is whether it ran; what is not granted promotes nothing. |
| JitProtect.HarmlessIffItFits | src/orbis_jit.c:688-770 | A call does no harm in any run from the start with room in the table, before or after it, exactly when its six bytes fit its pages. |
| JitProtect.EarlierStubsAreSafeIff | src/orbis_jit.c:697-753 | After runs from the start, a call spares all earlier stubs (the table having had room), and all recorded ranges, exactly when its six bytes fit its pages or it is about no byte at a granule. |
| JitProtect.Promotions.ProtectPages | src/orbis_jit.c:688-770 | In place: both scans, the widened entry and the appended one, as specified. |
| JitVerdict.VerdictMoves | src/orbis_jit.c:312-369 | A call on the arenas moves the verdict by exactly what it records: nothing before the kernel has placed a mapping, then whether that may run code. |
| JitVerdict.VerdictIsTheConjunction | src/orbis_jit.c:220-225 | Over runs of arena calls and promotions in any order the one verdict is -1, or whether everything recorded so far was yes; both parts keep their invariants. |

## Left out

- Wide-character classification, `wcwidth`, `vswprintf`, `wcsto*`, `wcsftime` and the plain string functions: tables, or calls into narrow routines that are not part of this model.
- Of the converters: NULL for the input of `mbrtowc`, `mbrtoc16`, `wcrtomb` and `c16rtomb`, and the internal static state used for a NULL state pointer.
- Mbsnrtowcs.Mbsnrtowcs: only from the initial, non-null state; a null state pointer at a partial tail is dereferenced by the source.
- The two factorization loops, which differ in one comparison, are one method with the order as a parameter; the second loop of `wcsrtombs` and the last one of `mbsnrtowcs` are methods of their own; NULL output buffers are separate methods where the source branches on them at the start.
- Mapper.Mapper: holds the block list of each carve-out as a value; the in-place table with its shifts is `CarveOut.Carve`, proved against the same functions.
- Requests the mapper does not claim (`isOwnedRequest`), `madvise`, the flexible pool behind the fallback, statistics other than held and live bytes, and a description read while another thread changes the table.
- The JIT's arena table holds span lists as values; `Jit.SpanTable` is the in-place one. The module verdict is kept both there and in `JitProtect`; `JitVerdict` proves them one.
- Running the proof stub: a yes-or-no parameter. Other code that maps memory between the search and the fixed mapping.
- Umtx.NoSleeperStranded: safety only; that a runnable thread eventually takes its step is the scheduler's part.
- GuardSafety.NoLostWakeup: safety only, for the same reason.
- The futex's waiter register, counters and clock probe: reports only.
- All logging, reports and boot probes, the crash handlers, `orbis_thread.cpp`, `orbis_env.cpp`, `orbis_paths.cpp`, `orbis_sigev.cpp`, `orbis_clock.cpp`, `orbis_backtrace.c`, the C runtime files and the header shims: I/O, fixed layouts or thin wrappers.

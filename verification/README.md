# MemScope, modelled and proved in Dafny

MemScope turns a stream of allocator calls, seen by probes in the kernel, into answers of the form "this
address is field F of type T". This project models the path such an answer takes and proves what it means:

1. **Probes, ring and collector** (`Probes`, `Replay`, `Protocol`). Threads take probe steps in any
   interleaving; each step updates shared maps and may append to a queue; a separate consumer replays the queue
   into its own list of records. The invariants are proved for every finite run.
2. **The collector's hash table** (`HashMixer`, `Collector`). A flat record array with bucket heads and links,
   refined against the record list of `Replay`.
3. **The CSV file** between the two programs (`Format`, `CsvBridge`): a printer and a scanner driven by one
   format, and their round trip.
4. **Resolution** (`SortedSearch`, `AllocLookup`, `Dwarf`, `LoadBase`, `Globals`, `TypeInference`,
   `AddressResolver`): searching allocations, symbols and fields, recovering the load base, telling globals from
   other addresses, inferring types, taking an address apart.
5. **The whole path** (`EndToEnd`): for which addresses in active allocations the resolver answers with that
   allocation, and with which type.

Code that changes state in place is modelled by classes and methods with loops (`Collector.AllocTable`,
`Probes.ProbeMaps`, `Dwarf.DwarfAnalyzer`, `AddressResolver.AddressResolver`, and free methods for the C++ loops);
each is proved against functions on values, and the theorems are about those functions.

## Assumptions

- A probe body is one atomic step (its scratch stack and scratch event are single shared slots), kernel map
  updates succeed, no ring record is dropped.
- In `Protocol` the collector always finds memory; `Collector.AllocTable` covers failing allocations, one by one and
  over whole queues (`Poll`). Vote counts fit a C `int`.
- Subtractions of addresses cast to `int64_t` wrap as two's complement does; C++ leaves overflow there undefined.
- Numbers too large for a `scanf` conversion saturate as `strtoul` and `strtol` do; C leaves that undefined.
- `std::sort`, the stack helpers, the source-text analyser, the kernel's stack map and the ELF and DWARF readers are
  parameters: any result that meets the library's promise is covered.
- The methods of the resolver object assume that their page loops end (`AddressResolver.AddressResolver.Valid`). They do unless the
  binary's range ends on the last page but one of the address space; there a loop runs for ever unless it finds a match
  (`LoadBase.SearchRunsForeverIff`). For a range that ends later only page 0 is looked at (`LoadBase.IsReached`).

## Where the code does something other than one would expect

- **A table that still calls freed memory live.** After an in-place `realloc` and one `free`, `active_allocs` no longer has the
  address but the collector still holds a live record (`Protocol.InPlaceReallocLeavesALiveRecord`). The two agree
  throughout a run exactly when no `free` meets two live records at its address (`Protocol.SyncIff`).
- **A freed record hides a live block.** A dead record inside a later, larger block stops the scan of `find_alloc`
  (`AllocLookup.FreedRecordHidesOwner`); `AllocLookup.FindsOwnerIff` gives the exact condition for success.
- **A heap address may be taken for a global's.** `resolve` asks `resolve_global` first, and there every object whose first page
  holds the address's page offset votes for a load base that puts the address into it. `Globals.GlobalHitIff` says exactly which addresses are
  claimed that way; as a rule one vote is enough (`Globals.ClaimedIffVoted`), whatever is allocated there (`Globals.HeapAddressIsClaimed`,
  `EndToEnd.HeapAddressTakenForGlobal`). `EndToEnd.ActiveIsResolved` gives the exact condition for an answer about the allocation.
- **A stale record may answer for a live block.** After an in-place `realloc` two live records share an address, and which of
  them answers is up to the order `std::sort` leaves them in (`EndToEnd.SortDecidesAfterInPlaceRealloc`,
  `AllocLookup.StaleRecordAnswers`). This cannot happen when no return that emits an event yields an active address and active
  allocations do not overlap (`EndToEnd.DisciplinedIsResolved`). Even then a dead record may be sorted behind the live one
  and hide it; `EndToEnd.EverySortFindsIff` says on the run when no order can.
- **Only the first page can be mapped back.** `va_to_file_offset` inverts relocation exactly for the addresses less than 4096
  bytes past the start of every subprogram and symbol (`AddressResolver.AddressResolver.FileAddressRecoveredIff`). A global is recovered
  at its true offset exactly when its run-time address is not itself a symbol's, the true base wins the vote, and the file
  address leads to the symbol (`Globals.GlobalRecoveryIff`). A symbol votes for the true base exactly when the address is on
  the symbol's first page (`LoadBase.VoteForTrueBase`); an address on a later page of its symbol is never recovered
  (`Globals.LaterPageNeverRecovered`) and may be taken for one a page lower (`Globals.SecondPageIsMisread`).
- **High addresses look low.** The signed difference in `va_to_file_offset` wraps, so addresses in the top 2^48 bytes count as
  explanations too. The target-binary test, which looks at the start of a range only, accepts every changed address exactly
  when a range has none of these away from its start (`LoadBase.ChangedIsInTargetIff`).
- **An array's name need not lead back to its type.** The array fallback counts with one type and reports a name; the count is
  right exactly when the name finds a type of that size (`TypeInference.InferredCountFitsIff`,
  `AddressResolver.HeapDecompositionIff`). Two types of one name break it (`TypeInference.DuplicateNameMiscounts`). A typedef of the same name
  hides a structure's fields altogether (`Dwarf.TypedefHidesFields`).
- **A record after 2^31 others hides its bucket.** Its index turns negative in the cast to `int`, which the chain walk reads as the end
  of the chain (`Collector.IndexSurvivesCastIff`, `Collector.AllocTable.Append`).
- **A type whose name contains "ambiguous" is passed over** by the function pass although it is a unique candidate
  (`TypeInference.AmbiguousNameIsPassedOver`, `TypeInference.FallbackIff`).
- **The second timestamp wins.** `load_csv` reads both timestamps into one field, so the time of the allocation is lost
  (`CsvBridge.CsvRoundTrip`).
- The collector's header declares 64 stack slots, the kernel's 32; the copy stays inside because every emitted depth is at most 32
  (`Protocol.EmittedDepthsFit`).
- `src/bpf/memscope.bpf.c` emits an event on `realloc` entry, which the collector ignores; `docs/architecture.md` lists no realloc
  probe at all. The model follows the code.

## Model

| member | source | states |
|---|---|---|
| HashMixer.AllocHash | src/collector/collector.c:12-21 | the hash is always a valid bucket number |
| HashMixer.MixBijective | src/collector/collector.c:14-19 | the 64-bit mixer before the mask is a bijection, with an explicit inverse on both sides |
| HashMixer.XorShiftInvolution | src/collector/collector.c:15-19 | the exclusive-or with the word shifted by 33 undoes itself |
| HashMixer.ScaleInverse | src/collector/collector.c:16-18 | multiplying by a constant mod 2^64 is undone by its inverse |
| HashMixer.CollisionsComeFromMask | src/collector/collector.c:12-21 | two addresses are equal exactly when hash and the part the mask discards are equal |
| Replay.RecordOf | src/collector/collector.c:139-153 | a return event becomes a live record with the event's address, size, time, ids and PCs, the rest of the slots zero |
| Replay.NewestLive | src/collector/collector.c:100-112 | the newest-first linear scan: the last live record at the address, or none |
| Replay.Kill | src/collector/collector.c:210-217 | a free clears the newest live record, stamps it with the free's time, and changes no other record |
| Replay.ReplaySplit | src/collector/collector.c:435-440 | replaying a queue in two portions equals replaying it at once |
| Replay.UnfilteredReplay | src/collector/collector.c:121-122 | with target 0 every event takes effect |
| Replay.FilteredReplay | src/collector/collector.c:121-122 | with another target the list is the effect of exactly the events with that pid |
| Replay.RecordsOfProcess | src/collector/collector.c:121-122 | and every record in it has that pid |
| Replay.KillPops | src/collector/collector.c:210-217 | a free takes the newest live record of its address and touches no other address |
| Replay.ApplyIsStackStep | src/collector/collector.c:114-230 | one event pushes to, pops from or leaves alone the stack of live records at each address |
| Replay.LiveRecordsAreAStack | src/collector/collector.c:114-230 | for every history and any process filter the live records at an address are the stack the history leaves |
| Collector.Bucket | src/collector/collector.c:80-80 | masking the hash a second time changes nothing: it is a bucket number already |
| Collector.IndexSurvivesCastIff | src/collector/collector.c:82-82 | an index survives the cast to `int` exactly up to `INT_MAX`, and turns negative for the next 2^31 |
| Collector.HeadIsLast | src/collector/collector.c:78-83 | a bucket head is the newest record of its bucket |
| Collector.LinkIsLast | src/collector/collector.c:78-83 | a link is the newest older record of the same bucket |
| Collector.BucketIndicesExact | src/collector/collector.c:78-83 | the reference list of a bucket is complete and strictly decreasing |
| Collector.ChainExact | src/collector/collector.c:78-112 | following the links lists exactly the records of the bucket, strictly decreasing |
| Collector.AllocTable.constructor | src/collector/collector.c:23-48 | an empty valid table; capacity 0 means 4096 |
| Collector.AllocTable.Init | src/collector/collector.c:23-48 | such a table exactly when all three allocations succeed |
| Collector.AllocTable.Grow | src/collector/collector.c:58-76 | doubling keeps records, heads and links, new links are -1; a failed reallocation, first or second, changes nothing |
| Collector.AllocTable.AddAllocRecord | src/collector/collector.c:85-98 | appends the record, doubling a full table, or reports failure and leaves the list as it was; the index stays valid up to `INT_MAX` |
| Collector.AllocTable.Append | src/collector/collector.c:78-97 | storing and linking a record appends to the list and keeps the index right up to `INT_MAX`; past that the bucket looks empty |
| Collector.AllocTable.FindLiveAlloc | src/collector/collector.c:100-112 | the chain walk terminates and returns what the newest-first linear scan returns |
| Collector.AllocTable.MarkFreed | src/collector/collector.c:213-216 | clearing a live flag keeps the index valid and changes that record only |
| Collector.AllocTable.FreeRecord | src/collector/collector.c:210-217 | a free clears the newest live record at its address, found through the chain |
| Collector.AllocTable.RecordReturn | src/collector/collector.c:128-208 | the common part of the three return events: one more record, dropped only when the table is full and memory is refused |
| Collector.AllocTable.HandleEvent | src/collector/collector.c:114-230 | an event of another process than the target changes nothing; any other changes list and capacity as the event, the capacity and the memory say |
| Collector.AllocTable.Poll | src/collector/collector.c:435-440 | draining a queue leaves list and capacity of the replay under the given memory |
| Collector.BoundedIsReplayOfKept | src/collector/collector.c:85-98 | that list is the plain replay of the events that take effect |
| Collector.AllKeptIff | src/collector/collector.c:85-98 | those are all events exactly when none would add a record to a full table without memory |
| Collector.CopyPcs | src/collector/collector.c:148-151 | the copied stack is the event's prefix, the remaining slots are zero |
| Probes.CopyStack | src/bpf/memscope.bpf.c:198-209 | the event's PCs are the saved prefix, at most 32, then zeros |
| Probes.IdsOf | src/bpf/memscope.bpf.c:115-116 | the probes take process and thread id apart again, whatever they are |
| Probes.ProbeMaps.UprobeMallocEntry | src/bpf/memscope.bpf.c:112-154 | remembers size, stack id and stack under the thread id and nothing else |
| Probes.ProbeMaps.UprobeMallocReturn | src/bpf/memscope.bpf.c:156-214 | consumes the thread's pending malloc, activates the address, emits one event; nothing on NULL or without an entry |
| Probes.ProbeMaps.UprobeFree | src/bpf/memscope.bpf.c:216-246 | moves an active address to completed and emits a free event; nothing on NULL |
| Probes.ProbeMaps.UprobeCallocEntry | src/bpf/memscope.bpf.c:248-284 | as malloc entry, with the product of the arguments mod 2^64 |
| Probes.ProbeMaps.UprobeCallocReturn | src/bpf/memscope.bpf.c:286-342 | as malloc return, on the calloc maps |
| Probes.ProbeMaps.UprobeReallocEntry | src/bpf/memscope.bpf.c:344-393 | as malloc entry, on the realloc maps, and emits an entry event |
| Probes.ProbeMaps.UprobeReallocReturn | src/bpf/memscope.bpf.c:395-452 | as malloc return, on the realloc maps |
| Protocol.EmittedDepthsFit | src/bpf/memscope.bpf.c:198-203 | every event ever emitted has at most 32 stack entries |
| Protocol.ProbesIgnoreTheRing | src/bpf/memscope.bpf.c:101-104 | a probe only appends to the ring |
| Protocol.RingIsAQueue | src/collector/collector.c:435-440 | over every run: emitted events = consumed events then queued events, and the table is the replay of the consumed ones |
| Protocol.DrainedIsReplay | src/collector/collector.c:114-230 | the drained table does not depend on when the consumer ran |
| Protocol.DrainedOfProcess | src/collector/collector.c:121-122 | over every run: the drained table is the effect of all emitted events, or, under a target, of exactly the events of that process, whose records it then holds only |
| Protocol.MapsAreDeterminedByEvents | src/bpf/memscope.bpf.c:156-246 | over every run `active_allocs` and `completed_allocs`, keys and data, are what the emitted events say |
| Protocol.NothingForgotten | src/bpf/memscope.bpf.c:182-230 | for every history active and completed addresses together are the addresses ever handed out |
| Protocol.OtherEmissions | src/bpf/memscope.bpf.c:216-246 | a free of a non-null pointer emits one event with the caller's pid and tid, pointer and stack id; a realloc entry emits one with pointer and size that changes no table; no other entry emits |
| Protocol.NewestMatchesActive | src/bpf/memscope.bpf.c:182-246 | the newest outstanding record at an active address carries the active data |
| Protocol.ReplayAgreement | src/collector/collector.c:114-230 | over every run, for any process filter: each active address has a newest live record with the same size, pid, tid, timestamp and stack id |
| Protocol.SyncIff | src/collector/collector.c:210-217 | live and active addresses agree throughout a run exactly when no free meets two or more live records |
| Protocol.DisciplinedSimulation | src/collector/collector.c:185-218 | if no emitting return yields an active address: exactly one matching live record at each active address and none elsewhere |
| Protocol.InPlaceReallocLeavesALiveRecord | src/collector/collector.c:185-218 | a five-step run after which an inactive address still has a live record |
| Protocol.InPlaceReallocDoubles | src/collector/collector.c:185-209 | before its `free` two live records of 16 and 32 bytes stand for one active allocation |
| Protocol.OpenEntry | src/bpf/memscope.bpf.c:134-173 | the latest entry of a kind and thread not yet followed by a non-null return |
| Protocol.PendingIsOpenEntry | src/bpf/memscope.bpf.c:112-214 | the pending maps hold exactly the open entries, stack and size of the same entry |
| Protocol.ReturnPairing | src/bpf/memscope.bpf.c:156-214 | under any interleaving a return of thread tid of process pid emits nothing, or one event with that pid and tid and with size, stack id and at most 32 PCs of the thread's latest open call |
| Protocol.NonInterference | src/bpf/memscope.bpf.c:115-137 | steps of other threads, of the same process or not, leave a thread's open entry and what the kernel holds for it as they are |
| Protocol.CallStaysOpen | src/bpf/memscope.bpf.c:115-137 | so a call stays open, with its own data, until its thread's next step |
| Protocol.EntryConsumedOnce | src/bpf/memscope.bpf.c:167-173 | two returns of one kind and thread never pair with the same entry |
| Protocol.OpeningEvent | src/bpf/memscope.bpf.c:182-212 | the event of a return with an open entry carries the size and the call stack its entry probe saw |
| Protocol.ActiveIsOpened | src/bpf/memscope.bpf.c:182-246 | every active address was last handed out by a return with an open entry and not freed since, and the newest outstanding record is that return's |
| Format.NumberOfDigits | src/collector/main.c:38-45 | reading the printed digits of a number gives the number, in base 10 and 16 |
| Format.DigitsExamples | src/collector/main.c:38-45 | one printed number in each base |
| Format.ScanPrinted | src/resolver/main.cpp:70-73 | each conversion reads back what it printed when a comma or the end follows |
| Format.ScanUndoesPrint | src/resolver/main.cpp:70-73 | for every comma-separated format scanning the printed text gives back all values |
| Format.ScanStopsAtEnd | src/resolver/main.cpp:70-73 | scanning a text that ends before the format does gives the values printed so far |
| Format.ScanLoose | src/resolver/main.cpp:70-73 | white space and a sign in front of the digits are accepted |
| Format.ScannedValues | src/resolver/main.cpp:70-73 | a minus wraps around and too large numbers saturate |
| Format.Sscanf | src/resolver/main.cpp:70-73 | the scanned values have the types of the format's conversions, a prefix of them |
| Format.LinesOfTerminated | src/resolver/main.cpp:62-64 | splitting at a delimiter undoes terminating each piece with it |
| Format.GetLine | src/resolver/main.cpp:62-97 | one `getline` delivers the text before the first delimiter, or all of it, and leaves the other lines |
| CsvBridge.WriteCsvBatch | src/collector/main.c:33-49 | writes the header and one row per record of the table, in order |
| CsvBridge.WritePcs | src/collector/main.c:43-46 | writes the first stack-depth of 64 PCs, separated by semicolons |
| CsvBridge.LoadCsv | src/resolver/main.cpp:57-111 | skips the header, then keeps every line with five readable fields |
| CsvBridge.ReadTrailingPcs | src/resolver/main.cpp:80-105 | the nonzero PCs after the ninth comma |
| CsvBridge.PcTextRoundTrip | src/resolver/main.cpp:97-102 | a printed PC is read back unless it is zero |
| CsvBridge.RowRoundTrip | src/resolver/main.cpp:65-107 | a printed row is read back as its record, for any depth |
| CsvBridge.CsvRoundTrip | src/resolver/main.cpp:57-111 | reading a written table gives one entry per record in order: fields kept, time of free as timestamp, nonzero PCs of the printed prefix |
| CsvBridge.ColumnsRoundTrip | src/resolver/main.cpp:57-111 | the same column by column, with the time of the free as timestamp and the nonzero ones of at most 64 PCs |
| CsvBridge.NonZeroOfParts | src/resolver/main.cpp:101-101 | dropping zero PCs is a filter |
| CsvBridge.BrokenLine | src/resolver/main.cpp:70-78 | a line that breaks off is skipped below five columns and otherwise kept without the missing ones |
| CsvBridge.RowExample | src/collector/main.c:38-46 | the text of one row, column by column |
| SortedSearch.UpperBound | src/resolver/address_resolver.cpp:88-89 | the partition point of an ascending sequence |
| AllocLookup.ContainedOffset | src/resolver/address_resolver.cpp:95-95 | the containment test with wrapping end holds exactly for true offsets below the size |
| AllocLookup.ScanBack | src/resolver/address_resolver.cpp:86-109 | returns the rightmost live record of the longest covering run ending at the upper bound |
| AllocLookup.FoundIsUnique | src/resolver/address_resolver.cpp:86-109 | that description fixes the answer |
| AllocLookup.FoundIsOwner | src/resolver/address_resolver.cpp:86-109 | any answer is live and contains the address |
| AllocLookup.FindsOwnerIff | src/resolver/address_resolver.cpp:86-109 | for any live owner: the scan finds it exactly when every record between it and the upper bound is dead and reaches past the address; it never finds an earlier one |
| AllocLookup.FreedRecordHidesOwner | src/resolver/address_resolver.cpp:103-105 | an input where a freed record hides the live owner |
| AllocLookup.LastOfTwoAnswers | src/resolver/address_resolver.cpp:95-98 | of two live records at one address the one sorted last answers |
| AllocLookup.StaleRecordAnswers | src/resolver/address_resolver.cpp:95-98 | an input where a stale record of 16 bytes answers for a block of 32 |
| Dwarf.BuildIndex | src/dwarf/dwarf_analyzer.cpp:91-93 | the rebuilt index maps each key to its last position |
| Dwarf.UpperBoundIsGreatestStart | src/dwarf/dwarf_analyzer.cpp:692-699 | on sorted symbols the binary search lands on the last symbol with the greatest start |
| Dwarf.LastStartIsGreatestStart | src/dwarf/dwarf_analyzer.cpp:688-690 | an index hit is that same symbol |
| Dwarf.GreatestStartFacts | src/dwarf/dwarf_analyzer.cpp:683-702 | the linear scan's choice: greatest start at or below the address, last among equals |
| Dwarf.DwarfAnalyzer.constructor | src/dwarf/dwarf_analyzer.cpp:84-93 | sorted symbols and indexes that match the tables |
| Dwarf.DwarfAnalyzer.FindSymbolByAddr | src/dwarf/dwarf_analyzer.cpp:683-702 | equals the linear scan: the chosen symbol if it starts at the address or contains it |
| Dwarf.SymbolAtIff | src/dwarf/dwarf_analyzer.cpp:683-702 | the symbol found has the greatest start at or below the address, is the last of those, and starts at the address, whatever its size, or reaches past it; and only such a symbol is found |
| Dwarf.NamedSymbolPreferred | src/dwarf/dwarf_analyzer.cpp:84-89 | if any symbol with that start has a type name, the returned one does |
| Dwarf.ApartSymbolFound | src/dwarf/dwarf_analyzer.cpp:683-702 | an address in a symbol that no other symbol reaches into there leads to a symbol with that extent |
| Dwarf.DwarfAnalyzer.FindTypeByName | src/dwarf/dwarf_analyzer.cpp:667-673 | the last type of that name |
| Dwarf.DwarfAnalyzer.FindTypeByOffset | src/dwarf/dwarf_analyzer.cpp:675-681 | the last type at that DIE offset |
| Dwarf.TypeNamedIsLast | src/dwarf/dwarf_analyzer.cpp:299-301 | a later type replaces an earlier one of the same name |
| Dwarf.TypeAtDieIsLast | src/dwarf/dwarf_analyzer.cpp:299-302 | and of the same DIE offset |
| Dwarf.DwarfAnalyzer.FindSubprogramByName | src/dwarf/dwarf_analyzer.cpp:824-830 | the last subprogram with that name or linkage name |
| Dwarf.LastSubprogramIff | src/dwarf/dwarf_analyzer.cpp:490-493 | the last subprogram that has the name as plain or linkage name |
| Dwarf.BuildSubprogramIndex | src/dwarf/dwarf_analyzer.cpp:490-493 | later subprograms replace earlier ones under both names |
| Dwarf.SelectField | src/dwarf/dwarf_analyzer.cpp:728-752 | none exactly when no field starts at or covers the offset; else the earliest largest field starting there, a leading empty field, or the earliest nearest covering field |
| Dwarf.UnionSelection | src/dwarf/dwarf_analyzer.cpp:729-734 | an input: the earliest of the largest members of a union |
| Dwarf.NestedSelection | src/dwarf/dwarf_analyzer.cpp:736-744 | an input: of the fields around the offset the one that starts last |
| Dwarf.EmptySelection | src/dwarf/dwarf_analyzer.cpp:729-744 | an input: an empty field only if it leads |
| Dwarf.DisjointSelection | src/dwarf/dwarf_analyzer.cpp:728-752 | for disjoint fields the selection is the one covering field |
| Dwarf.SelectionIgnoresOrder | src/dwarf/dwarf_analyzer.cpp:728-752 | and does not depend on the order of the fields |
| Dwarf.DwarfAnalyzer.ResolveFieldAtOffset | src/dwarf/dwarf_analyzer.cpp:712-753 | look-up by name, then DIE offset, then selection |
| Dwarf.ResolvedInNamedType | src/dwarf/dwarf_analyzer.cpp:712-753 | with distinct names and DIE offsets the answer is the selection among the named type's own fields |
| Dwarf.ResolvedLies | src/dwarf/dwarf_analyzer.cpp:712-753 | a field found starts at the offset or holds its byte; if none is found no field of the type does |
| Dwarf.ResolvedIsOnly | src/dwarf/dwarf_analyzer.cpp:712-753 | for disjoint fields it is the only one |
| Dwarf.TypedefHidesFields | src/dwarf/dwarf_analyzer.cpp:299-301 | an input where a typedef of the same name hides the structure's fields |
| Dwarf.DwarfAnalyzer.FindPointerTargetTypesAtPc | src/dwarf/dwarf_analyzer.cpp:926-955 | the distinct pointer targets of the first subprogram containing the address |
| Dwarf.PointerTargetsMeaning | src/dwarf/dwarf_analyzer.cpp:926-955 | with both forms of `high_pc` written out: the types found are the named targets of the pointer variables of the first subprogram whose code holds the PC |
| Dwarf.NoPointerTargets | src/dwarf/dwarf_analyzer.cpp:926-955 | none when no subprogram's code holds it |
| Dwarf.SortedDistinct | src/dwarf/dwarf_analyzer.cpp:951-952 | strictly ascending with the same names |
| LoadBase.WinnerWins | src/resolver/address_resolver.cpp:361-369 | the recursive reference winner has most votes and is smallest on ties |
| LoadBase.TieGoesToSmaller | src/resolver/address_resolver.cpp:361-369 | of two bases with the most votes the smaller wins |
| LoadBase.BestOffset | src/resolver/address_resolver.cpp:361-374 | walking the vote map in key order finds that winner |
| LoadBase.TallyVotes | src/resolver/address_resolver.cpp:332-359 | the nested loops count exactly the votes of the qualifying pairs |
| LoadBase.VoteIff | src/resolver/address_resolver.cpp:334-358 | written out: which pairs of address and subprogram vote, and for what |
| LoadBase.VotesCount | src/resolver/address_resolver.cpp:332-359 | there are as many votes as qualifying (address, subprogram) pairs |
| LoadBase.AslrOffsetShape | src/resolver/address_resolver.cpp:322-379 | the result is a page multiple in the window with most votes, smallest on ties, or 0 without votes |
| LoadBase.TrueBaseVotes | src/resolver/address_resolver.cpp:334-358 | a true page-aligned base in the window gets a vote from every address less than a page past its function's start |
| LoadBase.GlobalVoteIsExact | src/resolver/address_resolver.cpp:393-407 | rounding the candidate base to a page changes nothing |
| LoadBase.GlobalVoteIff | src/resolver/address_resolver.cpp:389-408 | written out: which symbols vote, and for what |
| LoadBase.GlobalBaseShape | src/resolver/address_resolver.cpp:381-426 | any nonzero result is a page multiple in the window with most votes, smallest on ties |
| LoadBase.VoteForTrueBase | src/resolver/address_resolver.cpp:393-407 | a symbol votes for the true base exactly when it is an object whose first page holds the file address |
| LoadBase.TrueBaseVotedIff | src/resolver/address_resolver.cpp:389-408 | the true base gets a vote exactly when there is such an object |
| LoadBase.LaterPageGetsNoVote | src/resolver/address_resolver.cpp:389-408 | when the last symbol start at or below the file address is on an earlier page nobody votes for the true base |
| LoadBase.ComputeAslrFromGlobalAddr | src/resolver/address_resolver.cpp:381-426 | the loops return the winner of the symbols' votes |
| LoadBase.MatchIsLeast | src/resolver/address_resolver.cpp:446-461 | for every range the closed form finds the least explanation of an address on the pages the loop reaches, or there is none |
| LoadBase.GuardNeverFailsIff | src/resolver/address_resolver.cpp:443-446 | the guard of the page loop never fails exactly when the range ends on the last page but one of the address space |
| LoadBase.SearchRunsForeverIff | src/resolver/address_resolver.cpp:443-459 | the loop runs for ever exactly when, besides, nothing in the range explains the address |
| LoadBase.SearchRange | src/resolver/address_resolver.cpp:446-461 | whenever the page loop ends it finds exactly that |
| LoadBase.VaToFileOffset | src/resolver/address_resolver.cpp:428-466 | the whole mapping with its two guards, whenever its loops end |
| LoadBase.VaToFileMeaning | src/resolver/address_resolver.cpp:428-466 | between the guards: the least explanation in the first range that has one, else the input |
| LoadBase.ExplainsIff | src/resolver/address_resolver.cpp:446-461 | written out: which addresses of a range explain an address |
| LoadBase.OutsideGuards | src/resolver/address_resolver.cpp:430-436 | no address outside the guards is changed |
| LoadBase.UndoesRelocationIff | src/resolver/address_resolver.cpp:428-466 | the mapping undoes relocation exactly on the first 4096 bytes of a range, as far as the loop reaches |
| LoadBase.DetectedRangeUndoesRelocationIff | src/resolver/address_resolver.cpp:428-466 | in a detected range: exactly for addresses less than a page past the start of every extent, as far as the loop reaches |
| LoadBase.IsInTargetBinary | src/resolver/address_resolver.cpp:1149-1167 | the loop decides the target test |
| LoadBase.InTargetIff | src/resolver/address_resolver.cpp:1149-1167 | written out: which addresses pass |
| LoadBase.RelocatedIsInTarget | src/resolver/address_resolver.cpp:1149-1167 | every address of a range passes after relocation by a base in the window |
| LoadBase.ChangedIsInTarget | src/resolver/address_resolver.cpp:428-466 | a changed address passes the target test when no range has aliases away from its start |
| LoadBase.ChangedIsInTargetIff | src/resolver/address_resolver.cpp:1149-1167 | for one range that condition is exact |
| LoadBase.DetectBinaryRanges | src/resolver/address_resolver.cpp:1100-1147 | at most one range, the tight hull of all subprogram and symbol extents |
| LoadBase.DetectedRangeHolds | src/resolver/address_resolver.cpp:1112-1138 | with both forms of `high_pc` written out: the range holds the code of every subprogram and the bytes of every symbol |
| LoadBase.DetectedRangeIsTight | src/resolver/address_resolver.cpp:1112-1138 | and each of its ends is that of some subprogram or symbol |
| TypeInference.BuildSizeIndex | src/resolver/address_resolver.cpp:50-59 | the index lists, per size, the positions of the types of that size |
| TypeInference.SizePositionsExact | src/resolver/address_resolver.cpp:50-59 | exactly the positive-size types with fields, ascending |
| TypeInference.GetSizeCandidates | src/resolver/address_resolver.cpp:468-480 | the index delivers the linear filter, in order |
| TypeInference.CommonMembers | src/resolver/address_resolver.cpp:620-628 | the intersection holds exactly the names in both lists |
| TypeInference.CommonOfParts | src/resolver/address_resolver.cpp:620-628 | the intersection is an order-preserving filter |
| TypeInference.Intersect | src/resolver/address_resolver.cpp:620-628 | the nested loops compute it |
| TypeInference.TryArraySizeMatch | src/resolver/address_resolver.cpp:482-512 | the first fitting element type, marked when a second one fits |
| TypeInference.ArrayFitsIff | src/resolver/address_resolver.cpp:488-497 | a type fits when it has fields, takes at least 8 bytes, and 2 to 100000 of it make up the size |
| TypeInference.CountForIff | src/resolver/address_resolver.cpp:588-590 | several elements are counted exactly when that many of the named type make up the allocation |
| TypeInference.VerdictIffInformative | src/resolver/address_resolver.cpp:566-662 | a frame settles the type exactly when the address before its PC is in the binary and has a confident source type or a pointer candidate |
| TypeInference.VerdictMeaning | src/resolver/address_resolver.cpp:566-660 | for the address before its PC: its confident source type, else its only pointer target, else the first target of the right size, else the first; one element unless the choice was unique |
| TypeInference.FunctionAtIff | src/resolver/address_resolver.cpp:166-185 | a PC's function is that of the symbol at the mapped address, or else at the address itself, unless it is an allocator |
| TypeInference.StackTargetsIff | src/resolver/address_resolver.cpp:664-678 | the candidates are the named types that pointer variables of the functions on the stack point to |
| TypeInference.FunctionPassMeaning | src/resolver/address_resolver.cpp:680-711 | the function pass answers with the only candidate, or the first of the right size, or the first |
| TypeInference.MentionsAnywhere | src/resolver/address_resolver.cpp:713-713 | the marker "ambiguous" counts anywhere in a name |
| TypeInference.SizeFallbackMeaning | src/resolver/address_resolver.cpp:725-740 | the size fallback names the first type of exactly that size, and says whether it is the only one |
| TypeInference.SizeFallbackWithout | src/resolver/address_resolver.cpp:742-748 | without one the array match answers, or nothing |
| TypeInference.ArrayMatchMeaning | src/resolver/address_resolver.cpp:482-512 | the array match reports the first named type that fits with the number of its elements, marked exactly when a later type fits too |
| TypeInference.NoArrayMatchIff | src/resolver/address_resolver.cpp:482-512 | it reports nothing exactly when no named type fits |
| TypeInference.FirstInformativeFrameDecides | src/resolver/address_resolver.cpp:566-662 | the earliest informative frame fixes the answer, whatever later frames say |
| TypeInference.InferWithoutFrames | src/resolver/address_resolver.cpp:664-748 | without an informative frame: the function pass unless its candidate mentions "ambiguous", then the size |
| TypeInference.FallbackIff | src/resolver/address_resolver.cpp:664-748 | without an informative frame the size decides exactly when the function pass has no candidate or one named with "ambiguous" |
| TypeInference.AmbiguousNameIsPassedOver | src/resolver/address_resolver.cpp:713-722 | an input whose unique candidate is passed over |
| TypeInference.ArrayCountFitsIff | src/resolver/address_resolver.cpp:482-512 | an array match's count fills the allocation exactly when its name finds no type or one of the size it counted with |
| TypeInference.DistinctNamesLeadBack | src/resolver/address_resolver.cpp:482-512 | it does when types of one name have one size and none is named as the code marks another |
| TypeInference.DuplicateNameMiscounts | src/resolver/address_resolver.cpp:482-512 | an input with two types of one name where the count is wrong |
| TypeInference.InferredCountFitsIff | src/resolver/address_resolver.cpp:538-749 | whenever several elements of an existing type are reported they fill the allocation exactly, unless the array fallback's name leads astray |
| Globals.LookupGlobal | src/resolver/address_resolver.cpp:775-787 | direct look-up, else one at the address minus the voted base |
| Globals.GlobalRecoveryIff | src/resolver/address_resolver.cpp:773-826 | a global is recovered at its true offset exactly when its run-time address hits no symbol, the true base wins the vote, ties going to the smallest, and its file address leads to a symbol of that extent |
| Globals.GlobalRecovery | src/resolver/address_resolver.cpp:773-826 | in particular when the symbol is apart there |
| Globals.LaterPageNeverRecovered | src/resolver/address_resolver.cpp:773-826 | never for an address past the first page of its symbol, whatever the other symbols |
| Globals.SecondPageIsMisread | src/resolver/address_resolver.cpp:389-409 | an input where the byte at offset 0x1010 is taken for the one at offset 0x10 |
| Globals.GlobalHitIff | src/resolver/address_resolver.cpp:773-787 | an address is taken for a global's exactly when a symbol is hit directly, or an object votes for the winning base and the address its vote was cast for leads to a symbol |
| Globals.ClaimedIffVoted | src/resolver/address_resolver.cpp:389-408 | when the voting objects have a size and are apart on their first page, any vote is enough |
| Globals.HeapAddressIsClaimed | src/resolver/address_resolver.cpp:389-408 | an input where one object claims an address that is not its own |
| AddressResolver.AddressResolver.constructor | src/resolver/address_resolver.cpp:38-48 | builds the size index and at most one range, the tight hull of all extents; keeps its arguments |
| AddressResolver.AddressResolver.FileAddressRecoveredIff | src/resolver/address_resolver.cpp:428-466 | the object maps a relocated address of the binary back exactly when it is less than a page past every start, as far as the loop reaches |
| AllocLookup.SortByAddress | src/resolver/address_resolver.cpp:64-67 | a sort by address: an ascending permutation |
| AddressResolver.AddressResolver.SetAllocTable | src/resolver/address_resolver.cpp:61-68 | the stored table is a sort of the input |
| AddressResolver.AddressResolver.FindAlloc | src/resolver/address_resolver.cpp:86-109 | the scan on the object's table |
| AddressResolver.AddressResolver.ComputeAslrOffset | src/resolver/address_resolver.cpp:322-379 | the cached base, else the winner of the vote, which is cached |
| AddressResolver.AddressResolver.FunctionNames | src/resolver/address_resolver.cpp:155-188 | the functions on the stack, allocators dropped |
| AddressResolver.AddressResolver.StackPointerTypes | src/resolver/address_resolver.cpp:665-678 | their distinct pointer targets |
| AddressResolver.AddressResolver.InspectFrame | src/resolver/address_resolver.cpp:566-662 | one frame's verdict |
| AddressResolver.AddressResolver.InferByFunctions | src/resolver/address_resolver.cpp:664-711 | the function pass |
| AddressResolver.AddressResolver.InferBySize | src/resolver/address_resolver.cpp:725-748 | the size and array fallbacks |
| AddressResolver.AddressResolver.InferTypeCombinedV2 | src/resolver/address_resolver.cpp:538-749 | the answer is inferred from the allocation's own PCs if it has any, else from those of the stack map for a positive stack id, else from none; the previous cached base has no influence |
| AddressResolver.RecoveredGlobalAnswer | src/resolver/address_resolver.cpp:773-826 | the answer for a recovered global is about that symbol, with the field at the file offset |
| AddressResolver.AddressResolver.ResolveGlobal | src/resolver/address_resolver.cpp:773-826 | the answer belongs to the look-up result |
| AddressResolver.GlobalAnswerMeaning | src/resolver/address_resolver.cpp:789-823 | it carries the symbol's name and type and a field that lies where the address lies in the symbol, or none if no field does |
| AddressResolver.AddressResolver.ResolveHeap | src/resolver/address_resolver.cpp:828-894 | an answer exactly when the scan finds an allocation, and it belongs to that allocation |
| AddressResolver.HeapAnswerMeaning | src/resolver/address_resolver.cpp:828-894 | it carries the allocation's data, the inferred type, and a field that lies where the address lies in the allocation, or in its element of an array; none if no field does |
| AddressResolver.UsedAnswerMeaning | src/resolver/address_resolver.cpp:751-771 | the same for the answer of `resolve` |
| AddressResolver.ArrayAnswerDecomposes | src/resolver/address_resolver.cpp:853-872 | an array answer whose count fits splits the address into base, whole elements and an offset the field starts at or covers |
| AddressResolver.HeapDecompositionIff | src/resolver/address_resolver.cpp:853-872 | count × element size = allocation size, index < count, base + index × size + offset = address, and the field starts at or covers the offset: exactly unless the array fallback's name leads to a type of another size |
| AddressResolver.AddressResolver.ResolveStack | src/resolver/address_resolver.cpp:896-910 | the function of the innermost frame, if there is a frame and a symbol |
| AddressResolver.AddressResolver.Resolve | src/resolver/address_resolver.cpp:751-771 | claimed addresses get a global answer, others that of the allocation the scan finds, others the stack answer, unknown only if all three fail |
| AddressResolver.AnswerClass | src/resolver/address_resolver.cpp:751-771 | a global answer exactly for claimed addresses, a heap answer exactly when the scan then finds an allocation; else the innermost frame's function, if there is one |
| EndToEnd.AgreedReachesTable | src/resolver/main.cpp:113-119 | a collector table that agrees with the kernel hands every active allocation on to the resolver's sorted table, by the entry of its newest live record |
| EndToEnd.ActiveReachesTable | src/resolver/main.cpp:113-119 | every active allocation is described by an entry of the resolver's sorted table, with the nonzero PCs its opening entry probe captured |
| EndToEnd.ActiveIsScanned | src/resolver/address_resolver.cpp:86-109 | for every run and every address in an active allocation: the scan finds it exactly when every entry between it and the upper bound is dead and reaches past the address; anything else it finds is a later live entry |
| EndToEnd.ActiveIsResolved | src/resolver/address_resolver.cpp:751-771 | for every run, binary and address in an active allocation: `resolve` answers about that allocation exactly when the address is not taken for a global's and the scan's condition holds; the type is then inferred from the kernel's size and the opening probe's call stack |
| EndToEnd.HeapAddressTakenForGlobal | src/resolver/address_resolver.cpp:755-757 | an input where whatever is allocated gets a global answer |
| EndToEnd.DisciplinedIsResolved | src/resolver/address_resolver.cpp:751-771 | for every run in which no emitting return yields an active address, and an address no other active allocation holds: the answer is about the allocation, or about none, by whether the address is taken for a global's and whether every later entry reaches past it |
| EndToEnd.EverySortFindsIff | src/resolver/address_resolver.cpp:61-68 | in such a run the scan finds the allocation under every order of equal addresses exactly when no record starting between the allocation and the address ends at or before the address |
| EndToEnd.SortDecidesAfterInPlaceRealloc | src/resolver/address_resolver.cpp:61-68 | a run after which the order among equal addresses decides whether the stale or the current size answers |

## Left out

- Loading BPF objects, attaching probes, polling timeouts, option parsing, signal handling: input and output.
- Walking ELF and DWARF data, unwinding, line tables and the source-text analyser: the tables and the analyser's answers are inputs.
- mmap, munmap and stack-sample events: the collector ignores them; they appear as one `Ignored` payload.
- Ring overflow, full kernel maps and races on the shared scratch slots: excluded by the assumptions above.
- The variables and the trace in a stack answer, and the older inference functions: they report names only and share no state with the rest.
- Look-up of symbols by name: its index holds positions from before the sort, so no agreement holds.
- Confidence numbers (other than the 0.5 threshold for source text), notes, layout strings, bit offsets and full paths of fields.
- The records' `comm` and `hash_next` fields, which the code never uses.
- NUL characters inside a CSV line, where the C scanner would stop.
- Collector.AllocTable.Poll: requires records and queued events to be at most 2^31 together; past that a bucket can be hidden, as `Append` says, and the table no longer refines the list.
- Collector.AllocTable.HandleEvent: requires a sound index, which the cast to `int` keeps up to 2^31 records only.
- Collector.AllocTable.RecordReturn: requires a sound index, as `HandleEvent` does.
- AddressResolver.AddressResolver.ResolveStack: a stack answer carries the function's name but not its trace and variables.
- AddressResolver.AddressResolver.Resolve: its stack answers are those of `ResolveStack`.
- Dwarf.SelectField: which field is selected is left open when one that starts at the offset reaches the end of the address space; whether one is selected is not.
- Dwarf.DwarfAnalyzer.ResolveFieldAtOffset: the same.

# Verification models of the Metta kernel, its runtime and its tools

Metta is an operating system kernel with a small runtime and a set of host tools. This project models the parts of it
that carry real algorithms, in Dafny, and proves what they are for. Each component is one group of files; an object that
the source changes in place is a class here, and a loop of the source is a loop here, proved against a specification whose
own properties are proved as lemmas.

| files | component |
|---|---|
| `SizeClasses`, `HeapInvariant`, `HeapSteps`, `HeapTheorems`, `HeapForecast`, `HeapAllocation`, `Heap`, `HeapSession` | boundary-tag heap |
| `BTreeShape`, `BTreeSplit`, `BTreeTravel`, `BTree` | B-tree with parent pointers |
| `ExceptionLanguage`, `ExceptionMachine`, `ExceptionSimulation`, `ExceptionTheorems`, `ExceptionSystem` | setjmp exceptions and their macros |
| `AlignMasks`, `ElfLayout`, `ElfRelocation`, `ModuleLoader` | module loader and relocator |
| `BootImageFormat`, `BootImageWriter`, `BootImage` | boot image writer and reader |
| `WriteBack`, `BlockCache` | block cache, write-back path |
| `Leb128`, `DwarfForms`, `DwarfAbbrev`, `DwarfTree`, `Dwarf` | debugging-entry decoder |
| `MersenneWords`, `MersenneTwister` | random numbers |
| `EventCounts` | mutex and condition variable on event counts |
| `Bytes` | bytes, little-endian words and text, shared by the formats |

## What is proved, and how it is set up

**Heap.** Memory is a map from addresses to header records; the object also carries, as ghost state, the set of current
headers, which of them are free, and the contents of the 41 lists. `Inv` says that the three views agree: headers tile the
arena, each `prev` word is the magic exactly when the block before is busy and else its size, and each list is the chain of
exactly the free blocks of its index. Every list or tag update keeps it, also between the two writes of an allocation and
between the turns of both coalescing passes. A header is 16 bytes, the size of the record with its 32-bit words, and the arena length
is a multiple of 8, as `init` assumes; a request is below 2^32 - 8, above which `BLOCK_ALIGN` wraps
(`BlockAlignRoundsUp` gives the exact condition).

What `allocate` returns is told from the state before the call. A request whose own list is empty and that no block of the
catch-all list can hold makes the heap coalesce. The merge passes turn each run of neighbouring free blocks into its first
block (`RunSize` is its size); the move passes leave a block in its exact list as long as its run is of that class and put
every other one into the catch-all list (`Compacted`). A block handed out exceeds what was needed by less than a header and
the smallest class, also when it comes from an exact list (`Snug`). From this follow three findings.

- A block moved to the catch-all list while it heads that list reproduces the very same heap, so the move pass over the
  catch-all list never ends exactly when its head is no larger than the largest exact class (`MovePassEndsIff`). The call never
  returns exactly when it has to coalesce and `CoalescingSpins`: the last block to leave an exact list, or without one the first
  of the catch-all list that starts a run, starts a run of at most 10368 bytes. A fresh arena of at most that much room hangs on
  the first request that does not fit (`FirstRequest`, `HangsAtOnce`).
- NULL is returned exactly when the request has to coalesce, coalescing ends, and no run that goes to the catch-all list is
  large enough (`OutOfMemory`). Blocks that stay in exact lists are not searched: a heap with all its 152 bytes free answers a
  request for 100 with NULL (`ExactListsAreNotSearched`, `NullWithRoom`).
- Whole runs of requests are related to the states in between by `IsRun`; what is outstanding is told from requests and replies
  alone (`Outstanding`). Outstanding blocks never overlap and, from the request that got a block to the one that frees it, no
  record that covers a byte of its payload is written (`RunServesDisjointly`, `RunKeepsPayload`).

**B-tree.** Nodes are objects; each carries a ghost height and key interval. `Shape` says that keys ascend inside the
interval, children split it, leaves are all at height 0, parents point back, and counts are between (n-1)/2 and n-1. The
order is at least 3.

**Exceptions.** A statement language with its direct meaning is compiled by the macros' own scheme to instructions that work
on context blocks and a handler stack. The compiled program performs the same actions and ends the same way. The context
blocks of different OS_TRY blocks are assumed to have separate storage, and OS_RERAISE stands directly in a handler.

**Module loader.** Sections are laid out, filled and relocated in a memory of bytes; relocation formulas are those of the
Relocation section in chapter 4 of the System V ABI, Intel386 Architecture Processor Supplement, in 32 bits. Symbol and
section tables are records rather than bytes; an image without a table of section names is left unrelocated and loaded all the
same, as in the source. Descriptors are a map from addresses; memory where no descriptor was
written is taken not to hold the magic by chance. `align_bytes` is a remainder on integers; `MasksAlign` and
`PaddingIsUnique` show that the masks of the source pick the same padding. A relocation of unknown type leaves 0xdeadbeef,
as the source does. Addresses are unbounded where the source's would wrap at the top of memory.

**Boot image.** The writer's output is proved to be a specified byte sequence, and the reader to find what was written in
it. Images are shorter than 2^32 bytes. The size the reader reports includes the padding after the file. A module called
"root_domain" is written as a root domain, so `find_module` never finds it by that name. A record without a namespace stores a
namespace offset of zero only if its name happens to end at a multiple of four (`NamespaceOffsetIff`).

**Block cache.** Blocks are linked objects; the ghost field `order` lists them. A device may refuse a block; the device
mapper of the repository always reports success, so there the failing branch of `flush` is not taken. A flushed key keeps its place in
the map with a null entry, and no listed block is ever clean, so a write that finds its block missing and the map full never
returns; `StuckIff` says exactly which runs meet such a write, and a run that writes fewer distinct blocks than the cache
holds never does.

**Debugging entries.** Section numbers are those of the DWARF Debugging Information Format, version 3. Reading past the
bytes, a number of more than five bytes (its shift is undefined in C++), a block past the end, an unknown form and a code without an
abbreviation are outcomes of their own, `Undefined`. `|=` is addition here, because the bits it adds are clear.

**Mersenne Twister.** Words are 32-bit vectors. The recurrence is that of Matsumoto and Nishimura, ACM TOMACS 8(1), 1998.

**Event counts.** Threads take single steps on the counters in any order. Reed and Kanodia's primitives are parameters: the first
ticket of a sequencer is arbitrary. With tickets from 1, as the comment at src/runtime/event_counts.h:55 needs, the mutex
excludes and grants in ticket order; signals wake as many waiters as there are signals and broadcasts wake every earlier one. Finding: src/modules/tcb/root_domain/events.cpp:544-580
starts a sequencer at 0 and returns its value before adding one. With that, two threads can hold the lock at once and a
first waiter passes an unsignalled condition; `MutualExclusionIff`, `FirstLockPassesIff` and `WaitEndsUnaskedIff` give the
exact conditions.

## Model

| member | source | states |
|---|---|---|
| SizeClasses.BlockAlignRoundsUp | src/modules/heap_mod/heap.cpp:29-30 | rounding goes to a larger multiple of 8 exactly below 2^32 - 8, and wraps to 0 above |
| SizeClasses.Bisect | src/modules/heap_mod/heap.cpp:114-136 | the halving and the scan find the first adequate entry of any ascending table |
| SizeClasses.FindIndex | src/modules/heap_mod/heap.cpp:106-139 | the index is the least adequate class, by division for small sizes and bisection for large |
| SizeClasses.OtherMeansLarge | src/modules/heap_mod/heap.cpp:36-38 | the catch-all class is chosen exactly for sizes above the largest exact class |
| SizeClasses.ClassesAre | src/modules/heap_mod/heap.cpp:40-50 | classes are whole words up to 16 of them, then the number of words nearest to six fifths of the one before, then the largest word |
| HeapInvariant.TagLeadsBack | src/modules/heap_mod/heap.cpp:161-165 | a tag other than the magic leads back to a free block that ends here: "Out of sanity" cannot happen |
| HeapInvariant.MagicMeansBusy | src/modules/heap_mod/heap.cpp:52-60 | the word before a block is the magic exactly when the block before is busy |
| HeapInvariant.UnlinkKeepsLists | src/modules/heap_mod/heap.cpp:171 | taking one block out through the pointer-to-pointer leaves 41 agreeing lists without that block |
| HeapInvariant.PushKeepsLists | src/modules/heap_mod/heap.cpp:323-324 | filing a block at a list head leaves 41 agreeing lists with it |
| HeapSteps.MergeKeepsInv | src/modules/heap_mod/heap.cpp:161-171 | one merge keeps tiling, tags and lists in agreement |
| HeapSteps.MergeCoalesces | src/modules/heap_mod/heap.cpp:161-171 | and conserves free bytes, leaves busy blocks as they are and writes only headers |
| HeapSteps.MoveKeepsInv | src/modules/heap_mod/heap.cpp:188-196 | one refiling keeps the three views in agreement and every block in place |
| HeapSteps.TakeIsPending | src/modules/heap_mod/heap.cpp:228-231 | a block taken whole is busy in every view but the tag after it |
| HeapSteps.SplitIsPending | src/modules/heap_mod/heap.cpp:214-225 | a block cut off the tail likewise, and it ends where its origin ended |
| HeapSteps.SealKeepsInv | src/modules/heap_mod/heap.cpp:291-292 | the magic written after it brings all views back into agreement, other busy blocks untouched |
| HeapSteps.ReleaseKeepsInv | src/modules/heap_mod/heap.cpp:319-326 | freeing keeps the three views in agreement and all other busy blocks as they are |
| HeapTheorems.PayloadsDisjoint | src/modules/heap_mod/heap.cpp:299-300 | payloads of busy blocks lie in the arena and meet neither each other nor a header |
| HeapTheorems.PayloadUntouched | src/modules/heap_mod/heap.cpp:141-332 | a step that writes only headers leaves every record that covers a byte of a busy block's payload as it was |
| HeapTheorems.MagicMeansNoFreeNeighbours | src/modules/heap_mod/heap.cpp:161 | all free blocks carry the magic exactly when no two neighbours are free |
| HeapTheorems.AllFreedIsOneBlock | src/modules/heap_mod/heap.cpp:84 | with everything freed and merged one block of (end - start) minus three headers is left |
| HeapTheorems.MoveOfOtherHeadIsIdentity | src/modules/heap_mod/heap.cpp:190-195 | refiling the head of the catch-all list gives back the same heap |
| HeapTheorems.MovePassEndsIff | src/modules/heap_mod/heap.cpp:180-202 | the move pass over a list ends unless it is the catch-all with a head no larger than the largest exact class |
| HeapTheorems.SettledEverywhere | src/modules/heap_mod/heap.cpp:145-146 | after the merge pass over all lists no two neighbours are free |
| HeapTheorems.SpinsAsPredicted | src/modules/heap_mod/heap.cpp:148-149 | whether the last move pass spins is decided by the lists as merging left them |
| HeapForecast.MergeMerges | src/modules/heap_mod/heap.cpp:161-171 | one merge keeps the size of every run of free blocks and, in every list and in order, the blocks that start a run |
| HeapForecast.SpinsAsForecast | src/modules/heap_mod/heap.cpp:141-150 | whether the move passes spin was decided by lists, tags and run sizes before the merge passes |
| HeapForecast.CompactedAsForecast | src/modules/heap_mod/heap.cpp:141-202 | after all passes each run is its first block, in its exact list if still of that class and else in the catch-all list |
| HeapForecast.SnugAfterMoves | src/modules/heap_mod/heap.cpp:180-202 | after the passes no block of an exact list is larger than its class, and busy ones exceed theirs by less than a header and the smallest class |
| HeapForecast.NothingFitsAsForecast | src/modules/heap_mod/heap.cpp:204-236 | the search after coalescing finds nothing exactly when no run that went to the catch-all list is large enough |
| HeapAllocation.RequestShape | src/modules/heap_mod/heap.cpp:276-285 | a request is rounded to the next aligned size above it, and from there to the least class larger than the request when an exact one is |
| HeapAllocation.OffFirstIsOffRun | src/modules/heap_mod/heap.cpp:238-257 | what the search after coalescing cuts from the catch-all list was the end of a run of free blocks before |
| HeapAllocation.SplitCarves | src/modules/heap_mod/heap.cpp:214-225 | a split takes exactly the new block's bytes out of the free bytes and changes no other busy block |
| HeapAllocation.ReleaseIs | src/modules/heap_mod/heap.cpp:319-326 | the words `free` writes; exactly the block's bytes become free and it heads its list unchanged |
| Heap.Heap.constructor | src/modules/heap_mod/heap.cpp:62-98 | a fresh heap is valid with one free block of (end - start) minus three headers in the catch-all list, other memory unchanged |
| Heap.Heap.CoalesceMergeBlocks | src/modules/heap_mod/heap.cpp:152-178 | the merge pass over a list ends with no block of it behind a free one, and keeps run sizes and the blocks that start runs |
| Heap.Heap.CoalesceMoveBlocks | src/modules/heap_mod/heap.cpp:180-202 | the move pass spins exactly on a misfit catch-all head, then with nothing changed; else it refiles and keeps the invariant |
| Heap.Heap.Coalesce | src/modules/heap_mod/heap.cpp:141-150 | spins exactly when the state before says so; else every run is its first block, filed as forecast; busy blocks and free bytes kept |
| Heap.Heap.FirstFit | src/modules/heap_mod/heap.cpp:210-212 | the search finds the first fitting block of the catch-all list, all before it too small, or none when none fits |
| Heap.Heap.GetNewBlockInternal | src/modules/heap_mod/heap.cpp:204-236 | NULL exactly when no block of the catch-all list fits; else exactly the bytes needed off the end of the first that does, or all of it when less than a smallest block would be left |
| Heap.Heap.GetNewBlock | src/modules/heap_mod/heap.cpp:238-257 | search, coalesce, search again, with the whole class size: when it never returns, when it returns NULL, and which block or run is cut, all told from the state before |
| Heap.Heap.Allocate | src/modules/heap_mod/heap.cpp:259-301 | exactly when it never returns and when it returns NULL; else a new block as large as asked that wastes less than a header and the smallest class, and where it comes from; all told from the state before, all other blocks kept |
| Heap.Heap.Free | src/modules/heap_mod/heap.cpp:303-332 | NULL and the null marker change nothing; a live pointer's bytes become free and no others |
| HeapSession.RunServes | src/modules/heap_mod/heap.cpp:259-332 | at every point of any run the busy blocks are exactly the outstanding allocations, each as large as asked |
| HeapSession.RunServesDisjointly | src/modules/heap_mod/heap.cpp:259-332 | outstanding allocations lie in the arena and never overlap |
| HeapSession.RunKeepsPayload | src/modules/heap_mod/heap.cpp:141-332 | as long as a block is outstanding no record that covers a byte of it is written, over any stretch of any run |
| HeapSession.Run | src/modules/heap_mod/heap.cpp:62-332 | the object's replies and states are such a run of the requests; the live blocks are those outstanding; it stops early only before a request that hangs |
| HeapSession.FirstRequest | src/modules/heap_mod/heap.cpp:62-301 | on a fresh arena a request that does not fit hangs if the room is at most the largest exact class, and gets NULL if it is more |
| HeapSession.HangsAtOnce | src/modules/heap_mod/heap.cpp:180-202 | a fresh heap of 256 bytes never answers a request for 1000 |
| HeapSession.ExactListsAreNotSearched | src/modules/heap_mod/heap.cpp:204-257 | when every run stays in its exact list, a request of a class without blocks is refused, however large the runs are |
| HeapSession.NullWithRoom | src/modules/heap_mod/heap.cpp:204-257 | allocate, free and allocate again: NULL for 100 bytes with 152 free and nothing in use |
| BTree.BTree.Probe | src/tools/mettafs/btree.cpp:114-132 | the binary search finds the key if it is there, and else the probe names the child in whose place it would be |
| BTreeShape.OnePerLevel | src/tools/mettafs/btree.cpp:45-53 | at each height only one node's interval contains a key |
| BTree.BTree.Search | src/tools/mettafs/btree.cpp:106-135 | a node with the key exactly when the tree has it; else `search_result` is the leaf whose interval contains it |
| BTree.BTree.Slot | src/tools/mettafs/btree.cpp:160-161 | the scan stops at the one place that keeps the keys sorted |
| BTreeSplit.LeafInsertKeeps | src/tools/mettafs/btree.cpp:162-163 | a key put into the leaf found keeps the shape, but for one key too many there, and adds exactly that key |
| BTreeSplit.SplitIntoKeeps | src/tools/mettafs/btree.cpp:193-266 | a split below the root keeps shape and keys and passes the fullness to the parent |
| BTreeSplit.SplitRootKeeps | src/tools/mettafs/btree.cpp:221-240 | a split of the root keeps shape and keys one level higher and ends the overflow |
| BTree.BTree.MoveRightHalf | src/tools/mettafs/btree.cpp:195-220 | the copying and erasing loop moves exactly the right half and its children's parent pointers, and takes the middle key out |
| BTree.BTree.SplitInsert | src/tools/mettafs/btree.cpp:184-276 | the upward loop ends by the distance to the root with a well-formed tree of the same keys |
| BTree.BTree.Insertion | src/tools/mettafs/btree.cpp:137-181 | adds exactly a missing key, refuses a present one, keeps sortedness, bounds, leaf depth, parents and counts |
| BTreeTravel.VisitMore | src/tools/mettafs/btree.cpp:96-100 | a child and the key after it extend the visited keys by exactly theirs, in order |
| BTree.BTree.Travel | src/tools/mettafs/btree.cpp:91-103 | visits exactly the keys of the subtree in increasing order, at least as many as order and height demand |
| BTree.BTree.Contents | src/tools/mettafs/btree.cpp:83 | every key once in increasing order; at least 2(k+1)^(h-1) - 1 of them at h levels for k = (n-1)/2 |
| ExceptionSimulation.Simulate | src/kernel/arch/x86/exceptions.h:98-175 | code of a statement, run from its start, acts and leaves the handler stack as the statement means |
| ExceptionTheorems.ExpansionCorrect | src/kernel/arch/x86/exceptions.h:84-175 | the macro expansion of any program performs its actions in order, ends with an empty stack, or panics with the exception it raises |
| ExceptionLanguage.TryCatchMeans | src/kernel/arch/x86/exceptions.h:117-145 | the first clause that names the exception of the body runs after it; without one the catch-all; without that the block ends as its body does |
| ExceptionLanguage.ReraisedGoesOn | src/kernel/arch/x86/exceptions.h:117-145 | a clause that only reraises passes on the exception it took |
| ExceptionLanguage.FinallyMeans | src/kernel/arch/x86/exceptions.h:135-175 | the cleanup runs after the body however that ended, and its own exception goes before the body's |
| ExceptionTheorems.UncaughtPanics | src/kernel/arch/x86/exceptions.h:84-175 | compiled and run, an exception that no clause names panics with exactly the body's actions performed |
| ExceptionTheorems.CaughtByFirst | src/kernel/arch/x86/exceptions.h:84-175 | compiled and run, exactly the first clause that names the exception acts after the body |
| ExceptionTheorems.NothingOdd | src/modules/exceptions_mod/exception_system.cpp:34-48 | at no step is a used context met in the raise loop, and every trace walk ends at NULL without the 0x1 placeholder or a cycle |
| ExceptionSystem.ExceptionSupport.PushContext | src/modules/exceptions_mod/exception_system.cpp:85-106 | the machine's push; a block newer than a well-formed stack goes on top of it and the stack stays well-formed |
| ExceptionSystem.ExceptionSupport.InternalRaise | src/modules/exceptions_mod/exception_system.cpp:26-76 | the machine's raise; on a well-formed stack the innermost context takes the exception and the outer ones stay, or without one it panics |
| ExceptionSystem.ExceptionSupport.PopContext | src/modules/exceptions_mod/exception_system.cpp:108-135 | the machine's pop; it returns to the outer stack, or passes an active exception to the context around, none skipped |
| ExceptionSystem.PopUndoesPush | src/modules/exceptions_mod/exception_system.cpp:85-135 | a context pushed and popped leaves the stack and the contexts on it as they were, but for `down` links |
| ExceptionSystem.ExceptionSupport.WalkDown | src/kernel/arch/x86/exceptions.h:160-169 | the walk over `down` ends at NULL exactly when the chain is finite and live |
| AlignMasks.MasksAlign | src/kernel/generic/memory.h:69-73 | for a power of two the masks give the one padding below it that clears the low bits |
| ElfLayout.PaddingIsUnique | src/kernel/generic/memory.h:69-73 | the padding is the only one below the size that leaves no remainder |
| ElfLayout.LayOut | src/kernel/generic/module_loader.cpp:368-398 | each allocated section's header gets the address of the layout, all others keep theirs |
| ElfLayout.LayoutIsSound | src/kernel/generic/module_loader.cpp:368-398 | allocated sections are ordered, disjoint, aligned and inside the space computed |
| ElfLayout.LayoutIsTight | src/kernel/generic/module_loader.cpp:368-398 | a section stands at the first aligned address past the section before it and its own offset |
| ElfLayout.LayoutShifts | src/kernel/generic/module_loader.cpp:312-398 | bases whole pages apart give every section the same offset |
| ElfRelocation.EachAlone | src/kernel/generic/elf_parser.cpp:280-287 | relocations that share no byte each see and leave their word as if alone, and nothing else changes |
| ElfRelocation.ResultIsPrescribed | src/kernel/generic/elf_parser.cpp:298-346 | in 32 bits: symbol plus addend for R_386_32, that sum less the place for R_386_PC32, the addend for R_386_NONE, 0xdeadbeef for others |
| ElfRelocation.FilledHolds | src/kernel/generic/module_loader.cpp:404-425 | every loaded section reads back as its file bytes or zeros |
| ElfRelocation.LoadedElsewhere | src/kernel/generic/module_loader.cpp:404-502 | loading changes nothing outside the space laid out |
| ElfRelocation.LoadedAsMeant | src/kernel/generic/module_loader.cpp:364-502 | in a loaded module every relocated word is so prescribed by the file's word and by section address plus symbol value |
| ElfRelocation.BaseIndependence | src/kernel/generic/elf_parser.cpp:298-346 | two relocated copies a distance apart: absolute words differ by it, all other words and bytes agree |
| ElfRelocation.LoadingIsBaseIndependent | src/kernel/generic/module_loader.cpp:364-502 | the same for a module laid out, filled and relocated at two page-aligned bases in any memory |
| ModuleLoader.PatchSymbols | src/kernel/generic/module_loader.cpp:479-499 | symbols below section type move with their section in 32 bits, others stay |
| ModuleLoader.Loader.FillSections | src/kernel/generic/module_loader.cpp:401-425 | memory is filled section by section and the end is raised to every section's end |
| ModuleLoader.Loader.ApplyRelocation | src/kernel/generic/elf_parser.cpp:298-346 | one word is rewritten to what its type prescribes of the old word, the symbol's section and value, and the place; undefined symbols panic |
| ModuleLoader.FixesAre | src/kernel/generic/elf_parser.cpp:264-290 | the relocations applied are exactly the entries of the relocation sections for allocated sections |
| ModuleLoader.Loader.RelocateTo | src/kernel/generic/elf_parser.cpp:254-293 | exactly the relocations of relocation sections for allocated sections are applied, in order, unless one is undefined; without section names none is, and it says so |
| ModuleLoader.ModulesDisjoint | src/kernel/generic/module_loader.cpp:504-521 | later modules lie wholly above earlier descriptors |
| ModuleLoader.Loader.ModuleAlreadyLoaded | src/kernel/generic/module_loader.cpp:118-137 | the walk ends and is true exactly for the names of loaded modules |
| ModuleLoader.Loader.LoadedModuleNames | src/kernel/generic/module_loader.cpp:140-157 | the names of all loaded modules, newest first |
| ModuleLoader.Loader.PlaceDescriptor | src/kernel/generic/module_loader.cpp:504-522 | the descriptor ends the first page with room for it above all that was loaded, and links to the one before |
| ModuleLoader.Loader.LoadModule | src/kernel/generic/module_loader.cpp:279-545 | exactly which calls load, find a loaded module or panic; a load puts sections, tables and descriptor apart above everything before and becomes the newest, also when it was left unrelocated; its relocated words are as prescribed |
| BootImageFormat.NeededAlign | src/tools/buildboot/buildboot.cpp:57-62 | the least padding to a multiple of four |
| BootImageWriter.StringTable.Append | src/tools/buildboot/buildboot.cpp:157-164 | the string and its zero go to the end, whose old offset is returned |
| BootImageWriter.ModuleNamespace.constructor | src/tools/buildboot/buildboot.cpp:245-266 | entries and string table are those of the namespace, keys and string values in the table |
| BootImageWriter.Writer.AlignOutput | src/tools/buildboot/buildboot.cpp:64-70 | zeros up to a multiple of four, and the offset moves along |
| BootImageWriter.Writer.WriteNamespace | src/tools/buildboot/buildboot.cpp:273-290 | the namespace bytes with offsets made file positions, the offset still at the write position |
| BootImageWriter.Writer.WriteModuleHeader | src/tools/buildboot/buildboot.cpp:367-388 | the six header words and the name |
| BootImageWriter.Writer.WriteRootDomainHeader | src/tools/buildboot/buildboot.cpp:390-412 | the seven header words and the name |
| BootImageWriter.Writer.WriteModule | src/tools/buildboot/buildboot.cpp:414-454 | exactly the module's record is appended and the offset equals the write position again |
| BootImageWriter.WriteImage | src/tools/buildboot/buildboot.cpp:587-601 | the output is the image of the modules in order |
| BootImage.HeadIs | src/tools/buildboot/buildboot.cpp:375-380 | the header words of a written record, read back, point to its name, namespace and file |
| BootImage.FindsExpected | src/kernel/arch/x86/bootimage.cpp:123-152 | the walk over a written image finds the first matching record and ends if there is none |
| BootImage.FindIsRight | src/kernel/arch/x86/bootimage.cpp:154-175 | the finders return the first matching module's file, aligned, with the size of file and padding, and nothing exactly when none matches |
| BootImage.TableSays | src/tools/buildboot/buildboot.cpp:245-266 | every entry's offsets lead to its own key and string in the table |
| BootImage.LookupIsFirst | src/kernel/arch/x86/bootimage.cpp:27-64 | on any bytes the answer is the value word of the first entry with both the key and the tag, or nothing when none has |
| BootImage.LookupIsRight | src/kernel/arch/x86/bootimage.cpp:27-64 | in a written namespace something is found exactly when an entry has the key and type, and it is the value of the first such entry |
| BootImage.NamespaceOffsetIff | src/tools/buildboot/buildboot.cpp:380 | the stored namespace offset is zero exactly for no entries and a name that needs no padding |
| BootImage.Namespace.GetInt | src/kernel/arch/x86/bootimage.cpp:27-38 | found exactly when an entry has the key and the integer tag, with the signed value of the first such entry |
| BootImage.Namespace.GetString | src/kernel/arch/x86/bootimage.cpp:40-51 | found exactly when an entry has the key and the string tag, with the text that the first such entry points to |
| BootImage.FindEntryFrom | src/kernel/arch/x86/bootimage.cpp:123-152 | the cursor loop computes the walk, on any bytes |
| BootImage.RootDomainString | src/kernel/arch/x86/bootimage.cpp:154-167 | written then read: the first root domain's file, and the first string written under the key in its namespace |
| WriteBack.PutIsTransparent | src/tools/mettafs/block_cache.cpp:347-391 | writing a block through the cache is writing it on the device seen through the cache |
| WriteBack.FlushIsTransparent | src/tools/mettafs/block_cache.cpp:151-174 | a flush, complete or cut short, changes nothing seen through the cache |
| WriteBack.FlushSucceedsIff | src/tools/mettafs/block_cache.cpp:164-173 | it succeeds exactly when no waiting block of the device is refused, and then only other devices' blocks wait, in order |
| WriteBack.FlushIsDurable | src/tools/mettafs/block_cache.cpp:151-174 | after success the device alone holds what was seen for each of its blocks |
| WriteBack.RunKeeps | src/tools/mettafs/block_cache.cpp:151-391 | over any run the device seen through the cache equals direct writes, and the list holds last writes in their order, each block once |
| WriteBack.WaitsIff | src/tools/mettafs/block_cache.cpp:151-391 | whatever devices refuse, a block waits exactly when written after the last flush that got past it |
| WriteBack.RunThenFlush | src/tools/mettafs/block_cache.cpp:151-174 | a run and a flush leave on the device the last write of each of its blocks, other devices' entries untouched |
| WriteBack.StuckIff | src/tools/mettafs/block_cache.cpp:191-228 | whatever devices refuse, a run gets stuck exactly at a write whose block does not wait when as many distinct blocks were written as the cache holds |
| WriteBack.FewBlocksNeverStick | src/tools/mettafs/block_cache.cpp:191-228 | a run over fewer distinct blocks than the capacity always returns |
| WriteBack.RewriteAfterFlushSticks | src/tools/mettafs/block_cache.cpp:170 | the null entry counts: one block written, flushed and written again is too much for a cache of one |
| BlockCache.Block.LinkAtMru | src/tools/mettafs/block_cache.cpp:66-81 | the block becomes the last of the list, links in both directions agreeing |
| BlockCache.Block.UnlinkFrom | src/tools/mettafs/block_cache.cpp:107-120 | the block leaves the list, the others keep their order and links, both its links are null |
| BlockCache.Cache.BlockLookup | src/tools/mettafs/block_cache.cpp:135-146 | a block exactly when one waits for the key; null entries count as missing |
| BlockCache.Cache.GetBlocks | src/tools/mettafs/block_cache.cpp:191-228 | fresh blocks exactly while the map has room; otherwise the search finds no usable block |
| BlockCache.Cache.CachedWrite | src/tools/mettafs/block_cache.cpp:339-394 | the state after is that of its block writes one by one; when it throws or never returns |
| BlockCache.Cache.FlushDevice | src/tools/mettafs/block_cache.cpp:151-174 | device and list after are those of the specified flush, keys stay in the map |
| BlockCache.Perform | src/tools/mettafs/block_cache.cpp:151-394 | each call of a run leads to the run's state, seen through the cache as direct writes |
| Leb128.UnsignedRoundTrip | src/tools/parsedwarf/leb128.h:60-73 | every unsigned 32-bit value encoded is decoded, stopping right after it |
| Leb128.SignedRoundTrip | src/tools/parsedwarf/leb128.h:22-42 | every signed 32-bit value likewise |
| Leb128.DecodeUnsigned | src/tools/parsedwarf/leb128.h:60-73 | the shifting loop computes the positional value in 32 bits, on any bytes |
| Leb128.DecodeSigned | src/tools/parsedwarf/leb128.h:22-42 | with sign extension below 32 bits it computes the signed value, on any bytes |
| DwarfForms.ValueRoundTrip | src/tools/parsedwarf/form_reader.cpp:63-222 | every value a form can carry, indirect ones included, is read back and reading stops after it |
| DwarfForms.DecodeValue | src/tools/parsedwarf/form_reader.cpp:13-222 | the readers compute the specified reading, on any bytes |
| DwarfForms.FormsAre | src/tools/parsedwarf/form_reader.cpp:63-222 | every form named by the standard is read with its own width, length or encoding, on any bytes |
| DwarfAbbrev.TableRoundTrip | src/tools/parsedwarf/dwarf_abbrev.cpp:13-60 | every abbreviation table is read back with its closing entries, stopping after it |
| DwarfAbbrev.FindDeclared | src/tools/parsedwarf/dwarf_abbrev.cpp:63-71 | in a table without repeated codes each declaration is found by its code |
| DwarfAbbrev.AbbrevTable.LoadAbbrevSet | src/tools/parsedwarf/dwarf_abbrev.cpp:37-61 | the object's table is the one read, the old one cleared |
| DwarfAbbrev.AbbrevTable.FindAbbrev | src/tools/parsedwarf/dwarf_abbrev.cpp:63-71 | the first entry of the code, or none |
| DwarfTree.AttrMapIs | src/tools/parsedwarf/dwarf_info.cpp:64-69 | with distinct names the attribute map is exactly the values written under their names |
| DwarfTree.TreeRoundTrip | src/tools/parsedwarf/dwarf_parser.cpp:63-100 | any finite tree that fits the abbreviations is rebuilt entry for entry, stopping right after its last byte |
| DwarfTree.SiblingsRoundTrip | src/tools/parsedwarf/dwarf_parser.cpp:80-100 | sibling chains closed by null entries are rebuilt in order |
| DwarfTree.TreeRises | src/tools/parsedwarf/dwarf_info.cpp:51 | whatever the bytes, offsets of the entries read rise strictly in preorder within the bytes read |
| DwarfTree.FoundIffThere | src/tools/parsedwarf/dwarf_info.cpp:107-120 | a search by offset finds exactly the one entry that starts there |
| Dwarf.DieNode.Decode | src/tools/parsedwarf/dwarf_info.cpp:49-76 | the node shows code, tag, children flag and attributes read, or a null entry |
| Dwarf.DieNode.BuildTreeRecurse | src/tools/parsedwarf/dwarf_parser.cpp:80-100 | the node's children are the siblings read, each child pointing back to it |
| Dwarf.BuildTree | src/tools/parsedwarf/dwarf_parser.cpp:63-78 | the linked tree is the tree read, with parents, or null for a degenerate one |
| Dwarf.FindNode | src/tools/parsedwarf/dwarf_info.cpp:107-120 | the node found is the entry at the offset |
| MersenneTwister.TermShift | src/runtime/MersenneTwister.h:186-200 | the next block started afresh continues the unbounded sequence |
| MersenneTwister.MTRand.Initialize | src/runtime/MersenneTwister.h:169-184 | the state is the seeded block |
| MersenneTwister.MTRand.Reload | src/runtime/MersenneTwister.h:186-200 | in place, every word becomes the term N places later |
| MersenneTwister.MTRand.RandInt | src/runtime/MersenneTwister.h:287-301 | the next tempered term, the stream otherwise going on, reload or not |
| MersenneTwister.DrawMany | src/runtime/MersenneTwister.h:202-207 | the k-th draw from a seed is the tempered k-th new term of the recurrence |
| MersenneWords.TwistIsMatrix | src/runtime/MersenneTwister.h:130-138 | the high bit of one word and the low bits of the next are multiplied by the matrix of the recurrence |
| MersenneWords.TemperRoundTrip | src/runtime/MersenneTwister.h:295-300 | tempering maps the words one to one |
| MersenneTwister.FirstSeeds | src/runtime/MersenneTwister.h:169-184 | the seed 5489 gives the published first state words |
| MersenneTwister.MaskCovers | src/runtime/MersenneTwister.h:303-320 | the mask covers the bound, is a run of ones and is the least such |
| MersenneTwister.MTRand.RandUpTo | src/runtime/MersenneTwister.h:303-320 | the first draw at most the bound once masked, if there is one, and the stream goes on right after it; without one the loop of the source does not end |
| MersenneTwister.SaveThenLoad | src/runtime/MersenneTwister.h:367-384 | a saved generator loaded into another gives the same stream |
| EventCounts.MutualExclusionIff | src/runtime/event_counts.h:55-58 | over all threads and interleavings at most one holds the lock exactly when tickets start above 0 |
| EventCounts.ZeroAdmitsTwo | src/runtime/event_counts.h:55-58 | the interleaving in which two threads hold the lock when tickets start at 0 |
| EventCounts.FirstLockPassesIff | src/runtime/event_counts.h:55-57 | the first request for a free lock passes exactly when tickets do not start above 1 |
| EventCounts.GrantedInTicketOrder | src/runtime/event_counts.h:57-58 | with tickets from 1 the lock is granted in ticket order over every interleaving |
| EventCounts.LockPassesIff | src/runtime/event_counts.h:55-58 | over every interleaving a ticket gets the lock exactly when it is at most one more than the times the lock was given back |
| EventCounts.BroadcastReleases | src/runtime/event_counts.h:68-85 | a thread waiting when a broadcast begins may pass once that broadcast has finished, whatever any thread did meanwhile or since |
| EventCounts.BroadcastWakesExactly | src/runtime/event_counts.h:79-85 | a broadcast that nothing comes in between wakes exactly the threads that took their tickets before it |
| EventCounts.SignalsWake | src/runtime/event_counts.h:75-78 | over every interleaving a waiter whose ticket is at most the number of signals may pass, and without a broadcast no other |
| EventCounts.WaitEndsUnaskedIff | src/runtime/event_counts.h:68-74 | a wait can end with nobody signalling exactly when tickets start at 0 |

## Left out

- Heap: `realloc`, `expand`, `contract`, `check_integrity` and the locking around the heap; the bytes of user payloads, which no heap step reads.
- Heap.Heap.Free: is stated for NULL, the null marker and live pointers only; the source checks nothing else.
- BTree: deletion, which the source declares but does not define, and orders below 3, whose splits make empty nodes.
- Exceptions: `return` out of an OS_TRY body, CATCH together with FINALLY, the argument, file and line fields, calls and loops, and storage shared by contexts of sibling OS_TRY blocks.
- ModuleLoader.Loader.LoadModule: does not model the bytes of the symbol and string tables, closure lookup in them, the bootinfo memory map, or wrap-around at the top of the address space; indices into tables are in range, as the source takes for granted.
- ModuleLoader.Loader.ModuleAlreadyLoaded: names are shorter than the 32 bytes of the descriptor, so none is truncated.
- BootImage: images not written by the writer are read only as far as the bytes reach, cursor wrap-around is not modelled; parsing of the component list, `add_ns_entry` and file errors.
- BlockCache: `cached_read`, `byte_read`, eviction of clean blocks, busy blocks of a threaded build, and wrap-around of block numbers; block contents are sequences, not shared buffers.
- Dwarf: line programs, address ranges, `find_address`, unit headers and printing; wrap-around of offsets.
- DwarfForms.DecodeValue: a string-pool reference is its offset, not the text it points to.
- MersenneTwister.MTRand.RandUpTo: is stated for streams that have a draw within the bound, because otherwise the loop of the source does not end and there is no result to describe.
- MersenneTwister: seeding from an array or the default seed, and floating-point output.
- EventCounts: wrap-around of the 64-bit counters, timeouts, channels and destruction.
- Hash-table modules, drivers, consoles, paging, the interface compiler and the naming contexts.

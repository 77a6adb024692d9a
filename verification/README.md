# Verification model of the LFI runtime

This project models the parts of the LFI sandbox runtime whose correctness depends on state and
arithmetic spread over several functions, and proves what those parts are for. Every statement is for
all inputs, all runs, or all reachable states of the modelled component.

| component | files |
|---|---|
| page map: interval map, placement, box operations, program break | RangeMap, AddrSpace, Box, Brk |
| path engine: segment texts, resolver, iterator, bounded output, host paths | PathText, PathResolve, PathLaws, Cursor, PathBuild, PathCompare, HostPath |
| process lifecycle and the threads list | Lifecycle, Progress, List |
| x64 transitions and the `%gs` cache | Transitions, GsCache |
| sandbox address allocator | ExtAlloc, Slots, BoxMap, Engine |
| initial stack image and descriptor table | EntryLayout, StackImage, FdTable |

`Wrappers.dfy` holds the option type, the path limit, facts about increasing sequences and a few facts
about products and quotients.

Code that changes things step by step is a class or a method with the same fields, loops and branches;
it is proved against a function or predicate that says what it is for, and lemmas state the laws of
those functions. What the kernel, the instruction verifier, `malloc` and the random source answer is
a parameter or an arbitrary choice, so each contract holds for every answer.

## What is proved

**Page map.** `RangeMap` is a partial function from page to value in canonical form: `Insert` and
`Remove` change the function on the given range only, and two canonical maps with one meaning have the
same entries. `FindFree` fails only when no run exists, takes the lowest start without randomisation,
and otherwise the start at index `rnd % total` of the increasing list of all starts. `Protect` walks a
snapshot and still changes only the protection of the mapped pages of its range. A failed
`box_mapany_locked` restores the entries exactly. Over any sequence of operations, the last one that
touched a mapped page gave it the protection it has, with the agreement of the host, and passed the
checks for it: an executable page is not writable and the verifier accepted its range, or verification was
skipped and it is writable only if `allow_wx` is set. What the verifier accepts and the host maps is not
refused. The bytes read are the whole page exactly when the size is a multiple of the page size
or the page is not the last of its range (`WholePage`). The break never leaves its region, and every call
that grows it maps exactly the pages between the old and the new break, both rounded up, so a live heap
page keeps its contents.

**Paths.** The decisions of the forward and backward counters are those of a stack resolver, for every
list of segments (`CountersAreStack`). Normalisation and relative paths are exact for every buffer size
and terminate the buffer. For absolute paths, joining a base with its relative path to a target gives
the normal form of the target. For relative paths this is false in general: from `..` to `a` it fails
(`RelativeFails`), and `JoinRelative` says exactly when it holds. `path_resolve` picks the first map
that shares the most segments with the request, read from the working directory unless it is absolute,
and what it returns leads to the host directory and on through normal segments only.

**Lifecycle.** Over every interleaving the process is destroyed at most once, only when nobody uses it
and while no step of anyone else touches it, nothing touches it afterwards, a run that everyone leaves
ends with exactly one destroy, and no wakeup is lost. From every state of every run, unless cloning
failed, the parties can go on to the end by steps that start nothing new (`CanAlwaysFinish`).

**Transitions.** For every nesting of invoke, callback, system call, return and exit on one context,
every invoke comes back to the frame its own trampoline pushed exactly when no system call handler that
is reached invokes on the same context, because `lfi_syscall_entry` does not restore `REGS_HOST_SP`, and
`lfi_ctx_exit` is not called from inside an invoke (`LandsIff`); then everything else is given back too.
`ReentryFails` is the smallest failure of the first kind. What is reached is read off the program and the
abort flag alone (`FlagOfRun`). `lfi_ctx_run` is left correctly exactly when, in addition, the code
directly under it ends in `lfi_ctx_exit`: an aborted callback there unwinds a frame of the wrong shape
(`AbortUnderRunFails`). `core/include/lfi_core.h` says that `lfi_ctx_exit` inside an invocation aborts;
the code aborts only when `in_ctx_run` is clear, and under `lfi_ctx_run` such a call returns to address 0
(`ExitInsideFails`).

Sandbox code always runs with the reserved registers right, and code invoked from a callback is entered
strictly below the sandbox stack pointer of that callback (`EntersBelow`).

`%gs` is right whenever sandbox code executes if one thread runs a context at a time. When threads share
contexts it can be wrong: `SharingBreaks` gives such a run from every state with two threads in host code
and contexts of two boxes. `SharedRightIff` says exactly when it is right throughout a run: no
`seg_gs_set` finds the base in the slot it compares while the register of its own thread holds another
value.

**Allocator.** With one footprint the bit vector is always a row of whole slots, so allocation succeeds
exactly when fewer boxes are live than there are slots, every box lies at least the guard inside its
mapping, and one chunk of slack covers any alignment. After a successful `lfi_new` for n boxes, n boxes
can be created, and every refusal comes with n or more boxes live, exactly when the size it computes does
not wrap around 64 bits; `WrapExample` is a request for 2^31 boxes that reserves room for none.

**Stack and descriptors.** A reader that follows the process entry layout of the System V ABI (AMD64
supplement, sections 3.4.1 and 3.4.3) finds the accepted arguments and environment, each string cut at
its maximum length, and the auxiliary vector; when the stack is larger than the fixed part every write
lies inside it. Every open host descriptor is in one slot, borrowed, or not the table's, after every
operation, and no operation changes what a borrowed or foreign descriptor stands for. Over the whole life
of a table, with any calls and with others opening and closing meanwhile, what is open in the end is
exactly what belongs to others, each for its own file, and each descriptor the table made or took over
was closed once for each time it was made or taken (`Lifetime`).

## Model

| member | source | states |
|---|---|---|
| RangeMaps.CanonicalUnique | core/mmap/range_map.h:36-97 | two canonical maps that mean the same function have the same entries |
| RangeMaps.CutMeaning | core/mmap/range_map.h:80-96 | what the erase loop and its stubs leave is the old function without the range |
| RangeMaps.CutCanonical | core/mmap/range_map.h:69-97 | trimming and splitting keeps the map canonical |
| RangeMaps.MergeCanonical | core/mmap/range_map.h:164-181 | merging a touching pair of equal values restores the canonical form around it |
| RangeMaps.RangeMap.Find | core/mmap/range_map.h:26-34 | finds the entry that covers the point exactly when the function is defined there, with its value |
| RangeMaps.RangeMap.Insert | core/mmap/range_map.h:38-67 | the new function is the old one overridden on the range; the form stays canonical |
| RangeMaps.RangeMap.Remove | core/mmap/range_map.h:71-97 | the new function is the old one undefined on the range; the form stays canonical |
| RangeMaps.RangeMap.EraseOverlapping | core/mmap/range_map.h:47-58 | erases exactly the overlapping entries and keeps what sticks out on either side |
| RangeMaps.RangeMap.Coalesce | core/mmap/range_map.h:164-181 | merges with equal touching neighbours without changing the function |
| RangeMaps.RangeMap.OverlapBegin | core/mmap/range_map.h:143-161 | every entry before it ends by start, every entry from it ends after start |
| RangeMaps.RangeMap.Overlaps | core/mmap/range_map.h:100-105 | true exactly when some point of the range is mapped |
| RangeMaps.RangeMap.GetOverlapping | core/mmap/range_map.h:108-117 | exactly the entries overlapping the range, in order |
| RangeMaps.RangeMap.GetGaps | core/mmap/range_map.h:120-135 | exactly the maximal unmapped stretches of the range, in order |
| AddrSpaces.StartsEnumerate | core/mmap/mmap.cpp:65-81 | counting through the gaps enumerates every start that fits, once each, in order |
| AddrSpaces.FirstFit | core/mmap/mmap.cpp:56-64 | the first start that fits, or none exactly when no gap is long enough |
| AddrSpaces.UniformFit | core/mmap/mmap.cpp:65-82 | the start at index rnd mod total of all starts; the final return is never reached |
| AddrSpaces.AddrSpace.FindFree | core/mmap/mmap.cpp:54-83 | complete and exact: fails only when no run of free pages exists; without randomisation no candidate is lower, with it the indexed start |
| AddrSpaces.AddrSpace.CandidatesMeaning | core/mmap/mmap.cpp:50-53 | the candidates are exactly the starts of runs of free pages in the region |
| AddrSpaces.PowerOfTwo | core/mmap/mmap.cpp:14-15 | the bit test accepts exactly the powers of two |
| AddrSpaces.PageShift | core/mmap/mmap.cpp:16-19 | the loop finds the exponent of the page size |
| AddrSpaces.AddrSpace.Create | core/mmap/mmap.cpp:13-26 | refuses exactly the page sizes that are no power of two; else everything unmapped, base and length in pages, the length rounded up |
| AddrSpaces.AddrSpace.MapAny | core/mmap/mmap.cpp:85-110 | places at a free hint or where FindFree says, no free run being lower without randomisation, and maps those pages and no others |
| AddrSpaces.AddrSpace.MapAt | core/mmap/mmap.cpp:112-131 | the pages of the range get the new info, the others keep theirs; errors change nothing |
| AddrSpaces.AddrSpace.Unmap | core/mmap/mmap.cpp:133-158 | unmaps the range; the callback sees disjoint pieces that are the mapped pages with their old info |
| AddrSpaces.AddrSpace.QueryPage | core/mmap/mmap.cpp:160-166 | the info of the page, if it is mapped |
| AddrSpaces.AddrSpace.Protect | core/mmap/mmap.cpp:168-194 | changes only prot, only of mapped pages in the range, and reports them as disjoint pieces |
| AddrSpaces.AddrSpace.ProtectPieces | core/mmap/mmap.cpp:182-192 | removing and re-inserting piece by piece from a snapshot has that effect |
| AddrSpaces.ClipMeaning | core/mmap/mmap.cpp:147-153 | the overlapping entries clipped to the range are the map restricted to it |
| AddrSpaces.AddrSpace.ReportedBytes | core/mmap/mmap.cpp:147-153 | byte for byte, the pieces given to the callback are the mapped part of the range with its info |
| Boxes.Box.MapAny | core/box.c:423-436 | when it fails, and that the entries are then exactly as before; otherwise only the new pages change; with room it succeeds exactly when the host maps and the checks for the protection pass |
| Boxes.Box.MapAt | core/box.c:454-471 | replaces the pages of the range, or leaves a hole there exactly when the host or verifier refuses |
| Boxes.Box.Register | core/box.c:481-500 | records existing pages, or leaves a hole exactly when verification fails |
| Boxes.Box.Mprotect | core/box.c:502-516 | changes only the protection in the map, and only when the host agreed and an executable range was accepted or exempted; nothing when any check fails |
| Boxes.Box.Munmap | core/box.c:549-566 | unmaps once the host has dropped the pages, and nothing otherwise |
| Boxes.Box.ValidRange | core/box.c:601-608 | an aligned range inside the box is always accepted by the page map |
| Boxes.Box.Run | core/box.c:343-407 | over any run with any failures, the last operation that touched a mapped page gave it the protection it has, the host agreed, and the checks for it passed; so no page is writable and executable with allow_wx off |
| Boxes.Box.WXIsExempt | core/box.c:343-407 | a writable and executable page was left so with allow_wx set and verification skipped |
| Boxes.Box.Step | core/box.c:423-566 | each operation changes only the pages of its range, and those it leaves mapped have the protection it asked for, with the host's agreement and its checks passed |
| Boxes.WholePage | core/box.c:398-407 | the bytes verified are all of a page exactly when the size is whole pages or the page is not the last |
| Brks.Heap.SysBrk | linux/sys/sys_brk.c:5-49 | when it succeeds the break is the request, or the end of the region the request is beyond; it maps exactly the pages between the old break and the new one, both rounded up, or none; heap pages stay mapped |
| Brks.Heap.MapPages | linux/sys/sys_brk.c:39-43 | maps heap pages read-write, or leaves a hole where the mapping was refused |
| Brks.Heap.Run | linux/sys/sys_brk.c:5-49 | over any run the break stays in its region, pages outside it are untouched, and the page ranges mapped are those between each old break and the new one |
| Brks.Heap.LivePageKept | linux/sys/sys_brk.c:33-44 | a page that stays below the break is in none of the ranges mapped |
| PathText.SegsOfJoin | linux/cwalk.c:220-261 | splitting undoes joining for every list of segments |
| PathResolution.BackwardIsDepth | linux/cwalk.c:388-428 | the backward scan succeeds exactly when normal segments outnumber the debt |
| PathResolution.StackHasShape | linux/cwalk.c:388-465 | after any prefix the stack is backs below, normals above, each normal with the counter the forward scan gives it |
| PathResolution.CountersAreStack | linux/cwalk.c:388-487 | the segments the counters keep are exactly those a left-to-right stack resolver keeps |
| PathLaws.NormalizeTwice | linux/cwalk.c:631-705 | normalising a normalised path returns it unchanged |
| PathLaws.JoinRelativeAbsolute | linux/cwalk.c:743-900 | for absolute paths joining base with the relative path gives the normal form of path |
| PathLaws.JoinRelative | linux/cwalk.c:743-900 | for all paths, exactly when that law holds |
| PathLaws.RelativeFails | linux/cwalk.c:779-884 | a relative base and path for which it does not |
| Cursors.FindNextStop | linux/cwalk.c:191-201 | the first separator or the end from there |
| Cursors.FindPreviousStop | linux/cwalk.c:203-218 | the start of the stretch without separators that ends there |
| Cursors.Cursor.FirstFrom | linux/cwalk.c:220-261 | the first segment of a path, if it has one |
| Cursors.Cursor.FirstInPath | linux/cwalk.c:1253-1266 | the same past the root |
| Cursors.Cursor.NextInPath | linux/cwalk.c:1287-1323 | the next segment, or no change at the last one |
| Cursors.Cursor.PreviousInPath | linux/cwalk.c:1325-1354 | the segment before, or no change at the first one |
| Cursors.Cursor.LastInPath | linux/cwalk.c:1268-1285 | the last segment of a path, if it has one |
| Cursors.Cursor.LastFromStart | linux/cwalk.c:263-281 | the last segment of a path read without a root |
| Cursors.Cursor.FirstJoined | linux/cwalk.c:283-304 | position 0 of the segments of all paths as one list |
| Cursors.Cursor.NextJoined | linux/cwalk.c:306-343 | one position on, across paths without segments, until the list ends |
| Cursors.Cursor.PreviousJoined | linux/cwalk.c:345-386 | one position back, across paths without segments, until the list starts |
| Cursors.Cursor.SegmentType | linux/cwalk.c:1356-1368 | normal, current or back, as the text of the segment is |
| Cursors.Cursor.BackWillBeRemoved | linux/cwalk.c:388-428 | computes the backward scan over the joined list |
| Cursors.Cursor.NormalWillBeRemoved | linux/cwalk.c:430-465 | computes whether the forward counter goes negative |
| Cursors.Cursor.WillBeRemoved | linux/cwalk.c:467-487 | the decision for the current segment, without moving the iterator |
| Cursors.Cursor.SkipInvisible | linux/cwalk.c:489-500 | moves to the next kept segment, passing only removed ones |
| PathBuilding.OutputSized | linux/cwalk.c:67-94 | the buffer holds what fits of the longer output; the length does not depend on the buffer |
| PathBuilding.TerminateOutput | linux/cwalk.c:138-148 | a non-empty buffer holds the longest prefix that fits, then NUL |
| PathBuilding.JoinAndNormalizeMultiple | linux/cwalk.c:631-705 | for every buffer: the length of the normal form, and its exact prefix then NUL |
| PathComparison.SkipSegmentsUntilDiverge | linux/cwalk.c:743-777 | both iterators stand right after the longest common prefix of what is kept |
| PathComparison.OutputBacks | linux/cwalk.c:827-844 | one `../` for every segment base still keeps |
| PathComparison.OutputRest | linux/cwalk.c:848-866 | the segments path still keeps, each with a separator |
| PathComparison.GetRelative | linux/cwalk.c:779-884 | for every buffer: the relative path, and its exact prefix then NUL |
| PathComparison.GetIntersection | linux/cwalk.c:1184-1251 | where in base the last of the kept segments common to both ends |
| HostPaths.StrChrEq | linux/path.c:41-46 | the first equals sign |
| HostPaths.MapParts | linux/path.c:41-46 | a map is its sandbox directory, the first equals sign and its host directory |
| HostPaths.RequestedFrom | linux/path.c:18-28 | an absolute path is looked up as it is; a relative one resolves from the stack of the working directory |
| HostPaths.Request | linux/path.c:18-28 | the path made absolute with the working directory and normalised, as far as the buffers hold it; untruncated, its stack is that of an absolute path or goes on from the working directory |
| HostPaths.BestMap | linux/path.c:36-56 | the first of the maps with the longest match, if any matches |
| HostPaths.PathResolve | linux/path.c:14-71 | succeeds with the host path of that map; when it fails the buffer is untouched and why |
| HostPaths.ChosenIsLongest | linux/path.c:50-54 | a longer match length means more common segments, so the choice is the first longest segment prefix |
| HostPaths.StaysInside | linux/path.c:58-70 | the result leads to the host directory and on through the unmatched segments, all normal |
| HostPaths.ResolvedPath | linux/path.c:14-71 | for a call in which no buffer truncates: the first map that shares most with the request, and where the result leads |
| Lists.Node.constructor | linux/list.h:13-18 | a ring of one |
| Lists.List.First | linux/list.h:20-27 | the first element of the sequence |
| Lists.List.Next | linux/list.h:29-36 | the element after, none after the last |
| Lists.List.Enumerate | linux/proc.c:227-235 | walking with first and next visits the sequence in order, once each |
| Lists.List.SpliceAfter | linux/list.c:22-32 | the four link writes put the element at the front of the ring |
| Lists.List.MakeFirst | linux/list.c:50-60 | prepends a singleton |
| Lists.List.Remove | linux/list.c:34-48 | deletes the element; an element already removed changes nothing |
| Lists.Unlink | linux/list.c:44-47 | the link writes bypass the element and leave it a ring of one |
| Lists.WithoutDistinct | linux/list.c:34-48 | deletion keeps the others, in order, and shortens the sequence by one exactly when the element was there |
| Lifecycle.HostFree | linux/trampoline.c:53-85 | attaching and detaching keep the free protocol |
| Lifecycle.HostClosers | linux/trampoline.c:72-84 | at most one detach finishes a deferred free, and one does |
| Lifecycle.CloneList | linux/sys/sys_clone.c:171-187 | the list holds exactly active threads through creation and its failure |
| Lifecycle.ThreadList | linux/sys/sys_clone.c:50-61 | removing a thread twice, on exit and on its end, is harmless |
| Lifecycle.FreeFree | linux/proc.c:270-293 | the steps of the free keep the protocol |
| Lifecycle.StepKeeps | linux/trampoline.c:53-85 | every atomic step of every party keeps the whole invariant |
| Lifecycle.DestroyedOnce | linux/proc.c:270-293 | in every run at most one destroy, and only with both counters zero and an empty list |
| Lifecycle.DestroyIsAlone | linux/proc.c:224-245 | in every run, while someone is about to destroy the process no other enabled step touches it |
| Lifecycle.NoUseAfterDestroy | linux/trampoline.c:46-52 | after the destroy no enabled step touches the process |
| Lifecycle.ListBounded | linux/proc.c:227-235 | the list is never longer than active_threads and no thread is freed twice |
| Lifecycle.EndsDestroyed | linux/trampoline.c:75-84 | a run that everyone leaves ends with exactly one destroy and each thread freed once |
| Lifecycle.CanFinish | linux/proc.c:275-277 | no wakeup is lost: the party left to destroy is not asleep and needs at most three steps |
| Progress.MakersKeep | linux/sys/sys_clone.c:171-187 | every half-made thread has the thread that is making it, through every step |
| Progress.CanAlwaysFinish | linux/proc.c:270-293 | from every state of every run that is not aborted and has no failed attachment, steps that start nothing and in which nothing fails lead to the end, with one destroy and each thread freed once |
| Progress.EitherWay | linux/sys/sys_clone.c:171-187 | in every state of every run attachments and thread creations can succeed or fail, waiters can sleep, and new users can come until the free |
| Transitions.InvokeLands | core/arch/x64/trampoline.S:217-309 | every invoke without re-entry returns to its own frame with registers, return address, REGS_RSP and memory above restored |
| Transitions.SandKeeps | core/arch/x64/callback.S:29-138 | sandbox code to any depth keeps REGS_HOST_SP and the host stack above it, also when it returns early |
| Transitions.HostKeeps | core/arch/x64/runtime.S:133-139 | host code that invokes to any depth keeps its stack pointer, what is above it, and REGS_RSP |
| Transitions.CallbackReturns | core/arch/x64/callback.S:94-103 | a callback gives back the sandbox stack pointer, REGS_RSP, REGS_HOST_SP and callee-saved registers |
| Transitions.CallbackAborted | core/arch/x64/callback.S:76-87 | an aborted callback unwinds to the frame of its invoke, clears the flag and sets the status |
| Transitions.FlagOfRun | core/arch/x64/callback.S:76-87 | whether sandbox code returns early, and the abort flag after it, follow from the program and the flag before it |
| Transitions.LandsIff | core/arch/x64/runtime.S:133-147 | for any nesting: an invoke and all inside it land on their own frames exactly when no reached system call handler invokes on the context and none of them calls lfi_ctx_exit; then everything is restored |
| Transitions.HostLandsIff | core/arch/x64/runtime.S:133-147 | the same for all invokes host code makes |
| Transitions.ReentryFails | core/arch/x64/runtime.S:133-147 | one invoke from a system call handler makes the outer return go to the wrong place |
| Transitions.EnteredAt | core/arch/x64/trampoline.S:234-271 | the sandbox is entered at the first aligned place for a return address below REGS_RSP, with the reserved registers set |
| Transitions.EntersBelow | core/arch/x64/trampoline.S:234-271 | in every run without re-entry, nested code is entered strictly below the stack pointer of the callback around it, and sandbox code always has its reserved registers |
| Transitions.RunContextLands | core/arch/x64/runtime.S:8-89 | for any nesting: lfi_ctx_run and all invokes under it land on their own frames exactly when nothing strays and the code directly under it ends in lfi_ctx_exit; then registers, return address and memory above are restored |
| Transitions.AbortUnderRunFails | core/arch/x64/runtime.S:73-89 | one aborted callback under lfi_ctx_run makes it return to the wrong stack pointer |
| Transitions.ExitInsideFails | core/ctx.c:120-128 | lfi_ctx_exit from inside an invoke under lfi_ctx_run is not refused and returns to address 0 |
| Transitions.FrameReads | core/arch/x64/trampoline.S:288-309 | an intact frame gives back what the trampoline saved |
| Transitions.Cpu.Trampoline | core/arch/x64/trampoline.S:154-271 | instruction by instruction, has the effect the run theorems use, and enters aligned just below REGS_RSP |
| Transitions.Cpu.LfiRet | core/arch/x64/trampoline.S:288-309 | likewise for the return |
| Transitions.Cpu.LfiCallback | core/arch/x64/callback.S:29-138 | likewise for a callback with its abort path |
| Transitions.Cpu.LfiSyscall | core/arch/x64/runtime.S:93-184 | likewise for a system call |
| Transitions.Cpu.ExitThread | linux/sys/sys_exit.c:44-52 | likewise for the exit of an attached thread |
| Transitions.Cpu.LfiInvoke | core/arch/x64/trampoline.S:154-309 | executing any nesting on registers and memory is the run the theorems speak of |
| Transitions.Cpu.ExitContext | core/arch/x64/runtime.S:73-89 | likewise for lfi_ctx_exit |
| Transitions.Cpu.LfiCtxRun | core/ctx.c:67-83 | executing lfi_ctx_run over any nesting is the run of RunContextLands |
| GsCache.SegGsSetLoads | core/arch_asm.h:103-114 | afterwards the register holds the base and the slot tells the truth |
| GsCache.StepKeeps | core/arch_asm.h:85-102 | every entry, exit and return on any thread keeps slots true, contexts bound and the register right |
| GsCache.GsAlwaysRight | core/arch_asm.h:85-114 | in every run %gs is the base of the running context's box whenever sandbox code executes |
| GsCache.NobodyStuck | core/arch_asm.h:85-102 | in every state of every run each thread can enter, call out and go back every way there is |
| GsCache.StepRightIff | core/arch_asm.h:103-114 | without that assumption: a step keeps the register right exactly when its seg_gs_set writes it or finds it right |
| GsCache.SharedRightIff | core/arch_asm.h:103-114 | a run, with contexts shared or not, keeps the register right throughout exactly when every seg_gs_set in it does |
| GsCache.SharingBreaks | core/arch_asm.h:85-102 | from every state with two threads in host code and two boxes, sharing one context can leave the wrong base |
| GsCache.SharedContextFails | core/arch_asm.h:85-102 | a run from the start in which two threads inside one context do so |
| GsCache.Registers.Set | core/arch_asm.h:103-114 | the compare-and-write is that step, and writes nothing when the base is cached |
| GsCache.Registers.Enter | core/ctx.c:67-83 | binding the context to the running thread first makes the register right |
| ExtAllocs.WithBitReads | core/extalloc.c:35-41 | writing one bit of a byte changes that bit only |
| ExtAllocs.ExtAlloc.constructor | core/extalloc.c:10-33 | base and size in chunks, every chunk free |
| ExtAllocs.ExtAlloc.FindZeroes | core/extalloc.c:43-62 | the lowest run of n free chunks, or none exactly when there is none |
| ExtAllocs.ExtAlloc.BitvecSet | core/extalloc.c:64-79 | writes exactly the chunks of the range |
| ExtAllocs.ExtAlloc.IsFull | core/extalloc.c:91-99 | true exactly when every chunk is taken |
| ExtAllocs.ExtAlloc.Alloc | core/extalloc.c:101-111 | takes the lowest run that is long enough, or changes nothing |
| ExtAllocs.ExtAlloc.Free | core/extalloc.c:123-131 | gives back exactly the chunks of the range |
| ExtAllocs.CeilCovers | core/extalloc.c:80-88 | rounding up covers the request with less than a chunk to spare |
| Slots.FirstFitIsFirstFree | core/extalloc.c:43-62 | with one size, first fit finds exactly the first free slot: it never fragments |
| Slots.FillSlot | core/extalloc.c:64-79 | writing a slot's chunks takes or frees that slot and keeps the row of whole slots |
| Slots.FullIffTotal | core/boxmap.c:173-186 | all slots are taken exactly when as many are live as there are |
| BoxMaps.BoxMap.Reserve | core/boxmap.c:80-94 | the first of the sizes obtained by halving, down to the threshold, that the kernel grants, or nothing when it grants none |
| BoxMaps.BoxMap.MakeRegion | core/boxmap.c:103-119 | the region starts less than a chunk after the lower guard and ends less than a chunk before the upper one; made exactly when memory and the second mmap allow and something is left |
| BoxMaps.BoxMap.AddRegion | core/boxmap.c:96-133 | adds the chunk-aligned part of the mapping at least the guard from both edges, all slots free, exactly when there is room for one, or changes nothing |
| BoxMaps.AlignedRegion | core/boxmap.c:103-110 | the 64-bit address arithmetic is exact whenever the second mapping can succeed |
| BoxMaps.BoxMap.BoxmapReserve | core/boxmap.c:135-171 | one region of the requested size exactly when the kernel grants it, or for size 0 between 32 GiB and 256 TiB |
| BoxMaps.BoxMap.AddSpace | core/boxmap.c:173-186 | fails exactly when every slot is taken, else the first free slot of the first region that has one |
| BoxMaps.BoxMap.RemoveSpace | core/boxmap.c:188-198 | frees exactly that slot: one region at most contains the address |
| BoxMaps.BoxMap.Active | core/boxmap.c:68-76 | the number of live slots |
| Engines.SlackCoversAlignment | core/core.c:212-216 | whatever the base, one chunk of slack covers the alignment |
| Engines.ReservationEnough | core/core.c:212-216 | a size that did not wrap holds n boxes at any base |
| Engines.ReservationShort | core/core.c:215-216 | a size that wrapped holds fewer, at any base |
| Engines.WrapExample | core/core.c:215-216 | a request for 2^31 boxes that reserves room for none |
| Engines.LfiNew | core/core.c:188-253 | succeeds exactly when memory and kernel allow; there is then room for n boxes exactly when the computed size did not wrap |
| Engines.BoxSpace | core/box.c:166-171 | succeeds exactly when fewer boxes are live than there are slots, and keeps their number |
| Engines.FreeBoxSpace | core/box.c:584-584 | one box fewer is live |
| Engines.RunBoxes | core/boxmap.c:200-210 | over any run of creations and removals a creation is refused only while as many boxes are live as there are slots; creations alone are refused exactly past that number |
| Engines.EndToEnd | core/core.c:188-253 | a size that did not wrap is refused only by memory or kernel; after success n creations succeed, and refusals come only with n or more boxes live, exactly when it did not wrap |
| Engines.SlotsDisjoint | core/boxmap.c:173-198 | different boxes have disjoint address ranges |
| Engines.SlotsGuarded | core/boxmap.c:101-110 | every box lies at least the guard inside its mapping on both sides |
| EntryLayout.WordReadsBack | linux/thread.c:222-229 | a word written little-endian reads back |
| EntryLayout.PointersReadBack | linux/thread.c:141-145 | a null-terminated array of pointers reads back as those pointers |
| EntryLayout.AuxReadsBack | linux/thread.c:190-213 | an auxiliary vector reads back up to AT_NULL |
| StackImage.CountStrings | linux/thread.c:101-139 | accepts the longest prefix that fits the budget and counts its bytes exactly |
| StackImage.CopyStrings | linux/thread.c:163-177 | writes the cut strings one after another and returns where each starts |
| StackImage.PartsFit | linux/thread.c:96-98 | for every random offset the parts lie in order, aligned, and inside a stack larger than the fixed part |
| StackImage.ImageReadsBack | linux/thread.c:85-89 | the written words and strings read back as arguments, environment and auxiliary vector |
| StackImage.AuxvTells | linux/thread.c:190-213 | a program that looks up a key of the auxiliary vector finds the entry point, the headers, its name and the rest |
| StackImage.AllAccepted | linux/thread.c:96-139 | no string is dropped when all of them fit beside the fixed part |
| StackImage.WriteImage | linux/thread.c:158-229 | writes that image and nothing outside it |
| StackImage.StackInit | linux/thread.c:90-232 | accepted prefixes, all of them when they fit, readable image and auxiliary vector, alignment, directly below the randomised top, and no write outside the stack |
| FdTables.FDTable.constructor | linux/fd.c:152-168 | the first three slots are duplicates of the standard streams exactly where dup gives one, the others are empty; other descriptors keep their files |
| FdTables.FDTable.Alloc | linux/fd.c:10-29 | the lowest free slot takes the descriptor, or the table is full and nothing changes |
| FdTables.FDTable.Acquire | linux/fd.c:31-51 | a new borrowed descriptor for the slot's file, with its flags and kind, exactly when the slot is used and dup gives one; other descriptors keep their files |
| FdTables.FDTable.Release | linux/fd.c:53-60 | closes that borrow and nothing else |
| FdTables.FDTable.Dup2 | linux/fd.c:62-130 | the new slot shares file, flags and cut directory; each error is answered exactly for its cause and leaves the table unchanged; other descriptors keep their files |
| FdTables.FDTable.OverwriteSlot | linux/fd.c:97-124 | duplicating onto a used slot keeps its host descriptor and closes nothing of anyone else's |
| FdTables.FDTable.CloseFd | linux/fd.c:132-150 | empties the slot and closes its descriptor, exactly when it was in use; other descriptors keep their files |
| FdTables.FDTable.FreeAll | linux/fd.c:170-183 | afterwards only borrows and other people's descriptors are open, for the files they had |
| FdTables.Perform | linux/fd.c:10-150 | one call, or one step of others, does what it should to slots, open descriptors, borrows and others' descriptors |
| FdTables.Lifetime | linux/fd.c:10-183 | over any run from fdinit to fdfree and the last release, exactly others' descriptors stay open with their files, and closes match what was made or taken over |
| FdTables.UsedPut | linux/fd.c:19-26 | filling a free slot keeps the descriptors distinct and owns exactly one more |
| FdTables.UsedClear | linux/fd.c:142-143 | emptying a slot keeps them distinct and owns exactly one fewer |

## Left out

- Real memory: the effects of mmap, mprotect, dup and pthread calls on memory are not modelled, only success, failure and the descriptors and ranges they return. In particular, when verification fails in `protectverify` the host pages stay read-only while the map is unchanged.
- Instruction verifier: its answer is a parameter of each box operation.
- AddrSpaces.AddrSpace.FindFree: the splitmix64 generator is replaced by an arbitrary random word.
- Brks.Heap.SysBrk: the contents of pages are not modelled, only which page ranges were mapped over.
- Boxes.Box.Run: speaks of the page map only; which protections the host pages have in between, and what the host itself writes to them, is not stated.
- Windows path style, path functions outside joining, normalising, relative paths and intersections, and calls whose output buffer overlaps an input.
- HostPaths.ChosenIsLongest: states the longest common segment prefix, not that the map directory is a prefix of the path, because the code does not require it.
- Lifecycle environment: lfi_proc_free is called once after the main thread left, no attachment starts after it, and a failed attachment ends in the abort of lfi_clone. Attachments of one host thread are modelled one by one, not as its linked list.
- Lifecycle.CanFinish: shows that the end can be reached, not that a scheduler reaches it.
- SYS_MINIMAL builds, futexes, system call passthrough bodies, logging, ELF loading, debugger hooks, sbox, examples and tools.
- Weak memory: steps are sequentially consistent.
- Transitions: host stack overflow, floating-point and vector registers, protection keys, the lazy creation of a context inside the trampoline, and sandbox registers other than the stack pointer and the callee-saved ones. The struct-returning variants save more registers around the same frame.
- Transitions.LandsIff: after a return that went wrong the run no longer follows the program; the theorem decides whether there is one.
- Transitions.RunContextLands: host code under `lfi_ctx_run` does not call `lfi_ctx_run` again on the same context.
- GsCache.StepKeeps: `lfi_ctx_exit` from inside an invoke, which goes to address 0, is not a step.
- arm64 and riscv64 assembly.
- BoxMaps.BoxMap.Reserve: when the kernel grants a mapping below the threshold the code drops its address; the model records the failure, not the leaked mapping.
- Engines.LfiNew: assumes that addresses the kernel returns lie below 2^63 and that a fixed mapping beyond that fails; footprints are whole chunks, as `extalloc_alloc` asserts.
- StackImage.StackInit: addresses are indices of one memory that holds at least the fixed part below the stack, which is so for any box because its base is at least one chunk; the block reads of the random source always succeed with the bytes given.
- FdTables.FDTable.Alloc: expects an open descriptor that is not the table's; locking is not modelled, each operation is one step.
- FdTables.FDTable.constructor: is the build with standard streams.

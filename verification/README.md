# A verified model of the winVpwn guest

winVpwn loads a static x86-64 ELF image into an emulated CPU, runs it, and answers its `write`,
`exit` and `exit_group` syscalls itself. This project models the guest address space and the syscall
run that sits on top of it, and proves what they promise.

The parts, one module each:

- `GuestMem`, `GuestMemLaws`: `InMemGuest`, byte vectors by base address, read and written chunk by
  chunk. It is compared with a flat partial map from address to byte.
- `Mmap`: `MemoryMap`, the sorted vector of claimed ranges.
- `Loader`: `load_elf` after parsing, from program headers and image bytes to segments.
- `Engine`: the CPU engine's memory calls, reduced to a contract.
- `AddressSpace`, `Loading`: page rounding, `map_elf`, `map_memory` and `map_stack`, and what the guest
  then finds in memory.
- `Output`, `Trace`: captured output per descriptor, and the shared trace sink.
- `Dispatch`, `Backends`: the handler vector, the three handlers, and the two memories they can read.
- `Run`, `Vcpus`, `Booting`: the syscall hook as a step, whole runs, and the pipeline from image to
  finished run.
- `Machine`, `Sorting`: fixed-width integers, bitwise AND, the stable sort, ordered-map lookups.

## How to read it

Integers have the source's widths. `+` and `-` on addresses wrap, as in the release build that is
published (`.github/workflows/publish.yml:44`); a debug build aborts instead where a sum wraps.
`usize` is 64 bits. `Outcome` has three cases: `Ok`, `Err`, and `Panic` for the host aborting, which
happens when an allocation would pass `isize::MAX` bytes or when the loader copies more bytes from
the file than the segment has in memory (an image that breaks the rule of chapter 5, "Program
Header", of the System V gABI that `p_filesz` may not exceed `p_memsz`).

A method that changes state is proved equal to a specification function (`ChunkWrite`, `Inserted`,
`MapImage`, `EffectOf`, ...), and the lemmas are about that function. `Loads` specifies the loader by
the header list alone, without the region vector the loader keeps. `BitAnd` is AND bit by bit.
A layout of the in-memory guest is `Disjoint` when no region runs past a later base (which also
excludes an empty region inside another one) or past the top of the address space.

Assumed of the engine: mapping needs a nonempty, page-aligned, unmapped range inside the 64-bit
space and gives zeroed pages; a read or write touches exactly the bytes it names, and fails without
effect unless all of them are mapped below the top; registers can always be read and written; no hook
call follows `emu_stop` in the same run. Between syscalls the guest may change registers and memory
in any way: a run is an arbitrary sequence of guest states, one at each `syscall` instruction.

## Main results

- Reading and writing the in-memory guest is reading and writing a flat byte map, with the first
  unmapped address reported and exactly the prefix before it stored. A layout behaves so whatever its
  contents if and only if it is disjoint. Reading back what was written works on every layout.
- The claimed ranges stay sorted and disjoint over any calls, and do not depend on the order of the
  calls, as long as ranges end below the top of the address space. Both are exact in the range: one that
  reaches the top can be claimed twice, which loses disjointness, and two requests for it with different
  flags leave different vectors in the two orders (`Mmap.KeepsOrderIff`, `Mmap.OrderNeverMattersIff`).
- After a load and a mapping that succeed, every guest byte and permission is known from the program
  headers and the image. Mapping a loaded image fails exactly when two segments share a page or one
  has no page, and the error names the first such segment. The i-th region of the loader's map lies
  inside the i-th region of the mapper's. What the engine refuses stays claimed, so asking again for
  a range that ends below the top is an overlap.
- Over every run, output, trace and result are functions of the guest states alone, and agree with
  each other. For the whole pipeline, ending, output, every field of every trace record, errors and the
  abort are told from registers and memory alone. From file to output: what a guest that respects its pages prints from a read-only segment
  is exactly those bytes of the image file.

Where the code and its documentation differ, the model follows the code, shows an input, and proves
exactly when the documentation holds:

- `SegmentOverlap` is documented to name the other segment (`elf/loader.rs:66-67`). It does so if and
  only if an earlier segment contains the new one's start address; otherwise it names address 0
  (`Loader.BlameIsRealIff`, `Loader.BlameCanMiss`).
- `Vcpu::exit_reason` is documented as the reason of the last run (`cpu/unicorn_engine.rs:339`). The
  stored reason is never reset, so it is the last run's, whatever the guest does, if and only if no
  earlier run stored one; for a single run, also if that run itself exits (`Run.ExitReasonIsOwnIff`,
  `Run.OneExitReasonIsOwnIff`, `Run.StaleExitReason`). Even on a fresh CPU it is the ending that `run`
  returns if and only if the engine finished and the last syscall is an exit; after a fall-off none is
  stored (`Run.StoredIsReturnedIff`).
- The result of `run` is documented to be the ending of that run (`cpu/unicorn_engine.rs:275-277`). It
  reads the same stored state and the stored error, so it is right for every guest if and only if
  neither was left behind (`Run.ResultIsOwnIff`, `Run.OneResultIsOwnIff`).
- `TraceRecord::seq` is documented as monotonic (`trace/recorder.rs:10`). Over a sink's whole life the
  numbers increase if and only if nothing is recorded after a drain that took something
  (`Trace.NumbersIncreaseIff`, `Trace.NumbersRestart`).

`GuestMem.RegionBaseIff`, `GuestMem.OwnerIsUnique`, `Mmap.RefusedIffCollides`,
`Loader.LoadsExactly`, `Loader.LoadedFields`, `Loader.NoAbort`, `Loader.BlameIsRealIff`,
`AddressSpace.MapMemoryOutcome`, `Dispatch.OtherHandlerAnswers`, `Run.OneExitReasonIsOwnIff`,
`Run.OneResultIsOwnIff`, `Run.StaleExitReason`, `Vcpus.FreshCapture`, `Machine.CastsKeepBits` and
`Machine.WrapIsModulo` are corollaries that follow from the definitions without further steps.

## Model

| member | source | states |
|---|---|---|
| GuestMem.RegionBaseIff | crates/winvpwn-core/src/vkernel/mem.rs:58-80 | The lookup finds a region if and only if that is the one with the greatest base not above the address, and it is long enough; else it finds none. |
| GuestMem.OwnerIsUnique | crates/winvpwn-core/src/vkernel/mem.rs:58-80 | On a disjoint layout the lookup finds a region if and only if that region contains the address. |
| GuestMem.InMemGuest.MapAnon | crates/winvpwn-core/src/vkernel/mem.rs:84-90 | Only an equal base is refused; success adds zeroed bytes there and changes no other region. |
| GuestMem.InMemGuest.Read | crates/winvpwn-core/src/vkernel/mem.rs:92-114 | The cursor loop computes `ChunkRead`; on a disjoint layout that is the flat read of the range. It aborts exactly for a length beyond an allocation. |
| GuestMem.InMemGuest.Write | crates/winvpwn-core/src/vkernel/mem.rs:116-137 | The cursor loop computes `ChunkWrite`; on a disjoint layout that is a flat update of exactly the mapped prefix. |
| GuestMem.ReadIsFlat | crates/winvpwn-core/src/vkernel/mem.rs:92-114 | On a disjoint layout a read is a flat lookup: success iff the whole range is mapped, else the first hole and the bytes still to go. |
| GuestMem.WriteIsFlat | crates/winvpwn-core/src/vkernel/mem.rs:116-137 | On a disjoint layout a write is a flat update: exactly the mapped prefix is stored, every other byte and the shape stay, and the error names the first hole. |
| GuestMemLaws.ReadBack | crates/winvpwn-core/src/vkernel/mem.rs:92-137 | On any layout, overlapping and wrapping included, reading the bytes a write stored returns them, also the prefix of a failed write. |
| GuestMemLaws.WriteLeavesAlone | crates/winvpwn-core/src/vkernel/mem.rs:116-137 | A write that has moved past a region never comes back to it. |
| GuestMemLaws.AccessesFailAlike | crates/winvpwn-core/src/vkernel/mem.rs:92-137 | On any layout a read fails iff the write of as many bytes fails, with the same error. |
| GuestMemLaws.ReadSplits | crates/winvpwn-core/src/vkernel/mem.rs:92-114 | On a disjoint layout a read splits at any point, failures included. |
| GuestMemLaws.WriteSplits | crates/winvpwn-core/src/vkernel/mem.rs:116-137 | On a disjoint layout writing a concatenation leaves the same memory and result as writing its parts in turn. |
| GuestMemLaws.FlatBytesDecide | crates/winvpwn-core/src/vkernel/mem.rs:44-50 | On a disjoint layout two memories of one shape with the same flat bytes are equal. |
| GuestMemLaws.MapAnonView | crates/winvpwn-core/src/vkernel/mem.rs:84-90 | On any layout a new region takes over from its base up to the next base, zeros and then nothing; if the layout is disjoint afterwards, exactly its range is zero-filled and no other byte changes. |
| GuestMemLaws.FlatExactlyWhenDisjoint | crates/winvpwn-core/src/vkernel/mem.rs:58-114 | A layout reads as a flat map for all contents iff it is disjoint. |
| Mmap.MemoryMap.Insert | crates/winvpwn-core/src/memory/mmap.rs:62-73 | For a range below the top: accepted iff it shares no address with a claimed region, the claimed set then grows by exactly the range, and a refused or empty insert changes nothing; for any range the new vector or the error is that of `Inserted`. |
| Mmap.AcceptedIffFree | crates/winvpwn-core/src/memory/mmap.rs:44-47 | On a well-formed map a range below the top is accepted iff no region claims one of its addresses. |
| Mmap.InsertClaims | crates/winvpwn-core/src/memory/mmap.rs:62-73 | An accepted insert keeps the map well formed, keeps all entries, and claims exactly the new range in addition. |
| Mmap.InsertApart | crates/winvpwn-core/src/memory/mmap.rs:62-73 | A range apart from all regions, also one that reaches the top, is accepted and placed in order. |
| Mmap.RefusedIffCollides | crates/winvpwn-core/src/memory/mmap.rs:35-69 | Among sorted regions a range is refused iff a region that ends below the top shares an address with it, or, if its end wraps past the top, covers both its first address and its last. |
| Mmap.AnyCallsKeepOrder | crates/winvpwn-core/src/memory/mmap.rs:50-78 | After any sequence of calls, refused ones included, regions are nonempty, sorted by base, and were asked for; if all ranges end below the top, they are also pairwise disjoint. |
| Mmap.RefusedLeaveNoTrace | crates/winvpwn-core/src/memory/mmap.rs:62-73 | The map after any calls is the map after the accepted ones alone. |
| Mmap.AllAcceptedIffCompatible | crates/winvpwn-core/src/memory/mmap.rs:62-73 | Any list of inserts with pairwise disjoint nonempty ranges all succeeds; if all ranges end below the top, only such a list does. |
| Mmap.OrderDoesNotMatter | crates/winvpwn-core/src/memory/mmap.rs:62-73 | Two orders of any inserts that both succeed leave the same entries; if all ranges end below the top, one order succeeds iff the other does and the vectors are identical. |
| Mmap.ClaimedTwiceIff | crates/winvpwn-core/src/memory/mmap.rs:35-47 | A nonempty range can be claimed twice iff its end wraps. |
| Mmap.ClaimedAgainIff | crates/winvpwn-core/src/memory/mmap.rs:45-73 | A nonempty range that was accepted into any vector is refused the next time iff its end does not wrap. |
| Mmap.KeepsOrderIff | crates/winvpwn-core/src/memory/mmap.rs:35-73 | Calls for one range among ranges below the top always leave the vector sorted and disjoint iff that range ends below the top too. |
| Mmap.OrderNeverMattersIff | crates/winvpwn-core/src/memory/mmap.rs:35-73 | The order of requests for one range, with any flags, among ranges below the top never matters iff that range ends below the top too. |
| Mmap.TopPageTwice | crates/winvpwn-core/src/memory/mmap.rs:35-47 | The last page of the address space is accepted twice, because its end wraps to zero. |
| Mmap.NestedInsert | crates/winvpwn-core/src/memory/mmap.rs:70-71 | Inserting nested ranges into nested maps lands at the same index, so the maps stay nested. |
| Mmap.OrderedIsUnique | crates/winvpwn-core/src/memory/mmap.rs:70-71 | A sorted disjoint vector is determined by its entries. |
| Loader.LoadElf | crates/winvpwn-core/src/elf/loader.rs:123-208 | The loader behaves as `Loads` says of the header list alone: all segments in header order, or the error of the first header not accepted; the ranges of a loaded image are compatible. |
| Loader.LoadSegment | crates/winvpwn-core/src/elf/loader.rs:151-196 | One header is accepted iff its end does not wrap, it clashes with no earlier header, its bytes are in the file and fit in memory; else the first failing check decides the result. |
| Loader.FindOther | crates/winvpwn-core/src/elf/loader.rs:160-165 | The base of the first claimed region, in order, that contains the address or starts at it, or 0 if there is none. |
| Loader.InsertVerdict | crates/winvpwn-core/src/elf/loader.rs:156-159 | The region vector accepts a header's range iff the range clashes with no earlier header. |
| Loader.LoadsExactly | crates/winvpwn-core/src/elf/loader.rs:124-207 | Success iff the magic is there, the parse succeeds, the file is 64-bit, x86-64 and `ET_EXEC`, there is a `PT_LOAD`, and every one is accepted; each error before the headers iff its check is the first that fails; loaded segments hold their file bytes and full memory size. |
| Loader.LoadedFields | crates/winvpwn-core/src/elf/loader.rs:189-207 | A load gives one segment per `PT_LOAD` header, in order, with the header's address, sizes, flags and alignment, its file bytes, and zeros up to the size in memory; entry and `is_pie` are those of the file. |
| Loader.LoadHeadersSplit | crates/winvpwn-core/src/elf/loader.rs:151 | The headers of type 1 are picked in their order: from a concatenation, those of the parts. |
| Loader.AllAcceptedIff | crates/winvpwn-core/src/elf/loader.rs:151-187 | All headers are accepted, in whatever order, iff each ends below 2^64, has its bytes in the file and fits in memory, and no two share an address. |
| Loader.RefusedExactly | crates/winvpwn-core/src/elf/loader.rs:152-187 | At a header that is not accepted, address overflow, segment overlap, range overflow, range beyond the image with its bounds, and the abort each occur iff it is the first check that fails. |
| Loader.LoadStopsAt | crates/winvpwn-core/src/elf/loader.rs:151-198 | A load of a supported file that fails on a header fails at the first one not accepted, of which there is just one. |
| Loader.NoAbort | crates/winvpwn-core/src/elf/loader.rs:185-187 | Headers with `filesz <= memsz` that an allocation can hold never abort the load. |
| Loader.BlameIsRealIff | crates/winvpwn-core/src/elf/loader.rs:160-169 | The overlap error names a segment that overlaps iff an earlier segment contains the start address. |
| Loader.BlameCanMiss | crates/winvpwn-core/src/elf/loader.rs:160-169 | Loading headers at 0x2000 and then at 0x1000 running into it fails with an overlap against address 0. |
| Engine.MapZeroed | crates/winvpwn-core/src/cpu/unicorn_engine.rs:209-212 | Assumed of the engine: a new mapping adds zeroed cells with its permissions and leaves all others. |
| Engine.Store | crates/winvpwn-core/src/cpu/unicorn_engine.rs:215-219 | Assumed of the engine: a memory write changes exactly the named bytes, and no permission. |
| Engine.Unicorn.MemMap | crates/winvpwn-core/src/cpu/unicorn_engine.rs:209-212 | Assumed of the engine: mapping succeeds iff the range is nonempty, page-aligned, inside the address space and unmapped. |
| Engine.Unicorn.MemWrite | crates/winvpwn-core/src/cpu/unicorn_engine.rs:215-219 | Assumed of the engine: a write succeeds iff every target is mapped; a refused one changes nothing. |
| AddressSpace.PermOfBits | crates/winvpwn-core/src/cpu/unicorn_engine.rs:198-207 | The masks give read for bit 2 of the flags, write for bit 1 and execute for bit 0. |
| AddressSpace.RoundingIsDivision | crates/winvpwn-core/src/cpu/unicorn_engine.rs:192-195 | The mask forms are division: the start rounds down to a page, the end rounds up. |
| AddressSpace.RoundingIsTight | crates/winvpwn-core/src/cpu/unicorn_engine.rs:192-195 | The page range is the least page-aligned range that contains a nonempty segment. |
| AddressSpace.NoPageIff | crates/winvpwn-core/src/cpu/unicorn_engine.rs:192-195 | A segment gets no page iff it is empty and starts on a page boundary. |
| AddressSpace.MapSegmentKeeps | crates/winvpwn-core/src/cpu/unicorn_engine.rs:191-220 | Mapping any segment, failing, malformed or not, keeps the views consistent; the file bytes of a valid one are never refused. |
| AddressSpace.MapMemoryKeeps | crates/winvpwn-core/src/cpu/unicorn_engine.rs:226-235 | Mapping a region, failing or not, keeps the views consistent. |
| AddressSpace.MapMemoryOutcome | crates/winvpwn-core/src/cpu/unicorn_engine.rs:226-235 | A region is new, whole zeroed pages with the asked permissions, claimed and reported; or it is an overlap and nothing changes; or the engine refuses and the claim alone stays. |
| AddressSpace.RetryIsOverlapIff | crates/winvpwn-core/src/cpu/unicorn_engine.rs:226-235 | A region that the engine refused is an overlap when asked for again iff it ends below the top; otherwise the engine refuses it again. |
| AddressSpace.MapSegmentOutcome | crates/winvpwn-core/src/cpu/unicorn_engine.rs:191-220 | For any segment, malformed or not, success leaves its permissions, file bytes and zeros on new pages, and each failure leaves nothing, the claim, or the claim and unreported pages. |
| AddressSpace.MapImagePerms | crates/winvpwn-core/src/cpu/unicorn_engine.rs:189-223 | Every page of a mapped image has the permissions of its segment's flag bits, and what was mapped before keeps its own. |
| AddressSpace.AnyMappingIsConsistent | crates/winvpwn-core/src/cpu/unicorn_engine.rs:188-240 | After any mapping calls, malformed images included, every reported region is claimed with the same base, size and flags, and reported regions are disjoint whole mapped pages; nothing else is mapped while all file bytes could be stored, as for valid segments; claims and reports are equal while moreover the engine refused no mapping. |
| Loading.MapsIffPagesDisjoint | crates/winvpwn-core/src/cpu/unicorn_engine.rs:189-223 | Mapping an image into a fresh CPU succeeds iff every segment has a page and no two share one; then memory holds exactly the image. |
| Loading.MappingStopsAt | crates/winvpwn-core/src/cpu/unicorn_engine.rs:196-213 | A failed mapping names the first page of the first segment that has no page or shares one: an overlap iff it collides with an earlier one below the top of the address space, else the engine refuses. |
| Loading.OneFirstUnplaced | crates/winvpwn-core/src/cpu/unicorn_engine.rs:189-223 | Exactly an image whose segments lack or share a page has a first such segment, and just one. |
| Loading.SegmentIsStored | crates/winvpwn-core/src/cpu/unicorn_engine.rs:209-219 | Mapping a later segment adds its bytes and disturbs no earlier segment. |
| Loading.LoadThenMap | crates/winvpwn-core/src/cpu/unicorn_engine.rs:189-223 | End to end: each guest byte is the image byte its header names or zero, each page has its segment's permissions, and only whole pages of segments are mapped. |
| Loading.TwoMapsAgree | crates/winvpwn-core/src/cpu/unicorn_engine.rs:189-223 | For loaded nonempty segments the mapper fails only where two share a page; otherwise the i-th loader region lies inside the i-th mapper region. |
| Loading.StackGoesOn | crates/winvpwn-core/src/cpu/unicorn_engine.rs:237-273 | A stack at any base and size maps iff it is whole pages and no segment has a page in it; it leaves the image undisturbed and is all zeros with the initial frame. A refused one is an overlap iff it collides with a segment's pages, else the engine refuses. |
| Output.OutputCapture.Write | crates/winvpwn-core/src/vkernel/io.rs:16-19 | The data is appended to its descriptor's buffer and no other. |
| Output.OutputCapture.Combined | crates/winvpwn-core/src/vkernel/io.rs:36-45 | Iterating the buffers in descriptor order gives the bytes of 1 and then of 2. |
| Output.GroupedKeepsBytes | crates/winvpwn-core/src/vkernel/io.rs:36-45 | One capture that takes all writes gives each descriptor's bytes in order, and in all the issued bytes, each as often. |
| Output.GroupingIsHarmlessIff | crates/winvpwn-core/src/vkernel/io.rs:36-45 | Grouping preserves issue order for all contents iff no nonempty write to 2 precedes one to 1. |
| Trace.TraceSink.Record | crates/winvpwn-core/src/trace/recorder.rs:34-50 | A record is appended with the buffer length as its number and the result, 0 for an exit. |
| Trace.TraceSink.Drain | crates/winvpwn-core/src/trace/recorder.rs:52-56 | All records are returned and the buffer is left empty. |
| Trace.NothingIsLost | crates/winvpwn-core/src/trace/recorder.rs:24-56 | For any interleaving of recording and draining, the batches and then the residue are the recorded calls in order, each once, numbered from 0 in each batch. |
| Trace.NumbersIncreaseIff | crates/winvpwn-core/src/trace/recorder.rs:10-56 | Over a sink's whole life the record numbers increase strictly iff no call is recorded after a drain that comes after a recorded call. |
| Trace.NumbersRestart | crates/winvpwn-core/src/trace/recorder.rs:41-55 | Two calls with a drain between them are both numbered 0. |
| Dispatch.ReadGuest | crates/winvpwn-core/src/vkernel/mem.rs:158-164 | Reading through either backend gives all the bytes, an error, or an abort for a length beyond an allocation. |
| Dispatch.HandlersAnswer | crates/winvpwn-core/src/syscall/dispatch_impl.rs:22-87 | Result, process state and captured bytes of each handler, told from the registers and the bytes read, through either memory. |
| Dispatch.Handle | crates/winvpwn-core/src/syscall/dispatch_impl.rs:14-87 | A handler's result, process state and captured bytes are those of `HandlerEffect`: a successful `write` to 1 or 2 appends the bytes read to that descriptor and returns their number, an exit takes the status modulo 256. |
| Dispatch.Dispatcher.Register | crates/winvpwn-core/src/syscall/dispatch.rs:100-104 | Handlers with the same number are dropped and the new one is added: numbers stay distinct, and the number finds the new handler. |
| Dispatch.Find | crates/winvpwn-core/src/syscall/dispatch.rs:111-113 | Finds the first handler with the number, if and only if there is one. |
| Dispatch.Dispatcher.Dispatch | crates/winvpwn-core/src/syscall/dispatch.rs:115-135 | The context and result follow the handler found; exactly a successful dispatch is recorded, once, with its registers, name and result. |
| Dispatch.Dispatcher.Implemented | crates/winvpwn-core/src/syscall/dispatch.rs:142-148 | The strictly increasing list of exactly the registered numbers. |
| Dispatch.RegisterAll | crates/winvpwn-core/src/syscall/dispatch_impl.rs:89-99 | The three handlers are registered in order. |
| Dispatch.LastRegistrationWins | crates/winvpwn-core/src/syscall/dispatch.rs:100-113 | After any registrations numbers are distinct, and a number finds the last handler registered for it, or none if there is none. |
| Dispatch.StageOneTable | crates/winvpwn-core/src/syscall/dispatch_impl.rs:89-99 | The stage-1 table maps 1, 60 and 231 to their handlers and nothing else. |
| Dispatch.StageOneNames | crates/winvpwn-core/src/syscall/dispatch_impl.rs:18-76 | The names in the trace are "write", "exit", "exit_group", and "<unimplemented>" for every other number. |
| Dispatch.OtherHandlerAnswers | crates/winvpwn-core/src/syscall/dispatch.rs:100-124 | A handler registered from outside answers its number, in place of any older one, under its own name. |
| Dispatch.UnregisteredIsEnosys | crates/winvpwn-core/src/syscall/dispatch.rs:122-128 | An unregistered number returns -38, changes nothing, and is named "<unimplemented>". |
| Backends.ReadAlikeIff | crates/winvpwn-core/src/vkernel/mem.rs:83-164 | For memories with the same bytes, both backends answer a read alike iff the range does not wrap, has an unmapped address, or is beyond any allocation. |
| Run.Dispatched | crates/winvpwn-core/src/cpu/unicorn_engine.rs:170-182 | The number of hook calls in a run: up to and including the first that does not resume the guest. |
| Run.StageOneEffect | crates/winvpwn-core/src/syscall/dispatch_impl.rs:22-42 | A stage-1 syscall captures exactly the bytes it names, and the result of a recorded `write` counts them. |
| Run.StageOneIs | crates/winvpwn-core/src/syscall/dispatch_impl.rs:22-87 | The whole effect of a stage-1 syscall, told from registers and memory: which bytes go to which descriptor, the exit status modulo 256, and the reply for every number, failures and the abort included. |
| Run.StageOneRax | crates/winvpwn-core/src/cpu/unicorn_engine.rs:169-181 | The hook leaves the reply in RAX, in two's complement, and leaves RAX as it was when the guest does not resume. |
| Run.StageOneDispatched | crates/winvpwn-core/src/cpu/unicorn_engine.rs:169-182 | A stage-1 run goes on exactly to the first syscall that is an exit or whose bytes cannot be read, or to the last. |
| Run.OutputIsWhatWasWritten | crates/winvpwn-core/src/cpu/unicorn_engine.rs:155-168 | Over every run the output is the guest bytes named by the successful writes, in order; its length is the sum of the nonnegative `write` results in the trace. |
| Run.TraceMatchesRun | crates/winvpwn-core/src/cpu/unicorn_engine.rs:155-182 | Over every run, for the three handlers and any that answer from the registers alone, record i is the i-th syscall's, its result is what RAX got (0 for an exit), only the last call can stop the run, and only a last call that failed or aborted has no record. |
| Run.StageOneTrace | crates/winvpwn-core/src/trace/recorder.rs:34-50 | The trace of a stage-1 run, field by field from registers and memory; one record per dispatched syscall, but none for a last one that failed. |
| Run.RunOutputIsInterleaved | crates/winvpwn-core/src/cpu/unicorn_engine.rs:157-166 | The shared output is what the guest wrote to 1 and 2 in issue order; one persistent capture would give descriptor 1 and then 2, with the same bytes in all. |
| Run.RunEndsAsAsked | crates/winvpwn-core/src/cpu/unicorn_engine.rs:301-308 | A clean run not broken off by the engine returns an exit code iff its last syscall is an exit with that status modulo 256, and an error iff its last syscall is a `write` of unreadable bytes. |
| Run.StageOneEnding | crates/winvpwn-core/src/cpu/unicorn_engine.rs:284-308 | What `run` returns for every way the engine ends and any state left before: abort, fall-off address, engine fault, exit code, stale reason, failed dispatch or stop. |
| Run.ResultIsOwnIff | crates/winvpwn-core/src/cpu/unicorn_engine.rs:301-308 | What `run` returns is its own ending, whatever the guest does, iff no earlier run left an exit reason or an error. |
| Run.OneResultIsOwnIff | crates/winvpwn-core/src/cpu/unicorn_engine.rs:284-308 | What one run returns is its own ending iff it aborts, is broken off by the engine, exits, nothing that it reads was left behind, or what was left is the same. |
| Run.ExitReasonIsOwnIff | crates/winvpwn-core/src/cpu/unicorn_engine.rs:339-342 | The stored exit reason is that of the last run, whatever the guest does, iff none was stored before it. |
| Run.OneExitReasonIsOwnIff | crates/winvpwn-core/src/cpu/unicorn_engine.rs:174-177 | The stored exit reason is that of the run just made iff none was stored before or that run exits. |
| Run.StoredIsReturnedIff | crates/winvpwn-core/src/cpu/unicorn_engine.rs:301-308 | From a clean state the stored exit reason is the one `run` returns iff the engine finished and the last syscall of the run is an exit. |
| Run.StaleExitReason | crates/winvpwn-core/src/cpu/unicorn_engine.rs:284-308 | After a run that exited, one that falls off returns the fall-off and leaves the old reason stored. |
| Vcpus.Vcpu.MapElf | crates/winvpwn-core/src/cpu/unicorn_engine.rs:188-223 | For any image, malformed ones included, the segment loop leaves the views and the result of `MapImage`, stopping at the first failure, and keeps the views consistent; on success every page has the permissions of its segment's flag bits. |
| Vcpus.Vcpu.MapOneSegment | crates/winvpwn-core/src/cpu/unicorn_engine.rs:192-220 | One round of the loop, for any segment, is `MapSegment`; on success the pages are new, with the segment's permissions, its file bytes and zeros. |
| Vcpus.Vcpu.MapRegion | crates/winvpwn-core/src/cpu/unicorn_engine.rs:226-235 | Claim, map, report, each only if the one before succeeded; the views stay consistent. |
| Vcpus.Vcpu.MapStack | crates/winvpwn-core/src/cpu/unicorn_engine.rs:237-240 | A region that can be read and written. |
| Vcpus.Vcpu.SetupInitialState | crates/winvpwn-core/src/cpu/unicorn_engine.rs:262-273 | Zeroes exactly the 32 bytes below the stack top, points RSP at them and RIP at the entry, or fails and changes nothing. |
| Vcpus.Vcpu.SyscallHook | crates/winvpwn-core/src/cpu/unicorn_engine.rs:145-183 | One hook call through dispatcher, fresh context and capture is the step `EffectOf`: output appended, RAX or exit reason or error set, record added. |
| Vcpus.Vcpu.HookAt | crates/winvpwn-core/src/cpu/unicorn_engine.rs:145-183 | One hook call for a guest that has got to a given state: the abort, the stop, the shared state and the record are those of the step. |
| Vcpus.Vcpu.EmuStart | crates/winvpwn-core/src/cpu/unicorn_engine.rs:144-284 | The hook calls of a run leave the output, shared state and trace that are functions of the guest states dispatched, up to the first that stops the engine. |
| Vcpus.Vcpu.Execute | crates/winvpwn-core/src/cpu/unicorn_engine.rs:278-309 | A run's output, trace, shared state and result are functions of the guest states it dispatched; unless the host aborts, a fall-off gives its address and any other engine error is an error. |
| Vcpus.FreshCapture | crates/winvpwn-core/src/cpu/unicorn_engine.rs:157-166 | What a fresh capture combines is what the one syscall wrote to descriptor 1 or 2. |
| Booting.Boot | crates/winvpwn-core/src/python.rs:33-37 | After the load, map, stack and initial state succeed iff the image is bootable; the guest memory is then the image, zeros and the stack, and RIP and RSP are set. Otherwise it fails as the loader does, or, iff the image loads, with the mapper's error: base and fault of the first segment that does not go on, or an overlap at the stack. |
| Booting.RunElf | crates/winvpwn-core/src/python.rs:25-81 | The whole pipeline: for a bootable image the exit reason, the output, each drained trace record, the error and the abort are told from registers and memory of the dispatched guest states, and the output of a guest that respects its pages is the image bytes it prints; otherwise nothing runs, and the error or abort is that of the boot. |
| Booting.RunBooted | crates/winvpwn-core/src/python.rs:39-62 | From a clean state: ending, output and each trace record are told from the dispatched guest states and how the engine ended, as are error and abort; the trace is drained. |
| Booting.RunIsAnswered | crates/winvpwn-core/src/python.rs:39-81 | The specification of a run from a clean state has the ending, output and trace that registers and memory tell. |
| Booting.PrintsImageBytes | crates/winvpwn-core/src/syscall/dispatch_impl.rs:27-41 | At any point of a run whose guest writes only where its pages allow, a `write` from a read-only segment captures exactly those bytes of the image file. |
| Booting.OutputComesFromImage | crates/winvpwn-core/src/cpu/unicorn_engine.rs:155-168 | If every syscall of such a run prints from a read-only segment or captures nothing, the output is the concatenation of those pieces of the image file. |
| Machine.CastsKeepBits | crates/winvpwn-core/src/cpu/unicorn_engine.rs:146-172 | `as i64` and `as u64` keep the value modulo 2^64 and undo each other. |
| Machine.WrapIsModulo | crates/winvpwn-core/src/cpu/unicorn_engine.rs:193-195 | Wrapping sums and differences are those modulo 2^64. |
| Machine.MaskRoundsDown | crates/winvpwn-core/src/cpu/unicorn_engine.rs:192-194 | AND with the complement of 0xfff subtracts the remainder by 0x1000. |

## Left out

- The CPU itself: instruction execution, engine creation and failing register access. Guest steps between syscalls are arbitrary.
- `Vcpu::run`'s choice of fall-off by error text, and the timeout: how the engine ends is a parameter of a run.
- Parsing of ELF bytes: the parser's result is a parameter of the loader.
- Running out of host memory below `isize::MAX`, and 32-bit hosts.
- `GuestMemory` as an open trait: its two implementations are the cases of a datatype. The engine-backed `write` and `map_anon` are not reached by any handler and are not modelled.
- `SyscallHandler` as an open trait: handlers from outside are `OtherHandler`, whose reply depends on the registers and which do not touch the context.
- Locking of the trace sink, and drains while a run is in progress: `record` and `drain` are single steps on one shared object, and a run is taken without a drain inside it.
- Resetting `stopped` when the engine starts is the engine's doing; `EmuStart` models it as its first step.
- `write_guest`, `read_guest`, `reg`, `set_reg` `TraceSink::len`, and the accessors of output and exit reason: one call to the engine or one field each.
- Message texts, `Display`, error codes and `perms_string`; reasons of errors are datatypes.
- The Python bindings beyond building, booting and running, the command line, `doctor`, `toolchain`, `ui` and `patch`.

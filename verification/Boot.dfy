/** From an ELF image to a finished run. */
module Booting {
  import opened Machine
  import opened Mmap
  import opened Loader
  import opened Engine
  import opened AddressSpace
  import opened Loading
  import opened Trace
  import opened Dispatch
  import opened Run
  import opened Vcpus

  datatype BootError = LoadFailed(elfError: ElfError) | MapFailed(vcpuError: VcpuError)

  /** 32 pages below 0x7fff_ffff_e000. */
  function StackRange(): Region {
    Region(0x7fff_fffd_e000, 0x2_0000, 0)
  }

  /** No segment has a page in the stack. */
  ghost predicate ClearOfStack(segs: seq<Segment>) {
    ApartFromAll(StackRange(), PageRanges(segs))
  }

  ghost predicate Loadable(image: seq<u8>, parsed: Option<ParsedElf>) {
    && Supported(image, parsed)
    && LoadHeaders(parsed.value.headers) != []
    && AllAccepted(LoadHeaders(parsed.value.headers), |image|)
  }

  ghost predicate FindsRoom(image: seq<u8>, loads: seq<Phdr>)
    requires AllAccepted(loads, |image|)
  {
    PagesDisjoint(SegmentsOf(loads, image)) && ClearOfStack(SegmentsOf(loads, image))
  }

  ghost predicate Bootable(image: seq<u8>, parsed: Option<ParsedElf>) {
    Loadable(image, parsed) && FindsRoom(image, LoadHeaders(parsed.value.headers))
  }

  /** The mapper's error for an image that loads: the first segment that does not go on, or else the
      stack. */
  ghost predicate RefusesToMap(segs: seq<Segment>, e: VcpuError) {
    if PagesDisjoint(segs) then e == Map(STACK_BASE, Overlap)
    else exists k: nat ::
           && FirstUnplaced(segs, k)
           && e == Map(PageStart(segs[k]), FaultOf(PageRange(segs[k]), PageRanges(segs[..k])))
  }

  /** How an image that is not bootable fails; no error means that the host aborts. */
  ghost predicate FailsWith(image: seq<u8>, parsed: Option<ParsedElf>, e: Option<BootError>) {
    if Loadable(image, parsed) then
      && e.Some? && e.value.MapFailed?
      && RefusesToMap(SegmentsOf(LoadHeaders(parsed.value.headers), image), e.value.vcpuError)
    else
      match e
      case None => Loads(image, parsed, Panic)
      case Some(LoadFailed(x)) => Loads(image, parsed, Err(x))
      case Some(MapFailed(_)) => false
  }

  /** The guest memory of a booted image: the image as its headers ask, a stack of zeros, and nothing
      else. */
  ghost predicate Booted(image: seq<u8>, loads: seq<Phdr>, m: Memory) {
    && (forall h | h in loads :: FileBytesSeen(image, h, m))
    && (forall a | a in m && (forall h | h in loads :: !InFile(h, a)) :: m[a].val == 0)
    && (forall a :: a in m <==> (exists h :: h in loads && OnPageOf(h, a)) || Covers(StackRange(), a))
    && (forall h, a | h in loads && OnPageOf(h, a) :: a in m && m[a].perm == FlagPerm(h.flags))
    && (forall a | Covers(StackRange(), a) :: m[a] == Cell(0, Perm(true, true, false)))
  }

  /** Load, map, add the stack, set the initial registers. It succeeds exactly when the image is
      bootable, and then the guest is ready to run; otherwise it fails as the loader does, or with the
      mapper's error exactly when the image loads. */
  method Boot(image: seq<u8>, parsed: Option<ParsedElf>, dispatch: Dispatcher) returns (r: Outcome<Vcpu, BootError>)
    requires |image| <= ISIZE_MAX
    ensures r.Ok? <==> Bootable(image, parsed)
    ensures r.Err? && r.error.MapFailed? <==> Loadable(image, parsed) && !Bootable(image, parsed)
    ensures !r.Ok? ==> FailsWith(image, parsed, if r.Err? then Some(r.error) else None)
    ensures r.Ok? ==>
              && fresh(r.value) && fresh(r.value.uc) && fresh(r.value.shared) && r.value.dispatch == dispatch
              && Booted(image, LoadHeaders(parsed.value.headers), r.value.uc.mem)
              && Consistent(r.value.View()) && Covered(r.value.View()) && Agree(r.value.View())
              && r.value.uc.regs.rip == parsed.value.entry
              && r.value.uc.regs.rsp == 0x7fff_ffff_dfe0
              && r.value.shared.output == [] && r.value.shared.exitReason.None? && r.value.shared.engineError.None?
  {
    hide Loads, Booted, FindsRoom, Loadable, MapImage, MapMemory, Consistent, Covered, Agree, LoadHeaders, InitialFrame,
         Mapped, RefusesToMap, SegmentsOf;
    var elf := LoadElf(image, parsed);
    LoadOutcome(image, parsed, elf);
    match elf {
      case Err(e) => return Err(LoadFailed(e));
      case Panic => return Panic;
      case Ok(_) =>
    }
    var vcpu := new Vcpu(dispatch);
    BootOutcome(image, parsed, elf.value);
    var mapped := vcpu.MapElf(elf.value);
    if !mapped.Ok? {
      return Err(MapFailed(mapped.error));
    }
    mapped := vcpu.MapStack(STACK_BASE, STACK_SIZE);
    if !mapped.Ok? {
      return Err(MapFailed(mapped.error));
    }
    mapped := vcpu.SetupInitialState(elf.value.entry, STACK_BASE + STACK_SIZE);
    return Ok(vcpu);
  }

  lemma {:induction false} LoadOutcome(image: seq<u8>, parsed: Option<ParsedElf>, r: Outcome<LoadedElf, ElfError>)
    requires |image| <= ISIZE_MAX && Loads(image, parsed, r)
    ensures r.Ok? <==> Loadable(image, parsed)
  {
    hide Loads, AllAccepted, Supported;
    LoadsExactly(image, parsed, r);
  }

  /** What each step of a boot does, after a successful load. */
  lemma {:induction false} BootOutcome(image: seq<u8>, parsed: Option<ParsedElf>, elf: LoadedElf)
    requires |image| <= ISIZE_MAX && Loads(image, parsed, Ok(elf))
    ensures parsed.Some? && elf.entry == parsed.value.entry && Loadable(image, parsed)
    ensures var (sp, r1) := MapImage(EMPTY_SPACE, elf.segments);
      var (t, r2) := MapMemory(sp, STACK_BASE, STACK_SIZE, STACK_PERM);
      && !r1.Panic? && !r2.Panic?
      && (Bootable(image, parsed) <==> r1.Ok? && r2.Ok?)
      && (!r1.Ok? ==> FailsWith(image, parsed, Some(MapFailed(r1.error))))
      && (r1.Ok? && !r2.Ok? ==> FailsWith(image, parsed, Some(MapFailed(r2.error))))
      && (r1.Ok? && r2.Ok? ==>
            && Mapped(t.mem, STACK_BASE + STACK_SIZE - 0x20, 0x20)
            && InitialFrame(t.mem, STACK_BASE + STACK_SIZE) == t.mem
            && Booted(image, LoadHeaders(parsed.value.headers), t.mem)
            && Consistent(t) && Covered(t) && Agree(t))
  {
    hide Loads, Booted, MapImage, MapMemory, Consistent, Covered, Agree, ValidSegment, LoadHeaders, InitialFrame,
         Mapped, PagesDisjoint, AllAccepted, SegmentsOf, Placed, ApartFromAll, Supported, GuestSeesImage,
         RefusesToMap;
    var segs := elf.segments;
    LoadsExactly(image, parsed, Ok(elf));
    SegmentsComeFromHeaders(image, parsed, elf);
    EntryComesFromHeader(image, parsed, elf);
    MapsIffPagesDisjoint(segs);
    var (sp, r1) := MapImage(EMPTY_SPACE, segs);
    EmptyIsConsistent();
    MapImageKeeps(EMPTY_SPACE, segs);
    var (t, r2) := MapMemory(sp, STACK_BASE, STACK_SIZE, STACK_PERM);
    MapMemoryKeeps(sp, STACK_BASE, STACK_SIZE, STACK_PERM);
    RefusalIs(segs);
    if r1.Ok? {
      StackGoesOn(segs, sp, StackRange());
      LoadThenMap(image, parsed, elf);
      if r2.Ok? {
        BootedIs(image, LoadHeaders(parsed.value.headers), sp.mem, t.mem);
      }
    }
  }

  lemma {:induction false} RefusalIs(segs: seq<Segment>)
    requires AllValid(segs)
    ensures var (sp, r1) := MapImage(EMPTY_SPACE, segs);
      var r2 := MapMemory(sp, STACK_BASE, STACK_SIZE, STACK_PERM).1;
      && (r1.Err? ==> RefusesToMap(segs, r1.error))
      && (r1.Ok? && r2.Err? ==> RefusesToMap(segs, r2.error))
  {
    hide MapImage, MapMemory, PagesDisjoint, Placed, ValidSegment, Collides;
    MapsIffPagesDisjoint(segs);
    OneFirstUnplaced(segs);
    var sp := MapImage(EMPTY_SPACE, segs).0;
    if PagesDisjoint(segs) {
      StackGoesOn(segs, sp, StackRange());
      if !ClearOfStack(segs) { StackCollides(segs); }
    } else {
      var k: nat :| FirstUnplaced(segs, k);
      MappingStopsAt(segs, k);
    }
  }

  /** No valid segment in the stack is long enough to reach the top. */
  lemma {:induction false} StackCollides(segs: seq<Segment>)
    requires AllValid(segs) && !ClearOfStack(segs)
    ensures Collides(StackRange(), PageRanges(segs))
  {
    hide PageRange;
    var p :| p in PageRanges(segs) && !Apart(StackRange(), p);
    var k :| 0 <= k < |segs| && PageRanges(segs)[k] == p;
    assert ValidSegment(segs[k]);
    RoundingIsDivision(segs[k]);
    assert Fits(p);
  }

  lemma {:induction false} EntryComesFromHeader(image: seq<u8>, parsed: Option<ParsedElf>, elf: LoadedElf)
    requires Loads(image, parsed, Ok(elf))
    ensures parsed.Some? && elf.entry == parsed.value.entry
  {
    hide LoadHeaders, AllAccepted, SegmentsOf, Refuses;
    LoadsExactly(image, parsed, Ok(elf));
  }

  lemma {:induction false} BootedIs(image: seq<u8>, loads: seq<Phdr>, m: Memory, n: Memory)
    requires GuestSeesImage(image, loads, m)
    requires forall a :: a in n <==> a in m || Covers(StackRange(), a)
    requires forall a | a in m :: n[a] == m[a]
    requires forall a | Covers(StackRange(), a) :: n[a] == Cell(0, Perm(true, true, false))
    ensures Booted(image, loads, n)
  {
    hide InFile, OnPageOf, Covers, FlagPerm;
  }

  // ----- booting and running -----

  datatype RunReport = RunReport(exit: ExitReason, output: seq<u8>, trace: seq<TraceRecord>)

  datatype RunError = NotBooted(bootError: BootError) | RunFailed(runError: VcpuError)

  /** What a run from a clean state answers, told from the guest states it dispatched and the way the
      engine ended. */
  ghost predicate RunAnswers(done: seq<HookCall>, stop: EngineStop, r: Outcome<RunReport, RunError>) {
    var overlong := done != [] && Overlong(done[|done| - 1]);
    var unreadable := done != [] && Unreadable(done[|done| - 1]);
    && (r.Panic? <==> overlong)
    && (r.Err? <==> !overlong && (stop.Broke? || (stop.Finished? && unreadable)))
    && (r.Err? ==> r.error == RunFailed(Exec(if stop.Broke? then EngineFault else DispatchFailed)))
    && (r.Ok? ==> r.value.exit == ExitOf(done, stop) && r.value.output == AllNamedBytes(done))
    && (r.Ok? ==> |r.value.trace| == |done| - (if unreadable then 1 else 0))
    && (r.Ok? ==> forall i | 0 <= i < |r.value.trace| :: r.value.trace[i] == RecordOf(done[i], i))
  }

  /** The exit reason of a run that does not fail. */
  function ExitOf(done: seq<HookCall>, stop: EngineStop): ExitReason {
    if stop.FellOff? then Falloff(stop.rip)
    else if done != [] && AsksToExit(done[|done| - 1]) then Exit((done[|done| - 1].regs.rdi % 0x100) as u8)
    else Stopped
  }

  /** The whole pipeline with the stage-1 handlers and a fresh trace: `guest` is what the guest brings
      to each of its syscalls. `start` is the memory it begins with. */
  method RunElf(image: seq<u8>, parsed: Option<ParsedElf>, guest: seq<HookCall>, stop: EngineStop)
    returns (r: Outcome<RunReport, RunError>, ghost start: Memory)
    requires |image| <= ISIZE_MAX
    ensures !Bootable(image, parsed) ==>
              match r
              case Ok(_) => false
              case Err(RunFailed(_)) => false
              case Err(NotBooted(e)) => FailsWith(image, parsed, Some(e))
              case Panic => FailsWith(image, parsed, None)
    ensures Bootable(image, parsed) ==>
              && Booted(image, LoadHeaders(parsed.value.headers), start)
              && RunAnswers(guest[..Dispatched(StageOne(), guest)], stop, r)
    ensures r.Ok? ==> OutputIsFromImage(image, LoadHeaders(parsed.value.headers), start,
                                        guest[..Dispatched(StageOne(), guest)], r.value.output)
  {
    hide Booted, Loads, AllAccepted, FindsRoom, Consistent, Covered, Agree, LoadHeaders, Dispatched, RegisteredAll,
         FailsWith, OutputIsFromImage, ExitOf, Overlong, Unreadable, RecordOf, AllNamedBytes;
    start := map[];
    var trace := new TraceSink();
    var dispatch := new Dispatcher();
    RegisterAll(dispatch);
    dispatch.SetTrace(trace);
    var booted := Boot(image, parsed, dispatch);
    match booted {
      case Err(e) => return Err(NotBooted(e)), start;
      case Panic => return Panic, start;
      case Ok(_) =>
    }
    var vcpu := booted.value;
    start := vcpu.uc.mem;
    r := RunBooted(vcpu, trace, guest, stop);
    OutputFollowsImage(image, LoadHeaders(parsed.value.headers), start, guest[..Dispatched(StageOne(), guest)]);
  }

  /** The part after the boot: run, and collect the output and the trace. */
  method RunBooted(vcpu: Vcpu, trace: TraceSink, guest: seq<HookCall>, stop: EngineStop)
    returns (r: Outcome<RunReport, RunError>)
    requires vcpu.dispatch.handlers == StageOne() && vcpu.dispatch.trace == Some(trace) && trace.buf == []
    requires vcpu.shared.output == [] && vcpu.shared.exitReason.None? && vcpu.shared.engineError.None?
    modifies vcpu.uc, vcpu.shared, trace
    ensures RunAnswers(guest[..Dispatched(StageOne(), guest)], stop, r)
    ensures r.Ok? ==> trace.buf == []
  {
    hide Dispatched, Verdict, Outputs, Records, StageOne, RunAnswers;
    var reason := vcpu.Execute(guest, stop);
    ghost var done := guest[..Dispatched(StageOne(), guest)];
    assert [] + Outputs(StageOne(), done) == Outputs(StageOne(), done);
    assert [] + Records(StageOne(), done, 0) == Records(StageOne(), done, 0);
    RunIsAnswered(guest, stop);
    match reason {
      case Err(e) => return Err(RunFailed(e));
      case Panic => return Panic;
      case Ok(_) =>
    }
    var output := vcpu.shared.output;
    var records := trace.Drain();
    return Ok(RunReport(reason.value, output, records));
  }

  lemma {:induction false} RunIsAnswered(guest: seq<HookCall>, stop: EngineStop)
    ensures var done := guest[..Dispatched(StageOne(), guest)];
      match Meaning(StageOne(), done, stop)
      case Ok(reason) =>
        RunAnswers(done, stop, Ok(RunReport(reason, Outputs(StageOne(), done), Records(StageOne(), done, 0))))
      case Err(e) => RunAnswers(done, stop, Err(RunFailed(e)))
      case Panic => RunAnswers(done, stop, Panic)
  {
    hide Dispatched, Verdict, Outputs, Records, StageOne, AllNamedBytes, Overlong, Unreadable, RecordOf, AsksToExit;
    var done := guest[..Dispatched(StageOne(), guest)];
    OutputIsWhatWasWritten(done, 0);
    StageOneTrace(guest, 0);
    StageOneEnding(done, stop, None, None);
    if done != [] { NotBoth(done[|done| - 1]); }
  }

  lemma {:induction false} NotBoth(c: HookCall)
    ensures Unreadable(c) ==> !Overlong(c) && !AsksToExit(c)
  {
  }

  // ----- a guest that respects its pages -----

  /** The guest changes no mapping and no permission, and only bytes it may write. */
  ghost predicate GuestChanges(m: Memory, n: Memory) {
    m.Keys == n.Keys && forall a | a in m :: n[a].perm == m[a].perm && (!m[a].perm.write ==> n[a].val == m[a].val)
  }

  /** The memory when the guest goes on after syscall `i - 1`. */
  function Before(start: Memory, calls: seq<HookCall>, i: nat): Memory
    requires i <= |calls|
  {
    if i == 0 then start else calls[i - 1].mem
  }

  /** Every syscall finds the memory of the one before it, changed by the guest alone. */
  ghost predicate GuestRun(start: Memory, calls: seq<HookCall>) {
    forall i: nat | i < |calls| :: GuestChanges(Before(start, calls, i), calls[i].mem)
  }

  lemma {:induction false} FrontRuns(start: Memory, calls: seq<HookCall>)
    requires GuestRun(start, calls) && calls != []
    ensures GuestRun(start, calls[..|calls| - 1])
  {
    hide GuestChanges;
    var front := calls[..|calls| - 1];
    forall i: nat | i < |front|
      ensures GuestChanges(Before(start, front, i), front[i].mem)
    {
      assert GuestChanges(Before(start, calls, i), calls[i].mem);
    }
  }

  lemma {:induction false} ChangesTwice(m: Memory, n: Memory, o: Memory)
    requires GuestChanges(m, n) && GuestChanges(n, o)
    ensures GuestChanges(m, o)
  {
  }

  lemma {:induction false} ChangesFromStart(start: Memory, calls: seq<HookCall>, i: nat)
    requires GuestRun(start, calls) && i < |calls|
    ensures GuestChanges(start, calls[i].mem)
  {
    hide GuestChanges;
    assert GuestChanges(Before(start, calls, i), calls[i].mem);
    if i > 0 {
      ChangesFromStart(start, calls, i - 1);
      ChangesTwice(start, calls[i - 1].mem, calls[i].mem);
    }
  }

  /** A `write` to descriptor 1 or 2 of bytes that a read-only segment takes from the file. */
  predicate Prints(h: Phdr, c: HookCall) {
    && !FlagPerm(h.flags).write
    && AsI64(c.regs.rax) == 1 && (AsI64(c.regs.rdi) == 1 || AsI64(c.regs.rdi) == 2)
    && h.vaddr <= c.regs.rsi && c.regs.rsi + c.regs.rdx <= h.vaddr + h.filesz
  }

  /** The image bytes such a `write` names. */
  function Slice(image: seq<u8>, h: Phdr, c: HookCall): seq<u8>
    requires Prints(h, c) && h.offset + h.filesz <= |image|
  {
    var from := h.offset + (c.regs.rsi - h.vaddr);
    image[from..from + c.regs.rdx]
  }

  /** At every point of a run a read-only segment still holds its image bytes, so writing them out
      captures exactly those bytes of the image file. */
  lemma {:induction false} PrintsImageBytes(image: seq<u8>, loads: seq<Phdr>, start: Memory, calls: seq<HookCall>,
                                            i: nat, h: Phdr)
    requires |image| <= ISIZE_MAX && Booted(image, loads, start) && GuestRun(start, calls) && i < |calls|
    requires h in loads && Prints(h, calls[i])
    ensures h.offset + h.filesz <= |image|
    ensures NamedBytes(calls[i]) == Slice(image, h, calls[i])
  {
    hide FlagPerm, Booted, GuestRun, FileBytesSeen, GuestChanges;
    ChangesFromStart(start, calls, i);
    FileBytesStay(image, loads, start, calls[i].mem, h);
    var c := calls[i];
    assert Mapped(c.mem, c.regs.rsi, c.regs.rdx);
    assert BytesAt(c.mem, c.regs.rsi, c.regs.rdx) == Slice(image, h, c);
  }

  lemma {:induction false} FileBytesStay(image: seq<u8>, loads: seq<Phdr>, start: Memory, m: Memory, h: Phdr)
    requires Booted(image, loads, start) && GuestChanges(start, m) && h in loads && !FlagPerm(h.flags).write
    ensures h.offset + h.filesz <= |image|
    ensures forall a | h.vaddr <= a < h.vaddr + h.filesz :: a in m && m[a].val == image[h.offset + (a - h.vaddr)]
  {
    hide FlagPerm, Booted, GuestChanges;
    FileBytesHold(image, loads, start, h);
    forall a | h.vaddr <= a < h.vaddr + h.filesz
      ensures a in m && m[a].val == image[h.offset + (a - h.vaddr)]
    {
      assert InFile(h, a);
      CellStays(start, m, a);
    }
  }

  lemma {:induction false} FileBytesHold(image: seq<u8>, loads: seq<Phdr>, m: Memory, h: Phdr)
    requires Booted(image, loads, m) && h in loads
    ensures FileBytesSeen(image, h, m)
  {
  }

  lemma {:induction false} CellStays(m: Memory, n: Memory, a: int)
    requires GuestChanges(m, n) && a in m && !m[a].perm.write
    ensures a in n && n[a].val == m[a].val
  {
  }

  /** The bytes of the image file that a list of calls prints, the i-th from header `from[i]`; calls
      without one write nothing. */
  function AllSlices(image: seq<u8>, from: seq<Option<Phdr>>, calls: seq<HookCall>): seq<u8>
    requires |from| == |calls|
    requires forall i | 0 <= i < |calls| && from[i].Some? ::
               Prints(from[i].value, calls[i]) && from[i].value.offset + from[i].value.filesz <= |image|
  {
    if calls == [] then []
    else
      var n := |calls| - 1;
      AllSlices(image, from[..n], calls[..n]) + if from[n].Some? then Slice(image, from[n].value, calls[n]) else []
  }

  /** Every syscall prints from the read-only segment of its header `from[i]`, or captures nothing. */
  ghost predicate PrintedFrom(loads: seq<Phdr>, calls: seq<HookCall>, from: seq<Option<Phdr>>) {
    && |from| == |calls|
    && forall i | 0 <= i < |calls| ::
         if from[i].Some? then from[i].value in loads && Prints(from[i].value, calls[i])
         else NamedBytes(calls[i]) == []
  }

  /** From file to output: if every syscall of a run either prints from a read-only segment or captures
      nothing, the output is the concatenation of those pieces of the image file. */
  lemma {:induction false} OutputComesFromImage(image: seq<u8>, loads: seq<Phdr>, start: Memory, calls: seq<HookCall>,
                                                from: seq<Option<Phdr>>)
    requires |image| <= ISIZE_MAX && Booted(image, loads, start) && GuestRun(start, calls)
    requires PrintedFrom(loads, calls, from)
    ensures forall i | 0 <= i < |calls| && from[i].Some? :: from[i].value.offset + from[i].value.filesz <= |image|
    ensures AllNamedBytes(calls) == AllSlices(image, from, calls)
  {
    hide Booted, Prints, NamedBytes, Slice, GuestRun;
    if calls != [] {
      var n := |calls| - 1;
      FrontRuns(start, calls);
      OutputComesFromImage(image, loads, start, calls[..n], from[..n]);
      if from[n].Some? { PrintsImageBytes(image, loads, start, calls, n, from[n].value); }
    }
  }

  /** If the guest respects its pages, the output is what the calls print from the image file. */
  ghost predicate OutputIsFromImage(image: seq<u8>, loads: seq<Phdr>, start: Memory, calls: seq<HookCall>,
                                    output: seq<u8>)
    requires Booted(image, loads, start)
  {
    GuestRun(start, calls) ==>
      forall from | PrintedFrom(loads, calls, from) :: output == AllSlices(image, from, calls)
  }

  lemma {:induction false} OutputFollowsImage(image: seq<u8>, loads: seq<Phdr>, start: Memory, calls: seq<HookCall>)
    requires |image| <= ISIZE_MAX && Booted(image, loads, start)
    ensures OutputIsFromImage(image, loads, start, calls, AllNamedBytes(calls))
  {
    hide Booted, Prints, NamedBytes, AllSlices, AllNamedBytes;
    if GuestRun(start, calls) {
      forall from: seq<Option<Phdr>> | PrintedFrom(loads, calls, from)
        ensures forall i | 0 <= i < |calls| && from[i].Some? ::
                  from[i].value.offset + from[i].value.filesz <= |image|
        ensures AllNamedBytes(calls) == AllSlices(image, from, calls)
      {
        OutputComesFromImage(image, loads, start, calls, from);
      }
    }
  }
}

/** The virtual CPU: an engine, the shared state its syscall hook updates, and its address space. */
module Vcpus {
  import opened Machine
  import opened Mmap
  import opened Loader
  import opened Engine
  import opened AddressSpace
  import opened Loading
  import opened Output
  import opened Trace
  import opened Dispatch
  import opened Run

  class SharedState {
    var output: seq<u8>
    var exitReason: Option<ExitReason>
    var engineError: Option<DispatchError>

    constructor ()
      ensures output == [] && exitReason == None && engineError == None
    {
      output, exitReason, engineError := [], None, None;
    }
  }

  class Vcpu {
    const uc: Unicorn
    const shared: SharedState
    const claims: MemoryMap
    const dispatch: Dispatcher
    var regions: seq<Region>

    constructor (dispatch: Dispatcher)
      ensures this.dispatch == dispatch
      ensures fresh(uc) && fresh(shared) && fresh(claims)
      ensures View() == EMPTY_SPACE
      ensures shared.output == [] && shared.exitReason == None && shared.engineError == None
    {
      uc := new Unicorn();
      shared := new SharedState();
      claims := new MemoryMap();
      this.dispatch := dispatch;
      regions := [];
    }

    /** The three views of the guest address space. */
    ghost function View(): Space
      reads this, uc, claims
    {
      Space(claims.regions, regions, uc.mem)
    }

    // ----- mapping -----

    method MapElf(image: LoadedElf) returns (r: Outcome<(), VcpuError>)
      modifies this`regions, claims, uc`mem
      ensures (View(), r) == MapImage(old(View()), image.segments)
      ensures Consistent(old(View())) ==> Consistent(View())
      ensures r.Ok? ==> PagesFlagged(image.segments, uc.mem) && PermsKept(old(uc.mem), uc.mem)
    {
      hide MapImage, MapSegment, Consistent, PagesFlagged, PermsKept;
      MapImagePerms(View(), image.segments);
      if Consistent(View()) { MapImageKeeps(View(), image.segments); }
      var segs := image.segments;
      var i := 0;
      MapImageStarts(View(), segs);
      while i < |segs|
        invariant 0 <= i <= |segs|
        invariant MapImage(old(View()), segs[..i]) == (View(), Ok(()))
      {
        MapImageNext(old(View()), segs, i);
        var mapped := MapOneSegment(segs[i]);
        i := i + 1;
        if !mapped.Ok? {
          MapImageStops(old(View()), segs, i);
          return mapped;
        }
        assert mapped.value == ();
      }
      assert segs[..i] == segs;
      return Ok(());
    }

    /** One round of the segment loop. */
    method MapOneSegment(seg: Segment) returns (r: Outcome<(), VcpuError>)
      modifies this`regions, claims, uc`mem
      ensures (View(), r) == MapSegment(old(View()), seg)
      ensures r.Ok? ==> SegmentCells(old(uc.mem), seg, uc.mem)
    {
      MapSegmentOutcome(View(), seg);
      hide SegmentCells, BitAnd, Inserted, Mappable, MapZeroed, Store;
      MaskRoundsDown(seg.vaddr);
      var start := BitAnd(seg.vaddr, BitNot(PAGE_SIZE - 1));
      var end := Max(WrapAdd(seg.vaddr, seg.memsz), WrapAdd(seg.vaddr, seg.filesz));
      var last := WrapSub(WrapAdd(end, PAGE_SIZE), 1);
      MaskRoundsDown(last);
      var pageEnd := BitAnd(last, BitNot(PAGE_SIZE - 1));
      var size := WrapSub(pageEnd, start);
      var claimed := claims.Insert(start, size, seg.flags);
      if claimed.Err? {
        return Err(Map(start, Overlap));
      }
      var prot := Perm(false, false, false);
      if BitAnd(seg.flags, 0x4) != 0 {
        prot := prot.(read := true);
      }
      if BitAnd(seg.flags, 0x2) != 0 {
        prot := prot.(write := true);
      }
      if BitAnd(seg.flags, 0x1) != 0 {
        prot := prot.(exec := true);
      }
      var ok := uc.MemMap(start, size, prot);
      if !ok {
        return Err(Map(start, EngineRefused));
      }
      var offset := WrapSub(seg.vaddr, start);
      assert WrapAdd(start, offset) == seg.vaddr;
      if |seg.data| < seg.filesz {
        return Panic;
      }
      var data := seg.FileBytes();
      ok := uc.MemWrite(WrapAdd(start, offset), data);
      if !ok {
        return Err(Map(start, WriteRefused));
      }
      regions := regions + [Region(start, size, seg.flags)];
      return Ok(());
    }

    method MapRegion(base: u64, size: u64, prot: Perm) returns (r: Outcome<(), VcpuError>)
      modifies this`regions, claims, uc`mem
      ensures (View(), r) == MapMemory(old(View()), base, size, prot)
      ensures Consistent(old(View())) ==> Consistent(View())
    {
      hide Inserted, Mappable, MapZeroed, Consistent;
      if Consistent(View()) { MapMemoryKeeps(View(), base, size, prot); }
      var claimed := claims.Insert(base, size, 0);
      if claimed.Err? {
        return Err(Map(base, Overlap));
      }
      var ok := uc.MemMap(base, size, prot);
      if !ok {
        return Err(Map(base, EngineRefused));
      }
      regions := regions + [Region(base, size, 0)];
      return Ok(());
    }

    method MapStack(base: u64, size: u64) returns (r: Outcome<(), VcpuError>)
      modifies this`regions, claims, uc`mem
      ensures (View(), r) == MapMemory(old(View()), base, size, Perm(true, true, false))
    {
      r := MapRegion(base, size, Perm(true, true, false));
    }

    /** Writes the zeroed initial frame and points RSP and RIP. */
    method SetupInitialState(entry: u64, stackTop: u64) returns (r: Outcome<(), VcpuError>)
      modifies uc`mem, uc`regs
      ensures var argc := WrapSub(stackTop, 0x20);
        if Mapped(old(uc.mem), argc, 0x20)
        then r == Ok(()) && uc.mem == InitialFrame(old(uc.mem), stackTop)
             && uc.regs == old(uc.regs).(rsp := argc, rip := entry)
        else r == Err(RegOp) && uc.mem == old(uc.mem) && uc.regs == old(uc.regs)
      ensures r.Ok? ==> forall a | a in uc.mem :: a in old(uc.mem) && uc.mem[a] ==
                          if 0 <= a - WrapSub(stackTop, 0x20) < 0x20 then old(uc.mem)[a].(val := 0) else old(uc.mem)[a]
    {
      var argcAddr := WrapSub(stackTop, 0x20);
      var layout := Zeros(0x20);
      var ok := uc.MemWrite(argcAddr, layout);
      if !ok {
        return Err(RegOp);
      }
      uc.regs := uc.regs.(rsp := argcAddr);
      uc.regs := uc.regs.(rip := entry);
      return Ok(());
    }

    // ----- the syscall hook -----

    /** One hook call. The result is true when the host aborts instead of returning to the guest. */
    method SyscallHook() returns (aborted: bool)
      modifies uc`regs, uc`stopped, shared, dispatch.SinkObjects()
      ensures var e := old(EffectOf(dispatch.handlers, HookCall(uc.regs, uc.mem)));
        && aborted == e.result.Panic?
        && uc.regs == old(uc.regs).(rax := RaxAfter(old(uc.regs), e))
        && uc.stopped == (old(uc.stopped) || Exits(e) || e.result.Err?)
        && shared.output == old(shared.output) + StandardBytes(e)
        && shared.exitReason == (if Exits(e) then Some(e.result.value.reason) else old(shared.exitReason))
        && shared.engineError == (if e.result.Err? then Some(e.result.error) else old(shared.engineError))
      ensures dispatch.trace.Some? ==>
                (dispatch.trace.value.buf == old(dispatch.trace.value.buf)
                 + NewRecord(old(dispatch.handlers), old(HookCall(uc.regs, uc.mem)), |old(dispatch.trace.value.buf)|))
    {
      hide DispatchEffect, LiveBytes, NameFor, ArgsOf;
      ghost var call := HookCall(uc.regs, uc.mem);
      ghost var e := EffectOf(dispatch.handlers, call);
      var rax := AsI64(uc.regs.rax);
      var rdi := uc.regs.rdi;
      var rsi := uc.regs.rsi;
      var rdx := uc.regs.rdx;
      var r10 := uc.regs.r10;
      var r8 := uc.regs.r8;
      var r9 := uc.regs.r9;
      var rip := uc.regs.rip;
      var regs := FromRegs(rax, [rdi, rsi, rdx, r10, r8, r9], rip);
      var ctx := new Context(Live(uc));
      var outcome := dispatch.Dispatch(ctx, regs);
      if outcome.Panic? {
        PanicWritesNothing(dispatch.handlers, call);
        return true;
      }
      var combined := ctx.io.Combined();
      FreshCapture(e, combined);
      if |combined| != 0 {
        shared.output := shared.output + combined;
      }
      match outcome {
        case Ok(Return(ret)) =>
          uc.regs := uc.regs.(rax := AsU64(ret));
        case Ok(Exiting(reason)) =>
          shared.exitReason := Some(reason);
          uc.EmuStop();
        case Err(err) =>
          shared.engineError := Some(err);
          uc.EmuStop();
      }
      return false;
    }

    // ----- running -----

    /** The guest goes on until its state is `c`, and the hook is called. */
    method HookAt(c: HookCall) returns (aborted: bool)
      modifies uc, shared, dispatch.SinkObjects()
      ensures var e := EffectOf(dispatch.handlers, c);
        && aborted == e.result.Panic?
        && uc.stopped == (old(uc.stopped) || Exits(e) || e.result.Err?)
        && shared.output == old(shared.output) + StandardBytes(e)
        && shared.exitReason == (if Exits(e) then Some(e.result.value.reason) else old(shared.exitReason))
        && shared.engineError == (if e.result.Err? then Some(e.result.error) else old(shared.engineError))
      ensures dispatch.trace.Some? ==>
                (dispatch.trace.value.buf
                 == old(dispatch.trace.value.buf) + NewRecord(dispatch.handlers, c, |old(dispatch.trace.value.buf)|))
    {
      hide EffectOf, RaxAfter, StandardBytes, NewRecord;
      uc.regs, uc.mem := c.regs, c.mem;
      aborted := SyscallHook();
    }

    /** The engine runs until it stops: `guest` is what the guest brings to each `syscall` instruction in
        turn. There is no further hook call once the engine is told to stop. The result is true when
        the host aborts. */
    method EmuStart(guest: seq<HookCall>) returns (aborted: bool)
      modifies uc, shared, dispatch.SinkObjects()
      ensures var hs := dispatch.handlers;
        var done := guest[..Dispatched(hs, guest)];
        && aborted == Aborts(hs, done)
        && shared.output == old(shared.output) + Outputs(hs, done)
        && shared.exitReason == ExitAfter(hs, done, old(shared.exitReason))
        && shared.engineError == ErrorAfter(hs, done, old(shared.engineError))
      ensures dispatch.trace.Some? ==>
                (dispatch.trace.value.buf == old(dispatch.trace.value.buf)
                 + Records(dispatch.handlers, guest[..Dispatched(dispatch.handlers, guest)],
                           |old(dispatch.trace.value.buf)|))
    {
      hide EffectOf, RaxAfter, StandardBytes, NewRecord, Dispatched, RecordAt, RecordedCall, Outputs, Records,
           ExitAfter, ErrorAfter;
      ghost var hs := dispatch.handlers;
      RunStarts(hs, guest, if dispatch.trace.Some? then |dispatch.trace.value.buf| else 0,
                shared.exitReason, shared.engineError);
      uc.stopped := false;
      var i := 0;
      while i < |guest| && !uc.stopped
        invariant 0 <= i <= |guest| && (i == 0 ==> !uc.stopped)
        invariant dispatch.handlers == hs && dispatch.trace == old(dispatch.trace)
        invariant forall j | 0 <= j < i - 1 :: Continues(EffectOf(hs, guest[j]))
        invariant i > 0 ==> uc.stopped == !Continues(EffectOf(hs, guest[i - 1]))
        invariant i > 0 ==> !EffectOf(hs, guest[i - 1]).result.Panic?
        invariant shared.output == old(shared.output) + Outputs(hs, guest[..i])
        invariant shared.exitReason == ExitAfter(hs, guest[..i], old(shared.exitReason))
        invariant shared.engineError == ErrorAfter(hs, guest[..i], old(shared.engineError))
        invariant dispatch.trace.Some? ==>
                    (dispatch.trace.value.buf == old(dispatch.trace.value.buf)
                     + Records(hs, guest[..i], |old(dispatch.trace.value.buf)|))
      {
        OneMoreCall(hs, guest, i, if dispatch.trace.Some? then |old(dispatch.trace.value.buf)| else 0,
                    old(shared.exitReason), old(shared.engineError));
        aborted := HookAt(guest[i]);
        i := i + 1;
        if aborted {
          DispatchedIs(hs, guest, i);
          return true;
        }
      }
      DispatchedIs(hs, guest, i);
      return false;
    }

    /** Runs the guest; `stop` is how the engine ends. */
    method Execute(guest: seq<HookCall>, stop: EngineStop) returns (r: Outcome<ExitReason, VcpuError>)
      modifies uc, shared, dispatch.SinkObjects()
      ensures var hs := dispatch.handlers;
        var done := guest[..Dispatched(hs, guest)];
        && r == Verdict(hs, done, stop, old(shared.exitReason), old(shared.engineError))
        && (!r.Panic? && stop.FellOff? ==> r == Ok(Falloff(stop.rip)))
        && (!r.Panic? && stop.Broke? ==> r == Err(Exec(EngineFault)))
        && shared.output == old(shared.output) + Outputs(hs, done)
        && shared.exitReason == ExitAfter(hs, done, old(shared.exitReason))
        && shared.engineError == ErrorAfter(hs, done, old(shared.engineError))
      ensures dispatch.trace.Some? ==>
                (dispatch.trace.value.buf == old(dispatch.trace.value.buf)
                 + Records(dispatch.handlers, guest[..Dispatched(dispatch.handlers, guest)],
                           |old(dispatch.trace.value.buf)|))
    {
      hide Dispatched, Outputs, Records, ExitAfter, ErrorAfter, Aborts;
      var aborted := EmuStart(guest);
      if aborted {
        return Panic;
      }
      match stop {
        case FellOff(rip) => return Ok(Falloff(rip));
        case Broke => return Err(Exec(EngineFault));
        case Finished =>
      }
      if shared.exitReason.Some? {
        return Ok(shared.exitReason.value);
      }
      if shared.engineError.Some? {
        return Err(Exec(DispatchFailed));
      }
      return Ok(Stopped);
    }
  }

  /** What `combined` keeps of the captured bytes: those of descriptors 1 and 2. */
  function StandardBytes(e: Effect): seq<u8> {
    if e.written.Some? && (e.written.value.fd == 1 || e.written.value.fd == 2) then e.written.value.data else []
  }

  function NewRecord(hs: seq<Handler>, c: HookCall, index: nat): seq<TraceRecord> {
    var e := EffectOf(hs, c);
    if e.result.Ok? then [RecordAt(index, RecordedCall(hs, SyscallOf(c.regs), e.result.value))] else []
  }

  lemma {:induction false} FreshCapture(e: Effect, combined: seq<u8>)
    requires var b: Buffers :=
        if e.written.Some? then Appended(map[], e.written.value.fd, e.written.value.data) else map[];
      combined == Held(b, 1) + Held(b, 2)
    ensures combined == StandardBytes(e)
  {
  }

  lemma {:induction false} PanicWritesNothing(hs: seq<Handler>, c: HookCall)
    requires EffectOf(hs, c).result.Panic?
    ensures StandardBytes(EffectOf(hs, c)) == []
  {
  }

  /** Handlers write only to descriptors 1 and 2. */
  lemma {:induction false} AllBytesAreStandard(hs: seq<Handler>, c: HookCall)
    ensures StandardBytes(EffectOf(hs, c)) == BytesOf(EffectOf(hs, c))
  {
  }

  lemma {:induction false} RunStarts(hs: seq<Handler>, guest: seq<HookCall>, base: nat,
                                     exitBefore: Option<ExitReason>, errorBefore: Option<DispatchError>)
    ensures Outputs(hs, guest[..0]) == [] && Records(hs, guest[..0], base) == []
    ensures ExitAfter(hs, guest[..0], exitBefore) == exitBefore
    ensures ErrorAfter(hs, guest[..0], errorBefore) == errorBefore
  {
  }

  lemma {:induction false} OneMoreCall(hs: seq<Handler>, guest: seq<HookCall>, i: nat, base: nat,
                                       exitBefore: Option<ExitReason>, errorBefore: Option<DispatchError>)
    requires i < |guest|
    requires i > 0 ==> Continues(EffectOf(hs, guest[i - 1]))
    ensures var e := EffectOf(hs, guest[i]);
      && Outputs(hs, guest[..i + 1]) == Outputs(hs, guest[..i]) + StandardBytes(e)
      && Records(hs, guest[..i + 1], base)
         == Records(hs, guest[..i], base) + NewRecord(hs, guest[i], base + |Records(hs, guest[..i], base)|)
      && ExitAfter(hs, guest[..i + 1], exitBefore)
         == (if Exits(e) then Some(e.result.value.reason) else ExitAfter(hs, guest[..i], exitBefore))
      && ErrorAfter(hs, guest[..i + 1], errorBefore)
         == (if e.result.Err? then Some(e.result.error) else ErrorAfter(hs, guest[..i], errorBefore))
  {
    hide EffectOf, StandardBytes, RecordedCall, BytesOf, RecordAt;
    assert guest[..i + 1][..i] == guest[..i];
    AllBytesAreStandard(hs, guest[i]);
  }
}

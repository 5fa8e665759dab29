/** A run as a sequence of syscalls: what each hook call does, and what a whole run leaves. */
module Run {
  import opened Machine
  import opened Engine
  import opened Output
  import opened Trace
  import opened Dispatch
  import opened AddressSpace

  /** The guest state at one `syscall` instruction. Between two of them the guest may have changed
      its registers and memory in any way. */
  datatype HookCall = HookCall(regs: Regs, mem: Memory)

  /** How the engine ended, apart from what the hook did. */
  datatype EngineStop = Finished | FellOff(rip: u64) | Broke

  /** `args` is `[rdi, rsi, rdx, r10, r8, r9]`. */
  function FromRegs(nr: i64, args: seq<u64>, rip: u64): SyscallRegs
    requires |args| == 6
  {
    SyscallRegs(nr, args[0], args[1], args[2], args[3], args[4], args[5], rip)
  }

  function SyscallOf(r: Regs): SyscallRegs {
    FromRegs(AsI64(r.rax), [r.rdi, r.rsi, r.rdx, r.r10, r.r8, r.r9], r.rip)
  }

  /** What dispatching the syscall does; every hook call starts from a fresh context. */
  function EffectOf(hs: seq<Handler>, c: HookCall): Effect {
    DispatchEffect(hs, SyscallOf(c.regs), LiveBytes(c.mem, c.regs.rsi, c.regs.rdx))
  }

  predicate Continues(e: Effect) {
    e.result.Ok? && e.result.value.Return?
  }

  predicate Exits(e: Effect) {
    e.result.Ok? && e.result.value.Exiting?
  }

  function BytesOf(e: Effect): seq<u8> {
    if e.written.Some? then e.written.value.data else []
  }

  // ----- what a run leaves, syscall by syscall -----

  /** How many of the calls the engine gets to: up to the first that stops it. */
  function Dispatched(hs: seq<Handler>, calls: seq<HookCall>): (n: nat)
    ensures n <= |calls|
    ensures forall j | 0 <= j < n - 1 :: Continues(EffectOf(hs, calls[j]))
    ensures n < |calls| ==> n > 0 && !Continues(EffectOf(hs, calls[n - 1]))
  {
    hide EffectOf, Continues;
    if calls == [] then 0
    else
      var front := calls[..|calls| - 1];
      var n := Dispatched(hs, front);
      SameInFront(hs, calls, n);
      if n > 0 && !Continues(EffectOf(hs, calls[n - 1])) then n else n + 1
  }

  lemma {:induction false} SameInFront(hs: seq<Handler>, calls: seq<HookCall>, n: nat)
    requires n < |calls|
    ensures var front := calls[..|calls| - 1];
      && (forall j | 0 <= j < n :: Continues(EffectOf(hs, front[j])) <==> Continues(EffectOf(hs, calls[j])))
  {
    hide EffectOf, Continues;
    assert forall j | 0 <= j < n :: calls[..|calls| - 1][j] == calls[j];
  }

  /** The captured bytes, in syscall order. */
  function Outputs(hs: seq<Handler>, calls: seq<HookCall>): seq<u8> {
    if calls == [] then []
    else Outputs(hs, calls[..|calls| - 1]) + BytesOf(EffectOf(hs, calls[|calls| - 1]))
  }

  /** The trace records, numbered from `base`. */
  function Records(hs: seq<Handler>, calls: seq<HookCall>, base: nat): seq<TraceRecord> {
    if calls == [] then []
    else
      var front, c := Records(hs, calls[..|calls| - 1], base), calls[|calls| - 1];
      var e := EffectOf(hs, c);
      if e.result.Ok? then front + [RecordAt(base + |front|, RecordedCall(hs, SyscallOf(c.regs), e.result.value))]
      else front
  }

  /** The exit reason after the dispatched calls, given the one before. */
  function ExitAfter(hs: seq<Handler>, done: seq<HookCall>, before: Option<ExitReason>): Option<ExitReason> {
    if done != [] && Exits(EffectOf(hs, done[|done| - 1]))
    then Some(EffectOf(hs, done[|done| - 1]).result.value.reason) else before
  }

  function ErrorAfter(hs: seq<Handler>, done: seq<HookCall>, before: Option<DispatchError>): Option<DispatchError> {
    if done != [] && EffectOf(hs, done[|done| - 1]).result.Err?
    then Some(EffectOf(hs, done[|done| - 1]).result.error) else before
  }

  predicate Aborts(hs: seq<Handler>, done: seq<HookCall>) {
    done != [] && EffectOf(hs, done[|done| - 1]).result.Panic?
  }

  /** What `run` returns, given the shared state it leaves. */
  function Verdict(hs: seq<Handler>, done: seq<HookCall>, stop: EngineStop,
                   exitBefore: Option<ExitReason>, errorBefore: Option<DispatchError>): Outcome<ExitReason, VcpuError> {
    if Aborts(hs, done) then Panic
    else
      match stop
      case FellOff(rip) => Ok(Falloff(rip))
      case Broke => Err(Exec(EngineFault))
      case Finished =>
        if ExitAfter(hs, done, exitBefore).Some? then Ok(ExitAfter(hs, done, exitBefore).value)
        else if ErrorAfter(hs, done, errorBefore).Some? then Err(Exec(DispatchFailed))
        else Ok(Stopped)
  }

  lemma {:induction false} DispatchedIs(hs: seq<Handler>, calls: seq<HookCall>, n: nat)
    requires n <= |calls|
    requires forall j | 0 <= j < n - 1 :: Continues(EffectOf(hs, calls[j]))
    requires n < |calls| ==> n > 0 && !Continues(EffectOf(hs, calls[n - 1]))
    ensures Dispatched(hs, calls) == n
  {
  }

  // ----- the output of a run -----

  /** The bytes a call asks to be written, read off the guest's registers and memory: nonempty only
      for `write` to descriptor 1 or 2 of a mapped range. */
  function NamedBytes(c: HookCall): seq<u8> {
    if AsI64(c.regs.rax) == 1 && (AsI64(c.regs.rdi) == 1 || AsI64(c.regs.rdi) == 2)
       && c.regs.rdx <= ISIZE_MAX && Mapped(c.mem, c.regs.rsi, c.regs.rdx)
    then BytesAt(c.mem, c.regs.rsi, c.regs.rdx)
    else []
  }

  function AllNamedBytes(calls: seq<HookCall>): seq<u8> {
    if calls == [] then [] else AllNamedBytes(calls[..|calls| - 1]) + NamedBytes(calls[|calls| - 1])
  }

  /** The sum of the nonnegative results of the `write` records. */
  function WrittenTotal(records: seq<TraceRecord>): nat {
    if records == [] then 0
    else
      var r := records[|records| - 1];
      WrittenTotal(records[..|records| - 1]) + if r.nr == 1 && r.ret >= 0 then r.ret else 0
  }

  function StageOne(): seq<Handler> {
    RegisteredAll([], STAGE_ONE)
  }

  /** One stage-1 syscall: the bytes it captures are the named bytes, and if it is recorded as a
      `write` with a nonnegative result, that result counts them. */
  lemma {:induction false} StageOneEffect(c: HookCall)
    ensures var e := EffectOf(StageOne(), c);
      && BytesOf(e) == NamedBytes(c)
      && (e.written.Some? ==> e.written.value.fd == 1 || e.written.value.fd == 2)
      && (!e.result.Ok? ==> BytesOf(e) == [])
      && (e.result.Ok? ==>
            |BytesOf(e)| == if AsI64(c.regs.rax) == 1 && RetOf(e.result.value) >= 0 then RetOf(e.result.value) else 0)
  {
    hide RegisteredAll, Find, BytesAt, Mapped, ExitCode;
    StageOneTable(AsI64(c.regs.rax));
  }

  // ----- a stage-1 syscall, told from registers and memory alone -----

  /** `write` to descriptor 1 or 2. */
  predicate AsksToWrite(c: HookCall) {
    c.regs.rax == 1 && (c.regs.rdi == 1 || c.regs.rdi == 2)
  }

  /** `exit` or `exit_group`. */
  predicate AsksToExit(c: HookCall) {
    c.regs.rax == 60 || c.regs.rax == 231
  }

  /** A `write` of more bytes than an allocation can hold. */
  predicate Overlong(c: HookCall) {
    AsksToWrite(c) && c.regs.rdx > 0x7fff_ffff_ffff_ffff
  }

  /** A `write` of bytes that are not all mapped. */
  predicate Unreadable(c: HookCall) {
    AsksToWrite(c) && !Overlong(c) && exists a | c.regs.rsi <= a < c.regs.rsi + c.regs.rdx :: a !in c.mem
  }

  predicate Fails(c: HookCall) {
    Overlong(c) || Unreadable(c)
  }

  predicate Stops(c: HookCall) {
    AsksToExit(c) || Fails(c)
  }

  /** The result a resumed guest finds in RAX, as a signed number; 0 for an exit. */
  function ReplyOf(c: HookCall): i64 {
    if AsksToExit(c) then 0
    else if AsksToWrite(c) then (if Overlong(c) then 0 else c.regs.rdx)
    else if c.regs.rax == 1 then -9
    else -38
  }

  /** The record of a syscall that does not fail. */
  function RecordOf(c: HookCall, index: nat): TraceRecord {
    var name := if c.regs.rax == 1 then "write" else if c.regs.rax == 60 then "exit"
                else if c.regs.rax == 231 then "exit_group" else "<unimplemented>";
    TraceRecord(index, AsI64(c.regs.rax), name,
                [c.regs.rdi, c.regs.rsi, c.regs.rdx, c.regs.r10, c.regs.r8, c.regs.r9], ReplyOf(c), c.regs.rip)
  }

  /** The whole effect of a stage-1 syscall. */
  lemma {:induction false} StageOneIs(c: HookCall)
    ensures var e := EffectOf(StageOne(), c);
      && e.written == (if AsksToWrite(c) && !Fails(c)
                       then Some(FdWrite(c.regs.rdi, BytesAt(c.mem, c.regs.rsi, c.regs.rdx))) else None)
      && e.process == (if AsksToExit(c) then Some(Exited((c.regs.rdi % 0x100) as u8)) else None)
      && e.result == (if Overlong(c) then Panic
                      else if Unreadable(c) then Err(EngineError)
                      else if AsksToExit(c) then Ok(Exiting(Exit((c.regs.rdi % 0x100) as u8)))
                      else Ok(Return(ReplyOf(c))))
  {
    hide RegisteredAll, Find, BytesAt, HandlerEffect, LiveBytes;
    StageOneTable(AsI64(c.regs.rax));
    ReadOf(c);
    var h := Find(StageOne(), AsI64(c.regs.rax));
    if h.Some? {
      HandlersAnswer(h.value, SyscallOf(c.regs), LiveBytes(c.mem, c.regs.rsi, c.regs.rdx));
    }
  }

  lemma {:induction false} ReadOf(c: HookCall)
    ensures var bytes := LiveBytes(c.mem, c.regs.rsi, c.regs.rdx);
      && (bytes.Ok? ==> |bytes.value| == c.regs.rdx <= ISIZE_MAX)
      && (AsksToWrite(c) ==>
            bytes == if Overlong(c) then Panic else if Unreadable(c) then Err(())
                     else Ok(BytesAt(c.mem, c.regs.rsi, c.regs.rdx)))
  {
    hide BytesAt;
  }

  /** The hook leaves the reply in RAX, and leaves RAX as it was when the guest does not resume. */
  lemma {:induction false} StageOneRax(c: HookCall)
    ensures RaxAfter(c.regs, EffectOf(StageOne(), c)) ==
            if Stops(c) then c.regs.rax else ReplyOf(c) % 0x1_0000_0000_0000_0000
  {
    hide StageOne, EffectOf;
    StageOneIs(c);
    CastsKeepBits(c.regs.rax, ReplyOf(c));
  }

  /** A run goes on to the first syscall that stops it, or to the last. */
  lemma {:induction false} StageOneDispatched(calls: seq<HookCall>)
    ensures var n := Dispatched(StageOne(), calls);
      && n <= |calls|
      && (forall j | 0 <= j < n - 1 :: !Stops(calls[j]))
      && (n < |calls| ==> n > 0 && Stops(calls[n - 1]))
  {
    hide StageOne, EffectOf, Dispatched, Stops;
    forall j | 0 <= j < |calls|
      ensures Continues(EffectOf(StageOne(), calls[j])) <==> !Stops(calls[j])
    {
      StageOneContinues(calls[j]);
    }
  }

  lemma {:induction false} StageOneContinues(c: HookCall)
    ensures Continues(EffectOf(StageOne(), c)) <==> !Stops(c)
  {
    hide StageOne, EffectOf;
    StageOneIs(c);
  }

  /** Over every stage-1 run the captured output is the guest bytes named by the successful writes,
      in syscall order, and its length is the sum of the nonnegative results of the `write` records. */
  lemma {:induction false} OutputIsWhatWasWritten(calls: seq<HookCall>, base: nat)
    ensures Outputs(StageOne(), calls) == AllNamedBytes(calls)
    ensures |Outputs(StageOne(), calls)| == WrittenTotal(Records(StageOne(), calls, base))
  {
    hide StageOne, EffectOf, NamedBytes, BytesOf, RecordedCall;
    if calls != [] {
      var front, c := calls[..|calls| - 1], calls[|calls| - 1];
      OutputIsWhatWasWritten(front, base);
      StageOneEffect(c);
      var e := EffectOf(StageOne(), c);
      if e.result.Ok? {
        var before := Records(StageOne(), front, base);
        RecordFields(base + |before|, StageOne(), c, e.result.value);
        TotalPush(before, RecordAt(base + |before|, RecordedCall(StageOne(), SyscallOf(c.regs), e.result.value)));
      }
    }
  }

  lemma {:induction false} TotalPush(records: seq<TraceRecord>, r: TraceRecord)
    ensures WrittenTotal(records + [r]) == WrittenTotal(records) + if r.nr == 1 && r.ret >= 0 then r.ret else 0
  {
  }

  lemma {:induction false} RecordFields(index: nat, hs: seq<Handler>, c: HookCall, outcome: SyscallOutcome)
    ensures RecordAt(index, RecordedCall(hs, SyscallOf(c.regs), outcome))
            == TraceRecord(index, AsI64(c.regs.rax), NameFor(hs, AsI64(c.regs.rax)),
                           [c.regs.rdi, c.regs.rsi, c.regs.rdx, c.regs.r10, c.regs.r8, c.regs.r9],
                           RetOf(outcome), c.regs.rip)
  {
  }

  // ----- the trace of a run -----

  /** The record of a call, and what the hook did with its result. */
  ghost predicate Traces(hs: seq<Handler>, c: HookCall, index: nat, r: TraceRecord) {
    var e := EffectOf(hs, c);
    && r == TraceRecord(index, AsI64(c.regs.rax), NameFor(hs, AsI64(c.regs.rax)),
                        [c.regs.rdi, c.regs.rsi, c.regs.rdx, c.regs.r10, c.regs.r8, c.regs.r9], r.ret, c.regs.rip)
    && (Continues(e) ==> RaxAfter(c.regs, e) == AsU64(r.ret) && AsI64(RaxAfter(c.regs, e)) == r.ret)
    && (Exits(e) ==> r.ret == 0)
    && (Continues(e) || Exits(e))
  }

  /** RAX after the hook returns. */
  function RaxAfter(regs: Regs, e: Effect): u64 {
    if Continues(e) then AsU64(e.result.value.ret) else regs.rax
  }

  /** Over every run, for the three handlers and any that answer from the registers alone: record `i` is
      that of the `i`-th dispatched syscall, the result it shows is what was written to RAX (0 for an
      exit), only the last call can have stopped the run, and only a last call that ended in an error or
      an abort has no record. */
  lemma {:induction false} TraceMatchesRun(hs: seq<Handler>, calls: seq<HookCall>, base: nat)
    ensures var n := Dispatched(hs, calls);
      var records := Records(hs, calls[..n], base);
      && |records| == n - (if n > 0 && !EffectOf(hs, calls[n - 1]).result.Ok? then 1 else 0)
      && (forall i | 0 <= i < |records| :: Traces(hs, calls[i], base + i, records[i]))
      && (forall i | 0 <= i < n - 1 :: Continues(EffectOf(hs, calls[i])))
  {
    hide EffectOf, Traces, Dispatched, Continues;
    var n := Dispatched(hs, calls);
    if n > 0 {
      var front := calls[..n - 1];
      assert forall i | 0 <= i < |front| :: front[i] == calls[i];
      RecordsOfContinuing(hs, front, base);
      assert calls[..n][..n - 1] == front;
      LastRecord(hs, calls[n - 1], base + n - 1);
    }
  }

  lemma {:induction false} LastRecord(hs: seq<Handler>, c: HookCall, index: nat)
    ensures EffectOf(hs, c).result.Ok? ==>
              Traces(hs, c, index, RecordAt(index, RecordedCall(hs, SyscallOf(c.regs), EffectOf(hs, c).result.value)))
  {
  }

  lemma {:induction false} RecordsOfContinuing(hs: seq<Handler>, calls: seq<HookCall>, base: nat)
    requires forall i | 0 <= i < |calls| :: Continues(EffectOf(hs, calls[i]))
    ensures |Records(hs, calls, base)| == |calls|
    ensures forall i | 0 <= i < |calls| :: Traces(hs, calls[i], base + i, Records(hs, calls, base)[i])
  {
    hide EffectOf, Traces;
    if calls != [] {
      RecordsOfContinuing(hs, calls[..|calls| - 1], base);
      LastRecord(hs, calls[|calls| - 1], base + |calls| - 1);
    }
  }

  /** The trace of a stage-1 run, record by record. */
  lemma {:induction false} StageOneTrace(guest: seq<HookCall>, base: nat)
    ensures var done := guest[..Dispatched(StageOne(), guest)];
      var records := Records(StageOne(), done, base);
      && |records| == |done| - (if done != [] && Fails(done[|done| - 1]) then 1 else 0)
      && forall i | 0 <= i < |records| :: records[i] == RecordOf(done[i], base + i)
  {
    hide StageOne, EffectOf, Dispatched, Traces, RecordOf, Records, Overlong, Unreadable;
    TraceMatchesRun(StageOne(), guest, base);
    var done := guest[..Dispatched(StageOne(), guest)];
    var records := Records(StageOne(), done, base);
    if done != [] { StageOneIs(done[|done| - 1]); }
    forall i | 0 <= i < |records|
      ensures records[i] == RecordOf(done[i], base + i)
    {
      TracedIs(done[i], base + i, records[i]);
    }
  }

  lemma {:induction false} TracedIs(c: HookCall, index: nat, r: TraceRecord)
    requires Traces(StageOne(), c, index, r)
    ensures r == RecordOf(c, index)
  {
    hide RegisteredAll, EffectOf, NameFor;
    StageOneIs(c);
    StageOneNames(AsI64(c.regs.rax));
    CastsKeepBits(c.regs.rax, ReplyOf(c));
  }

  // ----- interleaved and grouped output of a run -----

  /** The successful writes of a run. */
  function WritesOf(hs: seq<Handler>, calls: seq<HookCall>): seq<FdWrite> {
    if calls == [] then []
    else
      var e := EffectOf(hs, calls[|calls| - 1]);
      WritesOf(hs, calls[..|calls| - 1]) + if e.written.Some? then [e.written.value] else []
  }

  /** The writes that a list of calls asks for and that can be read, each with its descriptor. */
  function NamedWrites(calls: seq<HookCall>): seq<FdWrite> {
    if calls == [] then []
    else
      var c := calls[|calls| - 1];
      NamedWrites(calls[..|calls| - 1])
      + if AsksToWrite(c) && !Fails(c)
        then [FdWrite(c.regs.rdi, BytesAt(c.mem, c.regs.rsi, c.regs.rdx))] else []
  }

  /** The shared output is in issue order; replaying the same writes into one capture gives all of
      descriptor 1 and then all of descriptor 2, with the same bytes in all. */
  lemma {:induction false} RunOutputIsInterleaved(calls: seq<HookCall>)
    ensures var ws := WritesOf(StageOne(), calls);
      && ws == NamedWrites(calls) && Standard(ws)
      && Outputs(StageOne(), calls) == Issued(ws)
      && Grouped(ws) == Substream(ws, 1) + Substream(ws, 2)
      && |Grouped(ws)| == |Outputs(StageOne(), calls)|
      && multiset(Grouped(ws)) == multiset(Outputs(StageOne(), calls))
  {
    hide StageOne, EffectOf, Grouped, Substream;
    WritesAreIssued(calls);
    WritesAreNamed(calls);
    GroupedKeepsBytes(WritesOf(StageOne(), calls));
  }

  lemma {:induction false} WritesAreNamed(calls: seq<HookCall>)
    ensures WritesOf(StageOne(), calls) == NamedWrites(calls)
  {
    hide StageOne, EffectOf, BytesAt, AsksToWrite, Overlong;
    if calls != [] {
      WritesAreNamed(calls[..|calls| - 1]);
      StageOneIs(calls[|calls| - 1]);
    }
  }

  lemma {:induction false} WritesAreIssued(calls: seq<HookCall>)
    ensures Standard(WritesOf(StageOne(), calls))
    ensures Outputs(StageOne(), calls) == Issued(WritesOf(StageOne(), calls))
  {
    hide StageOne, EffectOf, NamedBytes;
    if calls != [] {
      WritesAreIssued(calls[..|calls| - 1]);
      StageOneEffect(calls[|calls| - 1]);
      var ws := WritesOf(StageOne(), calls[..|calls| - 1]);
      var e := EffectOf(StageOne(), calls[|calls| - 1]);
      if e.written.Some? {
        IssuedPush(ws, e.written.value);
      } else {
        assert ws + [] == ws && Issued(ws) + [] == Issued(ws);
      }
    }
  }

  lemma {:induction false} IssuedPush(ws: seq<FdWrite>, w: FdWrite)
    ensures Issued(ws + [w]) == Issued(ws) + w.data
    ensures Standard(ws) && (w.fd == 1 || w.fd == 2) ==> Standard(ws + [w])
  {
  }

  // ----- the result of a run -----

  /** What a run would return if it started from a clean shared state. */
  function Meaning(hs: seq<Handler>, done: seq<HookCall>, stop: EngineStop): Outcome<ExitReason, VcpuError> {
    Verdict(hs, done, stop, None, None)
  }

  /** How a stage-1 run ends, for every way the engine can end and whatever earlier runs left. */
  lemma {:induction false} StageOneEnding(done: seq<HookCall>, stop: EngineStop,
                                          exitBefore: Option<ExitReason>, errorBefore: Option<DispatchError>)
    ensures var r := Verdict(StageOne(), done, stop, exitBefore, errorBefore);
      && (r.Panic? <==> done != [] && Overlong(done[|done| - 1]))
      && (!r.Panic? && stop.FellOff? ==> r == Ok(Falloff(stop.rip)))
      && (!r.Panic? && stop.Broke? ==> r == Err(Exec(EngineFault)))
      && (!r.Panic? && stop.Finished? ==>
            r == if done != [] && AsksToExit(done[|done| - 1])
                 then Ok(Exit((done[|done| - 1].regs.rdi % 0x100) as u8))
                 else if exitBefore.Some? then Ok(exitBefore.value)
                 else if errorBefore.Some? || (done != [] && Unreadable(done[|done| - 1]))
                 then Err(Exec(DispatchFailed))
                 else Ok(Stopped))
  {
    hide EffectOf, StageOne;
    if done != [] { StageOneIs(done[|done| - 1]); }
  }

  /** A stage-1 run from a clean state that the engine does not break off returns `Exit(code)` exactly
      when its last syscall is an exit with that status modulo 256, and an error exactly when its last
      syscall is a `write` whose bytes could not be read. */
  lemma {:induction false} RunEndsAsAsked(done: seq<HookCall>, code: u8)
    ensures var r := Meaning(StageOne(), done, Finished);
      && (r == Ok(Exit(code)) <==>
            && done != []
            && (AsI64(done[|done| - 1].regs.rax) == 60 || AsI64(done[|done| - 1].regs.rax) == 231)
            && code == (done[|done| - 1].regs.rdi % 0x100) as u8)
      && (r.Err? <==>
            && done != []
            && var c := done[|done| - 1];
               && AsI64(c.regs.rax) == 1 && (AsI64(c.regs.rdi) == 1 || AsI64(c.regs.rdi) == 2)
               && c.regs.rdx <= ISIZE_MAX && !Mapped(c.mem, c.regs.rsi, c.regs.rdx))
  {
    hide EffectOf, StageOne;
    if done != [] { StageOneIs(done[|done| - 1]); }
  }

  /** A page of code with a `syscall` instruction at its start. */
  function CodePage(): Memory {
    Store(MapZeroed(map[], 0x40_0000, PAGE_SIZE, Perm(true, false, true)), 0x40_0000, [0x0f, 0x05])
  }

  /** A `write` of one byte from an unmapped address: the dispatch fails. */
  function FaultingWrite(): HookCall {
    HookCall(Regs(1, 1, 0x50_0000, 1, 0, 0, 0, 0x40_0000, 0), CodePage())
  }

  lemma {:induction false} FaultingWriteFails()
    ensures EffectOf(StageOne(), FaultingWrite()).result == Err(EngineError)
    ensures Dispatched(StageOne(), [FaultingWrite()]) == 1
  {
    hide StageOne, EffectOf, Store, MapZeroed, Dispatched;
    var c := FaultingWrite();
    assert 0x50_0000 !in c.mem && !Mapped(c.mem, 0x50_0000, 1);
    StageOneIs(c);
    DispatchedIs(StageOne(), [c], 1);
  }

  /** One run's result is its own, whatever was left before, in exactly these cases: it aborts, the
      engine breaks it off, it ends in an exit, nothing relevant was left, or what was left is what it
      returns anyway. */
  lemma {:induction false} OneResultIsOwnIff(hs: seq<Handler>, done: seq<HookCall>, stop: EngineStop,
                                             exitBefore: Option<ExitReason>, errorBefore: Option<DispatchError>)
    ensures Verdict(hs, done, stop, exitBefore, errorBefore) == Meaning(hs, done, stop) <==>
            || Aborts(hs, done) || stop != Finished
            || ExitAfter(hs, done, None).Some?
            || (exitBefore.None? && (errorBefore.None? || ErrorAfter(hs, done, None).Some?))
            || (exitBefore == Some(Stopped) && ErrorAfter(hs, done, None).None?)
  {
    hide EffectOf;
  }

  /** `run` reports this run's own ending, whatever the guest does, if and only if no earlier run on
      the same CPU has left an exit reason or an engine error behind. */
  lemma {:induction false} ResultIsOwnIff(exitBefore: Option<ExitReason>, errorBefore: Option<DispatchError>)
    ensures (forall calls: seq<HookCall>, stop: EngineStop ::
               var done := calls[..Dispatched(StageOne(), calls)];
               Verdict(StageOne(), done, stop, exitBefore, errorBefore) == Meaning(StageOne(), done, stop))
            <==> exitBefore.None? && errorBefore.None?
  {
    hide StageOne, EffectOf, FaultingWrite;
    var one: seq<HookCall> := [FaultingWrite()];
    FaultingWriteFails();
    assert one[..Dispatched(StageOne(), one)] == one;
    var none: seq<HookCall> := [];
    assert none[..Dispatched(StageOne(), none)] == none;
    if exitBefore.Some? {
      assert Verdict(StageOne(), one, Finished, exitBefore, errorBefore) != Meaning(StageOne(), one, Finished);
    } else if errorBefore.Some? {
      assert Verdict(StageOne(), none, Finished, exitBefore, errorBefore) != Meaning(StageOne(), none, Finished);
    }
  }

  // ----- the stored exit reason after a run -----

  /** The stored exit reason is that of the run just made, if and only if none was stored before or the
      run itself ended in an exit. */
  lemma {:induction false} OneExitReasonIsOwnIff(hs: seq<Handler>, done: seq<HookCall>, before: Option<ExitReason>)
    ensures ExitAfter(hs, done, before) == ExitAfter(hs, done, None) <==>
            before.None? || (done != [] && Exits(EffectOf(hs, done[|done| - 1])))
  {
    hide EffectOf;
  }

  /** The stored exit reason is always that of the run just made, whatever the guest does, if and only
      if no earlier run has stored one; an earlier error does no harm. */
  lemma {:induction false} ExitReasonIsOwnIff(before: Option<ExitReason>)
    ensures (forall calls: seq<HookCall> ::
               var done := calls[..Dispatched(StageOne(), calls)];
               ExitAfter(StageOne(), done, before) == ExitAfter(StageOne(), done, None))
            <==> before.None?
  {
    hide StageOne, EffectOf;
    var none: seq<HookCall> := [];
    assert none[..Dispatched(StageOne(), none)] == none;
    if before.Some? {
      assert ExitAfter(StageOne(), none, before) != ExitAfter(StageOne(), none, None);
    }
  }

  /** Even from a clean state the stored exit reason is the one returned if and only if the engine
      finished and the last syscall of the run is an exit. */
  lemma {:induction false} StoredIsReturnedIff(done: seq<HookCall>, stop: EngineStop)
    ensures var r := Meaning(StageOne(), done, stop);
      r.Ok? && ExitAfter(StageOne(), done, None) == Some(r.value) <==>
      && stop == Finished && done != []
      && (AsI64(done[|done| - 1].regs.rax) == 60 || AsI64(done[|done| - 1].regs.rax) == 231)
  {
    hide EffectOf, StageOne;
    if done != [] { StageOneIs(done[|done| - 1]); }
  }

  /** A run that falls off without a syscall, after one that exited: `run` returns this run's ending,
      and the stored reason is still the old one. */
  lemma {:induction false} StaleExitReason(code: u8, rip: u64)
    ensures Verdict(StageOne(), [], FellOff(rip), Some(Exit(code)), None) == Ok(Falloff(rip))
    ensures ExitAfter(StageOne(), [], Some(Exit(code))) == Some(Exit(code))
    ensures ExitAfter(StageOne(), [], None) == None
  {
  }
}

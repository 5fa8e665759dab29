/** Syscall dispatch: a handler vector that routes numbers to handlers, and the three handlers. */
module Dispatch {
  import opened Machine
  import opened Sorting
  import opened Engine
  import opened GuestMem
  import opened Output
  import opened Trace

  const ENOSYS: i64 := 38
  const EBADF: i64 := 9

  datatype ProcessState = Running | Exited(code: u8)

  datatype DispatchError = Mismatch | EngineError

  datatype SyscallRegs =
    SyscallRegs(nr: i64, arg0: u64, arg1: u64, arg2: u64, arg3: u64, arg4: u64, arg5: u64, rip: u64)

  type Reply = Outcome<SyscallOutcome, DispatchError>

  // ----- guest memory, as a handler sees it -----

  datatype GuestMemory = InMem(guest: InMemGuest) | Live(uc: Unicorn)

  /** What reading the live engine gives: all the bytes, or an error. */
  function LiveBytes(m: Memory, addr: u64, len: usize): Outcome<seq<u8>, ()> {
    if len > ISIZE_MAX then Panic
    else if Mapped(m, addr, len) then Ok(BytesAt(m, addr, len))
    else Err(())
  }

  function ChunkBytes(m: Layout, addr: u64, len: usize): Outcome<seq<u8>, ()> {
    if len > ISIZE_MAX then Panic
    else
      match ChunkRead(m, addr, len)
      case Ok(d) => Ok(d)
      case Err(_) => Err(())
      case Panic => Panic
  }

  function SeenBytes(g: GuestMemory, addr: u64, len: usize): Outcome<seq<u8>, ()>
    reads if g.InMem? then {g.guest as object} else {g.uc as object}
  {
    match g
    case InMem(guest) => ChunkBytes(guest.bytes, addr, len)
    case Live(uc) => LiveBytes(uc.mem, addr, len)
  }

  lemma {:induction false} SeenFits(g: GuestMemory, addr: u64, len: usize)
    ensures SeenBytes(g, addr, len).Ok? ==> |SeenBytes(g, addr, len).value| == len <= ISIZE_MAX
  {
  }

  method ReadGuest(g: GuestMemory, addr: u64, len: usize) returns (r: Outcome<seq<u8>, ()>)
    ensures r == SeenBytes(g, addr, len)
    ensures r.Ok? ==> |r.value| == len <= ISIZE_MAX
  {
    match g
    case InMem(guest) =>
      var d := guest.Read(addr, len);
      r := match d case Ok(v) => Ok(v) case Err(_) => Err(()) case Panic => Panic;
    case Live(uc) =>
      if len > ISIZE_MAX {
        return Panic;
      }
      var d := uc.MemRead(addr, len);
      r := if d.Some? then Ok(d.value) else Err(());
  }

  class Context {
    var process: ProcessState
    const mem: GuestMemory
    const io: OutputCapture

    constructor (mem: GuestMemory)
      ensures process == Running && this.mem == mem && fresh(io) && io.buffers == map[]
    {
      process := Running;
      this.mem := mem;
      io := new OutputCapture();
    }
  }

  // ----- handlers -----

  /** The stage-1 handlers; `OtherHandler` stands for one registered from outside. */
  datatype Handler =
    | WriteHandler
    | ExitHandler
    | ExitGroupHandler
    | OtherHandler(nr: i64, tag: string, reply: SyscallRegs -> Reply)
  {
    function Number(): i64 {
      match this
      case WriteHandler => 1
      case ExitHandler => 60
      case ExitGroupHandler => 231
      case OtherHandler(nr, _, _) => nr
    }

    function Name(): string {
      match this
      case WriteHandler => "write"
      case ExitHandler => "exit"
      case ExitGroupHandler => "exit_group"
      case OtherHandler(_, tag, _) => tag
    }
  }

  /** What a dispatched syscall does: its result, the new process state, and the captured bytes. */
  datatype Effect = Effect(result: Reply, process: Option<ProcessState>, written: Option<FdWrite>)

  /** `bytes` is what reading `arg2` bytes from `arg1` gives. */
  function HandlerEffect(h: Handler, regs: SyscallRegs, bytes: Outcome<seq<u8>, ()>): Effect {
    match h
    case WriteHandler =>
      var fd := AsI64(regs.arg0);
      if fd != 1 && fd != 2 then Effect(Ok(Return(-EBADF)), None, None)
      else (
        match bytes
        case Ok(d) => Effect(Ok(Return(LenAsI64(|d|))), None, Some(FdWrite(fd, d)))
        case Err(_) => Effect(Err(EngineError), None, None)
        case Panic => Effect(Panic, None, None)
      )
    case OtherHandler(_, _, reply) => Effect(reply(regs), None, None)
    case _ =>
      var code := ExitCode(regs.arg0);
      Effect(Ok(Exiting(Exit(code))), Some(Exited(code)), None)
  }

  /** `len() as i64` */
  function LenAsI64(n: nat): i64 {
    AsI64(n % WORD)
  }

  /** `(status & 0xff) as u8` */
  function ExitCode(status: u64): u8 {
    MaskLowByte(status);
    BitAnd(status, 0xff) as u8
  }

  /** What each handler answers, whichever memory the bytes are read from. */
  lemma {:induction false} HandlersAnswer(h: Handler, regs: SyscallRegs, bytes: Outcome<seq<u8>, ()>)
    requires bytes.Ok? ==> |bytes.value| <= ISIZE_MAX
    ensures var e := HandlerEffect(h, regs, bytes);
      match h
      case WriteHandler =>
        && e.result == (if regs.arg0 != 1 && regs.arg0 != 2 then Ok(Return(-9))
                        else if bytes.Ok? then Ok(Return(|bytes.value|))
                        else if bytes.Err? then Err(EngineError)
                        else Panic)
        && e.written == (if (regs.arg0 == 1 || regs.arg0 == 2) && bytes.Ok?
                         then Some(FdWrite(regs.arg0, bytes.value)) else None)
        && e.process == None
      case OtherHandler(_, _, reply) => e == Effect(reply(regs), None, None)
      case _ =>
        var code := (regs.arg0 % 0x100) as u8;
        e == Effect(Ok(Exiting(Exit(code))), Some(Exited(code)), None)
  {
    MaskLowByte(regs.arg0);
  }

  method Handle(h: Handler, ctx: Context, regs: SyscallRegs) returns (r: Reply)
    modifies ctx`process, ctx.io
    ensures var e := old(HandlerEffect(h, regs, SeenBytes(ctx.mem, regs.arg1, regs.arg2)));
      && r == e.result
      && ctx.process == (if e.process.Some? then e.process.value else old(ctx.process))
      && ctx.io.buffers == (if e.written.Some?
                            then Appended(old(ctx.io.buffers), e.written.value.fd, e.written.value.data)
                            else old(ctx.io.buffers))
    ensures h.WriteHandler? && (regs.arg0 == 1 || regs.arg0 == 2) && r.Ok? ==>
              var bytes := old(SeenBytes(ctx.mem, regs.arg1, regs.arg2));
              && bytes.Ok? && r == Ok(Return(|bytes.value|))
              && ctx.io.buffers == Appended(old(ctx.io.buffers), regs.arg0, bytes.value)
    ensures h.ExitHandler? || h.ExitGroupHandler? ==>
              && r == Ok(Exiting(Exit((regs.arg0 % 0x100) as u8)))
              && ctx.process == Exited((regs.arg0 % 0x100) as u8)
  {
    ghost var seen := SeenBytes(ctx.mem, regs.arg1, regs.arg2);
    SeenFits(ctx.mem, regs.arg1, regs.arg2);
    HandlersAnswer(h, regs, seen);
    match h
    case WriteHandler =>
      var fd := AsI64(regs.arg0);
      var ptr := regs.arg1;
      var count := regs.arg2;
      if fd != 1 && fd != 2 {
        return Ok(Return(-EBADF));
      }
      var data := ReadGuest(ctx.mem, ptr, count);
      match data {
        case Err(_) => return Err(EngineError);
        case Panic => return Panic;
        case Ok(d) =>
          ctx.io.Write(fd, d);
          return Ok(Return(LenAsI64(|d|)));
      }
    case OtherHandler(_, _, reply) =>
      return reply(regs);
    case _ =>
      var code := ExitCode(regs.arg0);
      ctx.process := Exited(code);
      return Ok(Exiting(Exit(code)));
  }

  // ----- the dispatcher -----

  function Retain(hs: seq<Handler>, nr: i64): (kept: seq<Handler>)
    ensures forall h | h in kept :: h in hs && h.Number() != nr
    ensures forall h | h in hs && h.Number() != nr :: h in kept
  {
    if hs == [] then []
    else Retain(hs[..|hs| - 1], nr) + if hs[|hs| - 1].Number() != nr then [hs[|hs| - 1]] else []
  }

  function Registered(hs: seq<Handler>, h: Handler): seq<Handler> {
    Retain(hs, h.Number()) + [h]
  }

  /** The first handler for `nr`. */
  function Find(hs: seq<Handler>, nr: i64): (r: Option<Handler>)
    ensures r.Some? ==> r.value in hs && r.value.Number() == nr
    ensures r.None? ==> forall h | h in hs :: h.Number() != nr
    ensures r.Some? ==> exists i :: 0 <= i < |hs| && hs[i] == r.value && forall j | 0 <= j < i :: hs[j].Number() != nr
  {
    if hs == [] then None else if hs[0].Number() == nr then Some(hs[0]) else Find(hs[1..], nr)
  }

  function DispatchEffect(hs: seq<Handler>, regs: SyscallRegs, bytes: Outcome<seq<u8>, ()>): Effect {
    match Find(hs, regs.nr)
    case Some(h) => HandlerEffect(h, regs, bytes)
    case None => Effect(Ok(Return(-ENOSYS)), None, None)
  }

  function NameFor(hs: seq<Handler>, nr: i64): string {
    match Find(hs, nr)
    case Some(h) => h.Name()
    case None => "<unimplemented>"
  }

  function ArgsOf(regs: SyscallRegs): seq<u64> {
    [regs.arg0, regs.arg1, regs.arg2, regs.arg3, regs.arg4, regs.arg5]
  }

  function RecordedCall(hs: seq<Handler>, regs: SyscallRegs, outcome: SyscallOutcome): Recorded {
    Recorded(NameFor(hs, regs.nr), regs.nr, ArgsOf(regs), regs.rip, outcome)
  }

  class Dispatcher {
    var handlers: seq<Handler>
    var trace: Option<TraceSink>

    constructor ()
      ensures handlers == [] && trace == None
    {
      handlers, trace := [], None;
    }

    method Register(h: Handler)
      modifies this`handlers
      ensures handlers == Registered(old(handlers), h)
      ensures DistinctNumbers(old(handlers)) ==> DistinctNumbers(handlers) && Find(handlers, h.Number()) == Some(h)
    {
      hide Find;
      if DistinctNumbers(handlers) {
        RetainDistinct(handlers, h.Number());
        FindsNewest(handlers, h);
      }
      handlers := Retain(handlers, h.Number());
      handlers := handlers + [h];
    }

    method SetTrace(sink: TraceSink)
      modifies this`trace
      ensures trace == Some(sink)
    {
      trace := Some(sink);
    }

    ghost function SinkObjects(): set<object>
      reads this
    {
      if trace.Some? then {trace.value} else {}
    }

    method Dispatch(ctx: Context, regs: SyscallRegs) returns (r: Reply)
      modifies ctx`process, ctx.io, SinkObjects()
      ensures var e := old(DispatchEffect(handlers, regs, SeenBytes(ctx.mem, regs.arg1, regs.arg2)));
        && r == e.result
        && ctx.process == (if e.process.Some? then e.process.value else old(ctx.process))
        && ctx.io.buffers == (if e.written.Some?
                              then Appended(old(ctx.io.buffers), e.written.value.fd, e.written.value.data)
                              else old(ctx.io.buffers))
      ensures trace.Some? ==>
                (trace.value.buf ==
                 if r.Ok?
                 then old(trace.value.buf) + [RecordAt(|old(trace.value.buf)|, RecordedCall(handlers, regs, r.value))]
                 else old(trace.value.buf))
    {
      hide Find, SeenBytes, HandlerEffect, Appended, BytesAt, ChunkRead;
      var handler := Find(handlers, regs.nr);
      match handler {
        case Some(h) => r := Handle(h, ctx, regs);
        case None => r := Ok(Return(-ENOSYS));
      }
      if !r.Ok? {
        return r;
      }
      if trace.Some? {
        var name := if handler.Some? then handler.value.Name() else "<unimplemented>";
        var args := [regs.arg0, regs.arg1, regs.arg2, regs.arg3, regs.arg4, regs.arg5];
        trace.value.Record(name, regs.nr, args, regs.rip, r.value);
      }
    }

    method Implemented() returns (v: seq<int>)
      ensures StrictlyIncreasing(v)
      ensures forall n :: n in v <==> exists h :: h in handlers && h.Number() == n
    {
      v := Numbers(handlers);
      SortBySorts(Identity, v);
      ghost var u := v;
      v := SortBy(Identity, v);
      assert forall n :: n in v <==> n in multiset(v);
      assert forall n :: n in u <==> n in multiset(u);
      DedupIncreases(v);
      v := Dedup(v);
    }
  }

  function Identity(n: int): int {
    n
  }

  function Numbers(hs: seq<Handler>): (ns: seq<int>)
    ensures forall n :: n in ns <==> exists h :: h in hs && h.Number() == n
  {
    if hs == [] then []
    else
      var front, last := hs[..|hs| - 1], hs[|hs| - 1];
      assert forall h :: h in hs <==> h in front || h == last by {
        assert hs == front + [last];
      }
      Numbers(front) + [last.Number()]
  }

  /** Drops an element equal to the one before it. */
  function Dedup(s: seq<int>): (r: seq<int>)
    ensures forall n :: n in r <==> n in s
    ensures s != [] ==> r != [] && r[|r| - 1] == s[|s| - 1]
  {
    if |s| < 2 then s
    else
      assert forall n :: n in s <==> n in s[..|s| - 1] || n == s[|s| - 1];
      var front := Dedup(s[..|s| - 1]);
      if s[|s| - 1] == s[|s| - 2] then front else front + [s[|s| - 1]]
  }

  lemma {:induction false} DedupIncreases(s: seq<int>)
    requires SortedBy(Identity, s)
    ensures StrictlyIncreasing(Dedup(s))
  {
    if |s| >= 2 {
      var front := s[..|s| - 1];
      assert SortedBy(Identity, front);
      DedupIncreases(front);
      assert Identity(s[|s| - 2]) <= Identity(s[|s| - 1]);
    }
  }

  method RegisterAll(dispatch: Dispatcher)
    modifies dispatch`handlers
    ensures dispatch.handlers == RegisteredAll(old(dispatch.handlers), STAGE_ONE)
  {
    hide RegisteredAll, Registered, DistinctNumbers, Find;
    var handlers := [WriteHandler, ExitHandler, ExitGroupHandler];
    var i := 0;
    NothingRegistered(dispatch.handlers);
    assert handlers[..0] == [];
    while i < |handlers|
      invariant 0 <= i <= |handlers|
      invariant dispatch.handlers == RegisteredAll(old(dispatch.handlers), handlers[..i])
    {
      OneMoreRegistered(old(dispatch.handlers), handlers, i);
      dispatch.Register(handlers[i]);
      i := i + 1;
    }
    assert handlers[..i] == STAGE_ONE;
  }

  lemma {:induction false} NothingRegistered(hs: seq<Handler>)
    ensures RegisteredAll(hs, []) == hs
  {
  }

  lemma {:induction false} OneMoreRegistered(hs: seq<Handler>, news: seq<Handler>, i: nat)
    requires i < |news|
    ensures RegisteredAll(hs, news[..i + 1]) == Registered(RegisteredAll(hs, news[..i]), news[i])
  {
    hide Registered;
    assert news[..i + 1][..i] == news[..i];
  }

  // ----- every sequence of registrations -----

  const STAGE_ONE: seq<Handler> := [WriteHandler, ExitHandler, ExitGroupHandler]

  function RegisteredAll(hs: seq<Handler>, news: seq<Handler>): seq<Handler> {
    if news == [] then hs else Registered(RegisteredAll(hs, news[..|news| - 1]), news[|news| - 1])
  }

  ghost predicate DistinctNumbers(hs: seq<Handler>) {
    forall i, j | 0 <= i < j < |hs| :: hs[i].Number() != hs[j].Number()
  }

  /** `h` is the last of `news` with its number. */
  ghost predicate LastWith(news: seq<Handler>, h: Handler, nr: i64) {
    exists i :: 0 <= i < |news| && news[i] == h && h.Number() == nr
                && forall j | i < j < |news| :: news[j].Number() != nr
  }

  lemma {:induction false} RetainDistinct(hs: seq<Handler>, nr: i64)
    requires DistinctNumbers(hs)
    ensures DistinctNumbers(Retain(hs, nr))
  {
    if hs != [] {
      var front, last := hs[..|hs| - 1], hs[|hs| - 1];
      RetainDistinct(front, nr);
      forall i | 0 <= i < |Retain(front, nr)|
        ensures Retain(front, nr)[i].Number() != last.Number()
      {
        var h := Retain(front, nr)[i];
        assert h in front;
        var j :| 0 <= j < |front| && front[j] == h;
        assert hs[j].Number() != hs[|hs| - 1].Number();
      }
    }
  }

  /** The vector behaves as a map in which the last registration wins: after any registrations no two
      handlers share a number, and a number finds the last handler registered for it. */
  lemma {:induction false} LastRegistrationWins(news: seq<Handler>, nr: i64)
    ensures DistinctNumbers(RegisteredAll([], news))
    ensures match Find(RegisteredAll([], news), nr)
            case Some(h) => LastWith(news, h, nr)
            case None => forall h | h in news :: h.Number() != nr
  {
    hide Find, LastWith, DistinctNumbers, Registered;
    RegisteredAreDistinct(news);
    if news != [] {
      var front, last := news[..|news| - 1], news[|news| - 1];
      var before := RegisteredAll([], front);
      assert news == front + [last];
      LastRegistrationWins(front, nr);
      if last.Number() == nr {
        FindsNewest(before, last);
        LastWithNewest(front, last);
      } else {
        FindUnaffected(before, last, nr);
        if Find(before, nr).Some? { LastWithOlder(front, last, Find(before, nr).value, nr); }
      }
    }
  }

  lemma {:induction false} RegisteredAreDistinct(news: seq<Handler>)
    ensures DistinctNumbers(RegisteredAll([], news))
  {
    if news != [] {
      RegisteredAreDistinct(news[..|news| - 1]);
      RetainDistinct(RegisteredAll([], news[..|news| - 1]), news[|news| - 1].Number());
    }
  }

  lemma {:induction false} FindsNewest(hs: seq<Handler>, last: Handler)
    requires DistinctNumbers(hs)
    ensures Find(Registered(hs, last), last.Number()) == Some(last)
  {
  }

  lemma {:induction false} LastWithNewest(front: seq<Handler>, last: Handler)
    ensures LastWith(front + [last], last, last.Number())
  {
    assert (front + [last])[|front|] == last;
  }

  lemma {:induction false} LastWithOlder(front: seq<Handler>, last: Handler, h: Handler, nr: i64)
    requires LastWith(front, h, nr) && last.Number() != nr
    ensures LastWith(front + [last], h, nr)
  {
    var i :| 0 <= i < |front| && front[i] == h && h.Number() == nr
             && forall j | i < j < |front| :: front[j].Number() != nr;
    var news := front + [last];
    assert news[i] == h;
    forall j | i < j < |news|
      ensures news[j].Number() != nr
    {
      if j < |front| { assert news[j] == front[j]; }
    }
  }

  lemma {:induction false} FindUnaffected(hs: seq<Handler>, last: Handler, nr: i64)
    requires DistinctNumbers(hs) && last.Number() != nr
    ensures Find(Registered(hs, last), nr) == Find(hs, nr)
  {
    hide Find, Retain;
    var table := Registered(hs, last);
    RetainDistinct(hs, last.Number());
    FindInDistinct(table, nr);
    FindInDistinct(hs, nr);
  }

  /** With distinct numbers, finding a number is being the handler that has it. */
  lemma {:induction false} FindInDistinct(hs: seq<Handler>, nr: i64)
    requires DistinctNumbers(hs)
    ensures forall h | h in hs && h.Number() == nr :: Find(hs, nr) == Some(h)
  {
    hide Find;
  }

  /** The stage-1 table: exactly its three numbers are handled, each by its own handler. */
  lemma {:induction false} StageOneTable(nr: i64)
    ensures Find(RegisteredAll([], STAGE_ONE), nr) ==
            if nr == 1 then Some(WriteHandler) else if nr == 60 then Some(ExitHandler)
            else if nr == 231 then Some(ExitGroupHandler) else None
  {
    LastRegistrationWins(STAGE_ONE, nr);
    assert WriteHandler in STAGE_ONE && ExitHandler in STAGE_ONE && ExitGroupHandler in STAGE_ONE by {
      assert STAGE_ONE[0] == WriteHandler && STAGE_ONE[1] == ExitHandler && STAGE_ONE[2] == ExitGroupHandler;
    }
  }

  lemma {:induction false} StageOneNames(nr: i64)
    ensures NameFor(RegisteredAll([], STAGE_ONE), nr) ==
            if nr == 1 then "write" else if nr == 60 then "exit" else if nr == 231 then "exit_group"
            else "<unimplemented>"
  {
    hide RegisteredAll, Find;
    StageOneTable(nr);
  }

  /** A handler from outside answers its own number from the registers, until the number is registered
      again. */
  lemma {:induction false} OtherHandlerAnswers(news: seq<Handler>, h: Handler, regs: SyscallRegs,
                                               bytes: Outcome<seq<u8>, ()>)
    requires h.OtherHandler? && h.nr == regs.nr
    ensures DispatchEffect(RegisteredAll([], news + [h]), regs, bytes) == Effect(h.reply(regs), None, None)
    ensures NameFor(RegisteredAll([], news + [h]), regs.nr) == h.tag
  {
    hide Find, Registered;
    assert (news + [h])[..|news|] == news;
    RegisteredAreDistinct(news);
    FindsNewest(RegisteredAll([], news), h);
  }

  /** An unregistered number is answered with -38 and touches neither the process nor the output. */
  lemma {:induction false} UnregisteredIsEnosys(news: seq<Handler>, regs: SyscallRegs, bytes: Outcome<seq<u8>, ()>)
    requires forall h | h in news :: h.Number() != regs.nr
    ensures DispatchEffect(RegisteredAll([], news), regs, bytes) == Effect(Ok(Return(-38)), None, None)
    ensures NameFor(RegisteredAll([], news), regs.nr) == "<unimplemented>"
  {
    LastRegistrationWins(news, regs.nr);
  }
}

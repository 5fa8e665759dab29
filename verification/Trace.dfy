/** Syscall outcomes and the shared sink that records them. */
module Trace {
  import opened Machine

  datatype ExitReason = Exit(code: u8) | Falloff(rip: u64) | Stopped

  datatype SyscallOutcome = Return(ret: i64) | Exiting(reason: ExitReason)

  datatype TraceRecord = TraceRecord(index: nat, nr: i64, name: string, args: seq<u64>, ret: i64, rip: u64)

  /** One call of `record`. */
  datatype Recorded = Recorded(name: string, nr: i64, args: seq<u64>, rip: u64, outcome: SyscallOutcome)

  function RetOf(outcome: SyscallOutcome): i64 {
    match outcome
    case Return(ret) => ret
    case Exiting(_) => 0
  }

  function RecordAt(index: nat, c: Recorded): TraceRecord {
    TraceRecord(index, c.nr, c.name, c.args, RetOf(c.outcome), c.rip)
  }

  /** A handle on the record buffer; clones are references to the same object. */
  class TraceSink {
    var buf: seq<TraceRecord>

    constructor ()
      ensures buf == []
    {
      buf := [];
    }

    method Record(name: string, nr: i64, args: seq<u64>, rip: u64, outcome: SyscallOutcome)
      modifies this
      ensures buf == old(buf) + [RecordAt(|old(buf)|, Recorded(name, nr, args, rip, outcome))]
    {
      var ret;
      match outcome {
        case Return(v) => ret := v;
        case Exiting(_) => ret := 0;
      }
      var index := |buf|;
      buf := buf + [TraceRecord(index, nr, name, args, ret, rip)];
    }

    method Drain() returns (records: seq<TraceRecord>)
      modifies this
      ensures records == old(buf) && buf == []
    {
      records := buf;
      buf := [];
    }
  }

  // ----- every interleaving of recording and draining -----

  datatype SinkOp = RecordOp(call: Recorded) | DrainOp

  /** The drained batches, and the residual buffer. */
  function AfterOps(ops: seq<SinkOp>): (seq<seq<TraceRecord>>, seq<TraceRecord>) {
    if ops == [] then ([], [])
    else
      var (batches, buf) := AfterOps(ops[..|ops| - 1]);
      match ops[|ops| - 1]
      case RecordOp(c) => (batches, buf + [RecordAt(|buf|, c)])
      case DrainOp => (batches + [buf], [])
  }

  function CallsIn(ops: seq<SinkOp>): seq<Recorded> {
    if ops == [] then []
    else CallsIn(ops[..|ops| - 1]) + match ops[|ops| - 1] case RecordOp(c) => [c] case DrainOp => []
  }

  function Concat<T>(batches: seq<seq<T>>): seq<T> {
    if batches == [] then [] else Concat(batches[..|batches| - 1]) + batches[|batches| - 1]
  }

  /** `records` are the records of `calls`, in order, numbered by where they fell in their batch. */
  ghost predicate RecordsOf(records: seq<TraceRecord>, calls: seq<Recorded>) {
    |records| == |calls| && forall i | 0 <= i < |calls| :: records[i] == RecordAt(records[i].index, calls[i])
  }

  ghost predicate Numbered(batch: seq<TraceRecord>) {
    forall i | 0 <= i < |batch| :: batch[i].index == i
  }

  /** Conservation: the drained batches in order and then the residual buffer are the recorded calls
      in order, each exactly once, and every batch is numbered from zero. */
  lemma {:induction false} NothingIsLost(ops: seq<SinkOp>)
    ensures var (batches, buf) := AfterOps(ops);
      && RecordsOf(Concat(batches) + buf, CallsIn(ops))
      && (forall b | b in batches :: Numbered(b)) && Numbered(buf)
  {
    if ops != [] {
      var front := ops[..|ops| - 1];
      NothingIsLost(front);
      var (batches, buf) := AfterOps(front);
      match ops[|ops| - 1]
      case RecordOp(c) =>
        assert Concat(batches) + (buf + [RecordAt(|buf|, c)]) == (Concat(batches) + buf) + [RecordAt(|buf|, c)];
      case DrainOp =>
        assert (batches + [buf])[..|batches|] == batches;
        assert Concat(batches + [buf]) + [] == Concat(batches) + buf;
        assert CallsIn(ops) == CallsIn(front);
    }
  }

  // ----- when the record numbers are monotonic -----

  ghost predicate Increasing(records: seq<TraceRecord>) {
    forall i, j | 0 <= i < j < |records| :: records[i].index < records[j].index
  }

  /** All records of a sink's life: the drained ones, and then those still held. */
  function AllRecords(ops: seq<SinkOp>): seq<TraceRecord> {
    Concat(AfterOps(ops).0) + AfterOps(ops).1
  }

  /** A call is recorded after a drain that comes after a recorded call. */
  ghost predicate RecordsPastDrain(ops: seq<SinkOp>) {
    exists i, j, k :: 0 <= i < j < k < |ops| && ops[i].RecordOp? && ops[j].DrainOp? && ops[k].RecordOp?
  }

  /** The record numbers are strictly increasing over a sink's whole life if and only if nothing is
      recorded after a drain that took something. */
  lemma {:induction false} NumbersIncreaseIff(ops: seq<SinkOp>)
    ensures Increasing(AllRecords(ops)) <==> !RecordsPastDrain(ops)
  {
    hide Concat, CallsIn, RecordsPastDrain, DrainsRecord, Increasing, RecordsOf;
    if ops == [] {
      NothingRecorded(ops);
    } else {
      var front := ops[..|ops| - 1];
      NumbersIncreaseIff(front);
      PastDrainPush(ops);
      NothingIsLost(front);
      var drained, buf := Concat(AfterOps(front).0), AfterOps(front).1;
      match ops[|ops| - 1]
      case DrainOp =>
        AllRecordsDrain(ops);
      case RecordOp(c) =>
        AllRecordsPush(ops, c);
        DrainedIff(front);
        IncreasingPush(drained, buf, RecordAt(|buf|, c));
    }
  }

  lemma {:induction false} NothingRecorded(ops: seq<SinkOp>)
    requires ops == []
    ensures Increasing(AllRecords(ops)) && !RecordsPastDrain(ops)
  {
  }

  lemma {:induction false} AllRecordsDrain(ops: seq<SinkOp>)
    requires ops != [] && ops[|ops| - 1].DrainOp?
    ensures AllRecords(ops) == AllRecords(ops[..|ops| - 1])
  {
    var (batches, buf) := AfterOps(ops[..|ops| - 1]);
    assert (batches + [buf])[..|batches|] == batches;
  }

  lemma {:induction false} AllRecordsPush(ops: seq<SinkOp>, c: Recorded)
    requires ops != [] && ops[|ops| - 1] == RecordOp(c)
    ensures AllRecords(ops) == AllRecords(ops[..|ops| - 1]) + [RecordAt(|AfterOps(ops[..|ops| - 1]).1|, c)]
  {
  }

  /** A record numbered by the buffer it joins exceeds the drained ones only if there are none. */
  lemma {:induction false} IncreasingPush(drained: seq<TraceRecord>, buf: seq<TraceRecord>, r: TraceRecord)
    requires Numbered(buf) && r.index == |buf| && (drained != [] ==> drained[0].index == 0)
    ensures Increasing(drained + buf + [r]) <==> Increasing(drained + buf) && drained == []
  {
    var all := drained + buf + [r];
    if drained == [] {
      assert all == buf + [r] && drained + buf == buf;
      assert Numbered(all);
    } else {
      assert all[0].index == 0 && all[|drained|].index == 0;
    }
  }

  /** `RecordsPastDrain` for one more operation. */
  lemma {:induction false} PastDrainPush(ops: seq<SinkOp>)
    requires ops != []
    ensures RecordsPastDrain(ops) <==>
            || RecordsPastDrain(ops[..|ops| - 1])
            || (ops[|ops| - 1].RecordOp? && DrainsRecord(ops[..|ops| - 1]))
  {
    var front := ops[..|ops| - 1];
    if RecordsPastDrain(front) {
      var i, j, k :| 0 <= i < j < k < |front| && front[i].RecordOp? && front[j].DrainOp? && front[k].RecordOp?;
      assert ops[i].RecordOp? && ops[j].DrainOp? && ops[k].RecordOp?;
    } else if ops[|ops| - 1].RecordOp? && DrainsRecord(front) {
      var i, j :| 0 <= i < j < |front| && front[i].RecordOp? && front[j].DrainOp?;
      assert ops[i].RecordOp? && ops[j].DrainOp? && ops[|ops| - 1].RecordOp?;
    }
    if RecordsPastDrain(ops) { PastDrainFront(ops); }
  }

  lemma {:induction false} PastDrainFront(ops: seq<SinkOp>)
    requires RecordsPastDrain(ops)
    ensures || RecordsPastDrain(ops[..|ops| - 1])
            || (ops[|ops| - 1].RecordOp? && DrainsRecord(ops[..|ops| - 1]))
  {
    var front := ops[..|ops| - 1];
    var i, j, k :| 0 <= i < j < k < |ops| && ops[i].RecordOp? && ops[j].DrainOp? && ops[k].RecordOp?;
    assert front[i].RecordOp? && front[j].DrainOp?;
    if k < |front| { assert front[k].RecordOp?; }
  }

  /** A drain comes after a recorded call. */
  ghost predicate DrainsRecord(ops: seq<SinkOp>) {
    exists i, j :: 0 <= i < j < |ops| && ops[i].RecordOp? && ops[j].DrainOp?
  }

  /** Something has been drained exactly when a drain came after a recorded call; the first drained
      record then has number 0. */
  lemma {:induction false} DrainedIff(ops: seq<SinkOp>)
    ensures var (batches, buf) := AfterOps(ops);
      && (Concat(batches) != [] <==> DrainsRecord(ops))
      && (Concat(batches) + buf != [] <==> exists i :: 0 <= i < |ops| && ops[i].RecordOp?)
      && (Concat(batches) != [] ==> Concat(batches)[0].index == 0)
  {
    if ops != [] {
      hide Numbered, RecordsOf;
      var front, n := ops[..|ops| - 1], |ops| - 1;
      DrainedIff(front);
      DrainsRecordPush(ops);
      var (batches, buf) := AfterOps(front);
      assert (batches + [buf])[..|batches|] == batches;
      FirstOfBuffer(front);
      if i :| 0 <= i < |front| && front[i].RecordOp? { assert ops[i].RecordOp?; }
      if i :| 0 <= i < |ops| && ops[i].RecordOp? { assert i < n ==> front[i].RecordOp?; }
    }
  }

  lemma {:induction false} DrainsRecordPush(ops: seq<SinkOp>)
    requires ops != []
    ensures var front := ops[..|ops| - 1];
      DrainsRecord(ops) <==>
      DrainsRecord(front) || (ops[|ops| - 1].DrainOp? && exists i :: 0 <= i < |front| && front[i].RecordOp?)
  {
    var front := ops[..|ops| - 1];
    if DrainsRecord(front) {
      var i, j :| 0 <= i < j < |front| && front[i].RecordOp? && front[j].DrainOp?;
      assert ops[i].RecordOp? && ops[j].DrainOp?;
    }
    if i :| ops[|ops| - 1].DrainOp? && 0 <= i < |front| && front[i].RecordOp? {
      assert ops[i].RecordOp? && ops[|ops| - 1].DrainOp?;
    }
    if DrainsRecord(ops) {
      var i, j :| 0 <= i < j < |ops| && ops[i].RecordOp? && ops[j].DrainOp?;
      assert front[i].RecordOp?;
      if j < |front| { assert front[j].DrainOp?; }
    }
  }

  lemma {:induction false} FirstOfBuffer(ops: seq<SinkOp>)
    ensures AfterOps(ops).1 != [] ==> AfterOps(ops).1[0].index == 0
  {
    NothingIsLost(ops);
  }

  lemma {:induction false} AfterPush(front: seq<SinkOp>, op: SinkOp)
    ensures AfterOps(front + [op]) ==
            match op
            case RecordOp(c) => (AfterOps(front).0, AfterOps(front).1 + [RecordAt(|AfterOps(front).1|, c)])
            case DrainOp => (AfterOps(front).0 + [AfterOps(front).1], [])
  {
    assert (front + [op])[..|front|] == front;
  }

  lemma {:induction false} ConcatOne(batch: seq<TraceRecord>, buf: seq<TraceRecord>)
    ensures Concat([batch]) + buf == batch + buf
  {
    assert [batch][..0] == [] && Concat([batch]) == [] + batch;
  }

  /** Two calls with a drain between them get the same number. */
  lemma {:induction false} NumbersRestart(a: Recorded, b: Recorded)
    ensures AllRecords([RecordOp(a), DrainOp, RecordOp(b)]) == [RecordAt(0, a), RecordAt(0, b)]
  {
    hide Concat;
    AfterPush([], RecordOp(a));
    AfterPush([RecordOp(a)], DrainOp);
    AfterPush([RecordOp(a), DrainOp], RecordOp(b));
    assert [] + [RecordOp(a)] == [RecordOp(a)] && [RecordOp(a)] + [DrainOp] == [RecordOp(a), DrainOp];
    assert [RecordOp(a), DrainOp] + [RecordOp(b)] == [RecordOp(a), DrainOp, RecordOp(b)];
    var batch, buf := [RecordAt(0, a)], [RecordAt(0, b)];
    assert [] + batch == batch && [] + buf == buf && [] + [batch] == [batch];
    ConcatOne(batch, buf);
  }
}

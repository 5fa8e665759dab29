/** Captured process output, per file descriptor. */
module Output {
  import opened Machine
  import opened Sorting

  type Buffers = map<int, seq<u8>>

  /** The captured bytes for `fd`. */
  function Held(b: Buffers, fd: int): seq<u8> {
    if fd in b then b[fd] else []
  }

  function Appended(b: Buffers, fd: int, data: seq<u8>): Buffers {
    b[fd := Held(b, fd) + data]
  }

  class OutputCapture {
    var buffers: Buffers

    constructor ()
      ensures buffers == map[]
    {
      buffers := map[];
    }

    method Write(fd: i64, data: seq<u8>)
      modifies this
      ensures buffers == Appended(old(buffers), fd, data)
    {
      if fd !in buffers {
        buffers := buffers[fd := []];
      }
      buffers := buffers[fd := buffers[fd] + data];
    }

    function Get(fd: i64): seq<u8>
      reads this
    {
      Held(buffers, fd)
    }

    /** Iterates the buffers in descriptor order. */
    method Combined() returns (out: seq<u8>)
      ensures out == Get(1) + Get(2)
    {
      out := [];
      var keys := SortedKeys(buffers.Keys);
      var i := 0;
      while i < |keys|
        invariant 0 <= i <= |keys|
        invariant out == Part(buffers, keys[..i], 1) + Part(buffers, keys[..i], 2)
      {
        var fd := keys[i];
        PartsNext(buffers, keys, i);
        if fd == 1 || fd == 2 {
          out := out + buffers[fd];
        }
        i := i + 1;
      }
      assert keys[..i] == keys;
    }
  }

  /** The buffer of `fd`, if `fd` is among `keys`. */
  function Part(b: Buffers, keys: seq<int>, fd: int): seq<u8> {
    if fd in keys then Held(b, fd) else []
  }

  lemma {:induction false} PartsNext(b: Buffers, keys: seq<int>, i: nat)
    requires StrictlyIncreasing(keys) && i < |keys| && keys[i] in b
    ensures Part(b, keys[..i + 1], 1) + Part(b, keys[..i + 1], 2)
            == Part(b, keys[..i], 1) + Part(b, keys[..i], 2)
               + if keys[i] == 1 || keys[i] == 2 then b[keys[i]] else []
  {
    hide StrictlyIncreasing;
    NextKey(keys, i);
  }

  lemma {:induction false} NextKey(keys: seq<int>, i: nat)
    requires StrictlyIncreasing(keys) && i < |keys|
    ensures forall k :: k in keys[..i + 1] <==> k in keys[..i] || k == keys[i]
    ensures forall k | k in keys[..i] :: k < keys[i]
  {
  }

  // ----- interleaved and grouped output -----

  datatype FdWrite = FdWrite(fd: int, data: seq<u8>)

  /** The written bytes in issue order. */
  function Issued(ws: seq<FdWrite>): seq<u8> {
    if ws == [] then [] else Issued(ws[..|ws| - 1]) + ws[|ws| - 1].data
  }

  /** The bytes written to one descriptor, in order. */
  function Substream(ws: seq<FdWrite>, fd: int): seq<u8> {
    if ws == [] then []
    else Substream(ws[..|ws| - 1], fd) + if ws[|ws| - 1].fd == fd then ws[|ws| - 1].data else []
  }

  /** The buffers of one capture that takes all the writes. */
  function Replay(ws: seq<FdWrite>): Buffers {
    if ws == [] then map[] else Appended(Replay(ws[..|ws| - 1]), ws[|ws| - 1].fd, ws[|ws| - 1].data)
  }

  /** What `combined` gives on that capture. */
  function Grouped(ws: seq<FdWrite>): seq<u8> {
    Held(Replay(ws), 1) + Held(Replay(ws), 2)
  }

  predicate Standard(ws: seq<FdWrite>) {
    forall w | w in ws :: w.fd == 1 || w.fd == 2
  }

  lemma {:induction false} ReplayHolds(ws: seq<FdWrite>, fd: int)
    ensures Held(Replay(ws), fd) == Substream(ws, fd)
  {
    if ws != [] {
      var front, w := ws[..|ws| - 1], ws[|ws| - 1];
      ReplayHolds(front, fd);
      assert Substream(front, fd) + [] == Substream(front, fd);
    }
  }

  /** One capture groups by descriptor: each descriptor's bytes keep their order, and all the issued
      bytes are there, each as often as it was issued. */
  lemma {:induction false} GroupedKeepsBytes(ws: seq<FdWrite>)
    requires Standard(ws)
    ensures Grouped(ws) == Substream(ws, 1) + Substream(ws, 2)
    ensures multiset(Grouped(ws)) == multiset(Issued(ws)) && |Grouped(ws)| == |Issued(ws)|
  {
    ReplayHolds(ws, 1);
    ReplayHolds(ws, 2);
    SubstreamsCount(ws);
  }

  lemma {:induction false} SubstreamsCount(ws: seq<FdWrite>)
    requires Standard(ws)
    ensures multiset(Issued(ws)) == multiset(Substream(ws, 1)) + multiset(Substream(ws, 2))
    ensures |Issued(ws)| == |Substream(ws, 1)| + |Substream(ws, 2)|
  {
    if ws != [] {
      assert ws[|ws| - 1] in ws;
      SubstreamsCount(ws[..|ws| - 1]);
    }
  }

  /** No nonempty write to descriptor 2 comes before a nonempty write to descriptor 1. */
  predicate StdoutFirst(ws: seq<FdWrite>) {
    forall i, j | 0 <= i < j < |ws| && ws[i].fd == 2 && ws[j].fd == 1 :: ws[i].data == [] || ws[j].data == []
  }

  predicate SameWrites(ws: seq<FdWrite>, vs: seq<FdWrite>) {
    |ws| == |vs| && forall i | 0 <= i < |ws| :: ws[i].fd == vs[i].fd && |ws[i].data| == |vs[i].data|
  }

  /** Every byte is its descriptor. */
  predicate Marked(ws: seq<FdWrite>) {
    forall w | w in ws :: forall i | 0 <= i < |w.data| :: w.data[i] == if w.fd == 1 then 1 else 2
  }

  function Mark(ws: seq<FdWrite>): (vs: seq<FdWrite>)
    ensures SameWrites(ws, vs) && Marked(vs)
  {
    seq(|ws|, i requires 0 <= i < |ws| => FdWrite(ws[i].fd, seq(|ws[i].data|, _ => if ws[i].fd == 1 then 1 else 2)))
  }

  lemma {:induction false} FirstThenSecond(ws: seq<FdWrite>)
    requires Standard(ws) && StdoutFirst(ws)
    ensures Issued(ws) == Substream(ws, 1) + Substream(ws, 2)
  {
    hide StdoutFirst;
    if ws != [] {
      var front, w := ws[..|ws| - 1], ws[|ws| - 1];
      assert w in ws;
      StdoutFirstFront(ws);
      FirstThenSecond(front);
      if w.fd == 1 && w.data != [] { NothingOnStderr(ws, |front|); }
    }
  }

  lemma {:induction false} StdoutFirstFront(ws: seq<FdWrite>)
    requires ws != [] && StdoutFirst(ws)
    ensures StdoutFirst(ws[..|ws| - 1])
  {
  }

  lemma {:induction false} NothingOnStderr(ws: seq<FdWrite>, n: nat)
    requires StdoutFirst(ws) && n < |ws| && ws[|ws| - 1].fd == 1 && ws[|ws| - 1].data != []
    ensures Substream(ws[..n], 2) == []
  {
    if n > 0 {
      NothingOnStderr(ws, n - 1);
      assert ws[..n][..n - 1] == ws[..n - 1];
    }
  }

  lemma {:induction false} MarkedSubstream(ws: seq<FdWrite>, fd: int)
    requires Standard(ws) && Marked(ws)
    ensures forall b | b in Substream(ws, fd) :: b == if fd == 1 then 1 else 2
  {
    if ws != [] {
      assert ws[|ws| - 1] in ws;
      MarkedSubstream(ws[..|ws| - 1], fd);
    }
  }

  /** Marked writes whose issue order is already grouped have nothing on descriptor 2 before
      descriptor 1. */
  lemma {:induction false} GroupedMarksAreOrdered(ws: seq<FdWrite>)
    requires Standard(ws) && Marked(ws) && Issued(ws) == Substream(ws, 1) + Substream(ws, 2)
    ensures StdoutFirst(ws)
  {
    hide StdoutFirst, Standard, Marked, Issued, Substream;
    if ws == [] {
      NothingIsOrdered(ws);
    } else {
      var front, w := ws[..|ws| - 1], ws[|ws| - 1];
      LastWrite(ws);
      SubstreamsCount(front);
      if w.fd == 2 || w.data == [] {
        var one, two := Substream(front, 1), Substream(front, 2);
        assert (if w.fd == 1 then one + w.data + two else one + (two + w.data)) == one + two + w.data;
        TakePrefix(Issued(front), one + two, w.data);
      } else {
        MarkedSubstream(front, 2);
        LastIsMarked(Issued(front), Substream(front, 1), Substream(front, 2), w.data);
      }
      GroupedMarksAreOrdered(front);
      OrderedPush(ws);
    }
  }

  lemma {:induction false} LastWrite(ws: seq<FdWrite>)
    requires ws != [] && Standard(ws) && Marked(ws)
    ensures var front, w := ws[..|ws| - 1], ws[|ws| - 1];
      && Standard(front) && Marked(front) && (w.fd == 1 || w.fd == 2)
      && (w.fd == 1 ==> forall i | 0 <= i < |w.data| :: w.data[i] == 1)
      && Issued(ws) == Issued(front) + w.data
      && Substream(ws, 1) == Substream(front, 1) + (if w.fd == 1 then w.data else [])
      && Substream(ws, 2) == Substream(front, 2) + (if w.fd == 2 then w.data else [])
  {
  }

  lemma {:induction false} NothingIsOrdered(ws: seq<FdWrite>)
    requires ws == []
    ensures StdoutFirst(ws)
  {
  }

  lemma {:induction false} OrderedPush(ws: seq<FdWrite>)
    requires ws != [] && StdoutFirst(ws[..|ws| - 1])
    requires ws[|ws| - 1].fd == 1 && ws[|ws| - 1].data != [] ==> Substream(ws[..|ws| - 1], 2) == []
    ensures StdoutFirst(ws)
  {
    var front, w := ws[..|ws| - 1], ws[|ws| - 1];
    forall i, j | 0 <= i < j < |ws| && ws[i].fd == 2 && ws[j].fd == 1
      ensures ws[i].data == [] || ws[j].data == []
    {
      if j < |front| {
        assert front[i] == ws[i] && front[j] == ws[j];
      } else if w.data != [] {
        SubstreamEmpty(front, 2, i);
      }
    }
  }

  lemma {:induction false} TakePrefix(x: seq<u8>, y: seq<u8>, d: seq<u8>)
    requires |x| == |y|
    ensures x + d == y + d ==> x == y
  {
    assert (x + d)[..|x|] == x && (y + d)[..|x|] == y;
  }

  lemma {:induction false} LastIsMarked(all: seq<u8>, one: seq<u8>, two: seq<u8>, d: seq<u8>)
    requires all + d == one + d + two && d != [] && |all| == |one| + |two|
    requires (forall i | 0 <= i < |d| :: d[i] == 1) && (forall b | b in two :: b == 2)
    ensures two == [] && all == one + two
  {
    if two != [] { LastsDiffer(all, one, two, d); }
    assert (all + d)[..|all|] == all && (one + d + two)[..|one|] == one;
  }

  lemma {:induction false} LastsDiffer(all: seq<u8>, one: seq<u8>, two: seq<u8>, d: seq<u8>)
    requires d != [] && two != [] && |all| == |one| + |two|
    requires (forall i | 0 <= i < |d| :: d[i] == 1) && (forall b | b in two :: b == 2)
    ensures all + d != one + d + two
  {
    var n := |all + d| - 1;
    assert (all + d)[n] == d[|d| - 1];
    assert (one + d + two)[n] == two[|two| - 1];
    assert two[|two| - 1] in two;
  }

  lemma {:induction false} SubstreamEmpty(ws: seq<FdWrite>, fd: int, i: nat)
    requires i < |ws| && ws[i].fd == fd && Substream(ws, fd) == []
    ensures ws[i].data == []
  {
    if i < |ws| - 1 { SubstreamEmpty(ws[..|ws| - 1], fd, i); }
  }

  /** Grouping by descriptor never changes the order of the output, whatever the bytes, if and only
      if no nonempty write to descriptor 2 comes before one to descriptor 1. */
  lemma {:induction false} GroupingIsHarmlessIff(ws: seq<FdWrite>)
    requires Standard(ws)
    ensures (forall vs | SameWrites(ws, vs) :: Grouped(vs) == Issued(vs)) <==> StdoutFirst(ws)
  {
    if StdoutFirst(ws) {
      forall vs | SameWrites(ws, vs)
        ensures Grouped(vs) == Issued(vs)
      {
        SameWritesAlike(ws, vs);
        GroupedKeepsBytes(vs);
        FirstThenSecond(vs);
      }
    } else {
      var vs := Mark(ws);
      SameWritesAlike(ws, vs);
      GroupedKeepsBytes(vs);
      if Grouped(vs) == Issued(vs) {
        GroupedMarksAreOrdered(vs);
        assert false;
      }
    }
  }

  lemma {:induction false} SameWritesAlike(ws: seq<FdWrite>, vs: seq<FdWrite>)
    requires SameWrites(ws, vs)
    ensures Standard(ws) ==> Standard(vs)
    ensures StdoutFirst(ws) <==> StdoutFirst(vs)
  {
  }
}

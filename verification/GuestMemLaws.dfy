/** Laws of the chunked guest memory: what a write leaves for a read, how accesses split, and
    exactly which layouts behave as a flat map. */
module GuestMemLaws {
  import opened Machine
  import opened Sorting
  import opened GuestMem

  // ----- read back what was written, on any layout -----

  /** How many bytes a write stored before it returned `r`. */
  function Stored(data: seq<u8>, r: Outcome<(), GuestMemError>): int {
    match r
    case Ok(_) => |data|
    case Err(e) => |data| - e.len
    case Panic => 0
  }

  /** A write that starts past the end of region `b`, and does not come all the way round to it,
      leaves it alone: later chunks never clobber earlier ones. */
  lemma {:induction false} WriteLeavesAlone(m: Layout, cursor: u64, data: seq<u8>, b: u64)
    requires WellSized(m) && b in m && |data| <= ISIZE_MAX
    requires |m[b]| <= WrapSub(cursor, b) && WrapSub(cursor, b) + |data| <= WORD
    ensures ChunkWrite(m, cursor, data).0[b] == m[b]
    decreases |data|
  {
    if data != [] && RegionBase(m, cursor).Some? {
      var base := RegionBase(m, cursor).value;
      var take := Take(m, base, cursor, |data|);
      if take < |data| {
        var n := m[base := Patch(m[base], cursor - base, data[..take])];
        WriteLeavesAlone(n, WrapAdd(cursor, take), data[take..], b);
      }
    }
  }

  /** A read fails on any layout exactly where the write of as many bytes fails. */
  lemma {:induction false} AccessesFailAlike(m: Layout, cursor: u64, data: seq<u8>)
    requires |data| <= ISIZE_MAX
    ensures var r := ChunkWrite(m, cursor, data).1;
      && 0 <= Stored(data, r) <= |data|
      && (r.Ok? <==> ChunkRead(m, cursor, |data|).Ok?)
      && (r.Err? ==> ChunkRead(m, cursor, |data|) == Err(r.error))
    decreases |data|
  {
    hide ChunkRead, ChunkWrite, RegionBase, WrapAdd;
    if data == [] {
      ChunkWriteEnd(m, cursor);
      ChunkReadEnd(m, cursor, []);
    } else {
      match RegionBase(m, cursor)
      case None =>
        ChunkReadAtHole(m, cursor, |data|);
        ChunkWriteAtHole(m, cursor, data);
      case Some(base) =>
        var take := Take(m, base, cursor, |data|);
        var n := m[base := Patch(m[base], cursor - base, data[..take])];
        var next, rest := WrapAdd(cursor, take), data[take..];
        AccessesFailAlike(n, next, rest);
        ShapeDecidesRead(n, m, next, |rest|);
        ChunkReadStep(m, base, cursor, |data|);
        ChunkWriteStep(m, base, cursor, data);
    }
  }

  lemma {:induction false} ShapeDecidesRead(m: Layout, n: Layout, cursor: u64, len: nat)
    requires SameShape(m, n) && len <= ISIZE_MAX
    ensures ChunkRead(m, cursor, len).Ok? <==> ChunkRead(n, cursor, len).Ok?
    ensures ChunkRead(m, cursor, len).Err? ==> ChunkRead(m, cursor, len) == ChunkRead(n, cursor, len)
    decreases len
  {
    hide ChunkRead, RegionBase, WrapAdd;
    ShapeDecidesRegion(m, n, cursor);
    if len == 0 {
      ChunkReadEnd(m, cursor, []);
      ChunkReadEnd(n, cursor, []);
    } else {
      match RegionBase(m, cursor)
      case None =>
        ChunkReadAtHole(m, cursor, len);
        ChunkReadAtHole(n, cursor, len);
      case Some(base) =>
        ChunkReadStep(m, base, cursor, len);
        ChunkReadStep(n, base, cursor, len);
        ShapeDecidesRead(m, n, WrapAdd(cursor, Take(m, base, cursor, len)), len - Take(m, base, cursor, len));
    }
  }

  /** Round trip on any layout, overlapping and wrapping ones included: reading back the bytes a
      write stored, all of them or the prefix before a failure, returns them. */
  lemma {:induction false} ReadBack(m: Layout, addr: u64, data: seq<u8>)
    requires WellSized(m) && |data| <= ISIZE_MAX
    ensures var (n, r) := ChunkWrite(m, addr, data);
      && 0 <= Stored(data, r) <= |data|
      && ChunkRead(n, addr, Stored(data, r)) == Ok(data[..Stored(data, r)])
    decreases |data|
  {
    AccessesFailAlike(m, addr, data);
    if data == [] || RegionBase(m, addr).None? {
      assert data[..0] == [];
    } else {
      var base := RegionBase(m, addr).value;
      var take := Take(m, base, addr, |data|);
      ReadBack(m[base := Patch(m[base], addr - base, data[..take])], WrapAdd(addr, take), data[take..]);
      ReadBackRound(m, addr, data, base);
    }
  }

  /** The first chunk of a write reads back, given that the rest does. */
  lemma {:induction false} ReadBackRound(m: Layout, addr: u64, data: seq<u8>, base: u64)
    requires WellSized(m) && 0 < |data| <= ISIZE_MAX && RegionBase(m, addr) == Some(base)
    requires var take := Take(m, base, addr, |data|);
      var next, rest := WrapAdd(addr, take), data[take..];
      var (n, r) := ChunkWrite(m[base := Patch(m[base], addr - base, data[..take])], next, rest);
      && 0 <= Stored(rest, r) <= |rest|
      && ChunkRead(n, next, Stored(rest, r)) == Ok(rest[..Stored(rest, r)])
    ensures var (n, r) := ChunkWrite(m, addr, data);
      && 0 <= Stored(data, r) <= |data|
      && ChunkRead(n, addr, Stored(data, r)) == Ok(data[..Stored(data, r)])
  {
    hide ChunkRead, ChunkWrite, RegionBase, WrapAdd, WellSized;
    var take := Take(m, base, addr, |data|);
    var one := m[base := Patch(m[base], addr - base, data[..take])];
    var next, rest := WrapAdd(addr, take), data[take..];
    var (n, r) := ChunkWrite(one, next, rest);
    var p := Stored(rest, r);
    ChunkWriteStep(m, base, addr, data);
    ShapeDecidesSize(m, one);
    RestLeavesChunk(one, base, addr, take, rest);
    ShapeDecidesRegion(m, n, addr);
    assert n[base][addr - base..addr - base + take] == data[..take];
    ReadServesChunk(n, base, addr, data[..take], rest[..p]);
    assert data[..take] + rest[..p] == data[..take + p];
  }

  lemma {:induction false} RestLeavesChunk(one: Layout, base: u64, addr: u64, take: nat, rest: seq<u8>)
    requires WellSized(one) && base in one && take + |rest| <= ISIZE_MAX
    requires base <= addr && addr - base + take <= |one[base]|
    requires rest == [] || addr - base + take == |one[base]|
    ensures ChunkWrite(one, WrapAdd(addr, take), rest).0[base] == one[base]
  {
    hide RegionBase;
    if rest == [] { ChunkWriteEnd(one, WrapAdd(addr, take)); }
    else { WriteLeavesAlone(one, WrapAdd(addr, take), rest, base); }
  }

  /** A chunk that ends its region, or ends the read, is followed by the bytes read after it. */
  lemma {:induction false} ReadServesChunk(n: Layout, base: u64, addr: u64, chunk: seq<u8>, rest: seq<u8>)
    requires RegionBase(n, addr) == Some(base)
    requires 0 < |chunk| && |chunk| + |rest| <= ISIZE_MAX
    requires addr - base + |chunk| <= |n[base]| && n[base][addr - base..addr - base + |chunk|] == chunk
    requires rest == [] || addr - base + |chunk| == |n[base]|
    requires ChunkRead(n, WrapAdd(addr, |chunk|), |rest|) == Ok(rest)
    ensures ChunkRead(n, addr, |chunk| + |rest|) == Ok(chunk + rest)
  {
    hide RegionBase, WrapAdd;
    assert Take(n, base, addr, |chunk| + |rest|) == |chunk|;
  }

  lemma {:induction false} ShapeDecidesSize(m: Layout, n: Layout)
    requires SameShape(m, n)
    ensures WellSized(m) <==> WellSized(n)
  {
  }

  // ----- splitting an access on a disjoint layout -----

  /** Reading across a split point is reading both halves; a hole in either is reported as by the
      whole. */
  lemma {:induction false} ReadSplits(m: Layout, addr: u64, j: nat, k: nat)
    requires Disjoint(m) && j + k <= ISIZE_MAX
    ensures ChunkRead(m, addr, j + k) ==
            match ChunkRead(m, addr, j)
            case Ok(x) => Prepend(x, ChunkRead(m, WrapAdd(addr, j), k))
            case Err(e) => Err(GuestMemError(e.addr, e.len + k))
            case Panic => Panic
  {
    hide ChunkRead, FlatRead, Prepend, Disjoint, RegionBase, WrapAdd;
    ReadIsFlat(m, addr, j);
    ReadIsFlat(m, addr, j + k);
    ReadIsFlat(m, WrapAdd(addr, j), k);
    FlatReadSplits(m, addr, j, k);
  }

  /** On a disjoint layout the flat bytes determine the memory. */
  lemma {:induction false} FlatBytesDecide(m: Layout, n: Layout)
    requires WellSized(m) && Disjoint(m) && SameShape(m, n)
    requires forall a: u64 :: ByteAt(m, a) == ByteAt(n, a)
    ensures m == n
  {
    forall b | b in m
      ensures m[b] == n[b]
    {
      forall i | 0 <= i < |m[b]|
        ensures m[b][i] == n[b][i]
      {
        OwnerIsUnique(m, b + i, b);
        OwnerIsUnique(n, b + i, b);
        assert ByteAt(m, b + i) == ByteAt(n, b + i);
      }
    }
  }

  /** Writing a concatenation is writing its parts in turn, stopping at the first failure. */
  lemma {:induction false} WriteSplits(m: Layout, addr: u64, xs: seq<u8>, ys: seq<u8>)
    requires WellSized(m) && Disjoint(m) && |xs + ys| <= ISIZE_MAX
    ensures var (n, r) := ChunkWrite(m, addr, xs);
      ChunkWrite(m, addr, xs + ys) ==
      match r
      case Ok(_) => ChunkWrite(n, WrapAdd(addr, |xs|), ys)
      case Err(e) => (n, Err(GuestMemError(e.addr, e.len + |ys|)))
      case Panic => (n, Panic)
  {
    hide ChunkWrite, ByteAt, RegionBase, Disjoint, WellSized, MappedPrefix, FlatWritten, WrapAdd, SameShape;
    var (n, r) := ChunkWrite(m, addr, xs);
    var p := MappedPrefix(m, addr, |xs|);
    WriteIsFlat(m, addr, xs);
    if p < |xs| {
      WriteIsFlat(m, addr, xs + ys);
      MappedPrefixIs(m, addr, |xs + ys|, p);
      FlatWrittenPart(m, n, addr, xs, ys, p);
      FlatWritesAgree(m, n, ChunkWrite(m, addr, xs + ys).0, addr, xs + ys, p);
    } else if xs == [] {
      assert xs + ys == ys && WrapAdd(addr, 0) == addr by { WrapAddNothing(addr); }
      ChunkWriteEnd(m, addr);
    } else {
      WriteSplitsAfter(m, n, addr, xs, ys);
    }
  }

  lemma {:induction false} WriteSplitsAfter(m: Layout, n: Layout, addr: u64, xs: seq<u8>, ys: seq<u8>)
    requires WellSized(m) && Disjoint(m) && |xs + ys| <= ISIZE_MAX && xs != []
    requires MappedPrefix(m, addr, |xs|) == |xs| && FlatWritten(m, n, addr, xs, |xs|)
    ensures ChunkWrite(m, addr, xs + ys) == ChunkWrite(n, WrapAdd(addr, |xs|), ys)
  {
    hide ChunkWrite, ByteAt, RegionBase, Disjoint, WellSized, MappedPrefix, FlatWritten, WrapAdd, SameShape;
    var data, next := xs + ys, WrapAdd(addr, |xs|);
    FlatWrittenShape(m, n, addr, xs, |xs|);
    WriteIsFlat(m, addr, data);
    WriteIsFlat(n, next, ys);
    var q := MappedPrefix(n, next, |ys|);
    ShapeDecidesPrefix(m, n, next, |ys|);
    MappedPrefixSkips(m, addr, |data|, |xs|);
    WrapAddTwice(addr, |xs|, q);
    assert data[..|xs|] == xs && data[|xs|..] == ys;
    var o := ChunkWrite(n, next, ys).0;
    FlatWrittenTwice(m, n, o, addr, data, |xs|, q);
    FlatWritesAgree(m, o, ChunkWrite(m, addr, data).0, addr, data, |xs| + q);
  }

  lemma {:induction false} WrapAddNothing(addr: u64)
    ensures WrapAdd(addr, 0) == addr
  {
  }

  lemma {:induction false} FlatWrittenShape(m: Layout, n: Layout, addr: u64, data: seq<u8>, p: nat)
    requires p <= |data| && FlatWritten(m, n, addr, data, p) && Disjoint(m)
    ensures SameShape(m, n) && Disjoint(n)
  {
  }

  /** Only the stored prefix of the data matters. */
  lemma {:induction false} FlatWrittenPart(m: Layout, n: Layout, addr: u64, xs: seq<u8>, ys: seq<u8>, p: nat)
    requires p <= |xs| && FlatWritten(m, n, addr, xs, p)
    ensures FlatWritten(m, n, addr, xs + ys, p)
  {
  }

  /** A flat write of given data has one result. */
  lemma {:induction false} FlatWritesAgree(m: Layout, n: Layout, o: Layout, addr: u64, data: seq<u8>, p: nat)
    requires WellSized(m) && Disjoint(m)
    requires p <= |data| && FlatWritten(m, n, addr, data, p) && FlatWritten(m, o, addr, data, p)
    ensures n == o
  {
    hide ByteAt;
    FlatBytesDecide(n, o);
  }

  // ----- mapping -----

  /** What mapping anonymous bytes changes on any layout: the new region takes over from its base up
      to the next base, zeros first and then nothing. If the layout is disjoint afterwards, that is to
      zero-fill the range and change no other byte. */
  lemma {:induction false} MapAnonView(m: Layout, base: u64, len: nat, a: u64)
    requires base !in m
    ensures ByteAt(m[base := Zeros(len)], a) ==
            if base <= a && (forall b | b in m && base < b :: a < b) then (if a < base + len then Some(0) else None)
            else ByteAt(m, a)
    ensures Disjoint(m[base := Zeros(len)]) ==>
              ByteAt(m[base := Zeros(len)], a) == if base <= a < base + len then Some(0) else ByteAt(m, a)
  {
    hide Predecessor;
    var n := m[base := Zeros(len)];
    assert n[base] == Zeros(len) && forall b | b in m :: b in n && n[b] == m[b];
    if base <= a && forall b | b in m && base < b :: a < b {
      RegionBaseIff(n, a, base);
      NewRegionServes(n, a, base);
    } else {
      OldRegionServes(m, n, a, base);
    }
    if Disjoint(n) { DisjointView(m, n, base, len, a); }
  }

  /** At `a` the greatest base is `base`. */
  lemma {:induction false} NewRegionServes(n: Layout, a: u64, base: u64)
    requires base in n && base <= a && forall b | b in n && b <= a :: b <= base
    ensures RegionBase(n, a) == if a < base + |n[base]| then Some(base) else None
  {
    assert base in Bases(n);
  }

  lemma {:induction false} OldRegionServes(m: Layout, n: Layout, a: u64, base: u64)
    requires base !in m && n.Keys == m.Keys + {base} && forall b | b in m :: n[b] == m[b]
    requires a < base || exists b :: b in m && base < b <= a
    ensures RegionBase(n, a) == RegionBase(m, a)
  {
    assert forall b :: b in Bases(n) <==> b in Bases(m) || b == base;
  }

  lemma {:induction false} DisjointView(m: Layout, n: Layout, base: u64, len: nat, a: u64)
    requires base !in m && n == m[base := Zeros(len)] && Disjoint(n)
    ensures ByteAt(n, a) == if base <= a < base + len then Some(0) else ByteAt(m, a)
  {
    assert n[base] == Zeros(len) && forall b | b in m :: b in n && n[b] == m[b];
    assert Disjoint(m);
    OwnerIsUnique(n, a, base);
    if RegionBase(n, a).Some? { OwnerIsUnique(m, a, RegionBase(n, a).value); }
    if RegionBase(m, a).Some? { OwnerIsUnique(n, a, RegionBase(m, a).value); }
  }

  // ----- which layouts read as a flat map -----

  ghost predicate ReadsFlat(m: Layout) {
    forall addr: u64, len: nat | len <= ISIZE_MAX :: ChunkRead(m, addr, len) == FlatRead(m, addr, len)
  }

  /** The same regions, with `base` full of ones and everything else zero. */
  function Marked(m: Layout, base: int): (n: Layout)
    ensures SameShape(m, n)
  {
    map b | b in m :: if b == base then seq(|m[b]|, _ => 1) else Zeros(|m[b]|)
  }

  /** If region `base` serves two bytes from `addr` on although it does not own the second, the
      marked memory is not read as a flat map. */
  lemma {:induction false} IntrusionShows(m: Layout, base: int, addr: u64)
    requires RegionBase(m, addr) == Some(base) && addr - base + 2 <= |m[base]|
    requires RegionBase(m, WrapAdd(addr, 1)) != Some(base)
    ensures ChunkRead(Marked(m, base), addr, 2) != FlatRead(Marked(m, base), addr, 2)
  {
    var n := Marked(m, base);
    var next := WrapAdd(addr, 1);
    ShapeDecidesRegion(m, n, addr);
    ShapeDecidesRegion(m, n, next);
    ChunkReadStep(n, base, addr, 2);
    assert ChunkRead(n, WrapAdd(addr, 2), 0) == Ok([]);
    assert n[base][addr - base + 1] == 1;
    assert ChunkRead(n, addr, 2).value[1] == 1;
    if FlatRead(n, addr, 2).Ok? {
      assert FlatRead(n, addr, 2).value[1] == ByteAt(n, next).value;
    }
  }

  lemma {:induction false} IntrusionExists(m: Layout) returns (base: int, addr: u64)
    requires WellSized(m) && !Disjoint(m)
    ensures RegionBase(m, addr) == Some(base) && addr - base + 2 <= |m[base]|
    ensures RegionBase(m, WrapAdd(addr, 1)) != Some(base)
  {
    if a, b :| a in m && b in m && a < b && b < a + |m[a]| {
      var above := set k | k in m && a < k;
      assert b in above;
      MinimumExists(above, b);
      var next :| IsMinimum(above, next);
      base, addr := a, next - 1;
      forall k | k in m && k <= addr
        ensures k <= base
      {
        assert k !in above || next <= k;
      }
      RegionBaseIff(m, addr, base);
      assert next in Bases(m);
    } else {
      var a :| a in m && WORD < a + |m[a]|;
      base, addr := a, WORD - 1;
      RegionBaseIff(m, addr, base);
    }
  }

  lemma {:induction false} ShapeDecidesDisjoint(m: Layout, n: Layout)
    requires SameShape(m, n)
    ensures Disjoint(m) <==> Disjoint(n)
  {
  }

  /** A layout reads as a flat map whatever its contents if and only if it is disjoint. */
  lemma {:induction false} FlatExactlyWhenDisjoint(m: Layout)
    requires WellSized(m)
    ensures Disjoint(m) <==> forall n | SameShape(m, n) :: ReadsFlat(n)
  {
    if Disjoint(m) {
      forall n | SameShape(m, n)
        ensures ReadsFlat(n)
      {
        forall addr: u64, len: nat | len <= ISIZE_MAX
          ensures ChunkRead(n, addr, len) == FlatRead(n, addr, len)
        {
          ShapeDecidesDisjoint(m, n);
          ReadIsFlat(n, addr, len);
        }
      }
    } else {
      var base, addr := IntrusionExists(m);
      IntrusionShows(m, base, addr);
      assert SameShape(m, Marked(m, base)) && !ReadsFlat(Marked(m, base));
    }
  }
}

/** The in-memory guest: byte vectors keyed by base address, read and written chunk by chunk. */
module GuestMem {
  import opened Machine
  import opened Sorting

  /** What could not be accessed: the first failing address and the bytes still to go. */
  datatype GuestMemError = GuestMemError(addr: u64, len: usize)

  /** Byte vectors by base address. */
  type Layout = map<int, seq<u8>>

  /** Bases are `u64`, and no vector is longer than an allocation can be. */
  ghost predicate WellSized(m: Layout) {
    forall b | b in m :: 0 <= b < WORD && |m[b]| <= ISIZE_MAX
  }

  function Bases(m: Layout): set<int> {
    m.Keys
  }

  /** The base of the region that serves `addr`: the greatest base not above it, if that
      region is long enough. */
  function RegionBase(m: Layout, addr: u64): (r: Option<int>)
    ensures r.Some? ==> r.value in m && r.value <= addr && addr - r.value < |m[r.value]|
    ensures r.Some? ==> forall b | b in m && b <= addr :: b <= r.value
  {
    assert forall b | b in m :: b in Bases(m);
    match Predecessor(Bases(m), addr)
    case None => None
    case Some(base) => if addr - base < |m[base]| then Some(base) else None
  }

  /** The lookup finds exactly the greatest base not above the address, and only if that region is
      long enough. */
  lemma {:induction false} RegionBaseIff(m: Layout, addr: u64, base: int)
    ensures RegionBase(m, addr) == Some(base) <==>
            base in m && base <= addr < base + |m[base]| && forall b | b in m && b <= addr :: b <= base
  {
  }

  function Patch(s: seq<u8>, offset: nat, d: seq<u8>): (r: seq<u8>)
    requires offset + |d| <= |s|
    ensures |r| == |s|
    ensures forall i | 0 <= i < |s| :: r[i] == if offset <= i < offset + |d| then d[i - offset] else s[i]
  {
    s[..offset] + d + s[offset + |d|..]
  }

  /** How many bytes the region at `base` serves from `cursor` on, at most `len`. */
  function Take(m: Layout, base: int, cursor: u64, len: nat): (n: usize)
    requires base in m && base <= cursor < base + |m[base]|
    requires 0 < len <= ISIZE_MAX
    ensures 0 < n <= len && cursor - base + n <= |m[base]|
    ensures n == len || cursor - base + n == |m[base]|
  {
    Min(len, |m[base]| - (cursor - base))
  }

  /** The chunked read, from `cursor` on. */
  function ChunkRead(m: Layout, cursor: u64, len: nat): (r: Outcome<seq<u8>, GuestMemError>)
    requires len <= ISIZE_MAX
    ensures !r.Panic?
    ensures r.Ok? ==> |r.value| == len
    ensures r.Err? ==> 0 < r.error.len <= len
    decreases len
  {
    if len == 0 then Ok([])
    else
      match RegionBase(m, cursor)
      case None => Err(GuestMemError(cursor, len))
      case Some(base) =>
        var take := Take(m, base, cursor, len);
        var offset := cursor - base;
        match ChunkRead(m, WrapAdd(cursor, take), len - take)
        case Ok(rest) => Ok(m[base][offset..offset + take] + rest)
        case Err(e) => Err(e)
  }

  /** The chunked write, from `cursor` on: the memory it leaves, and its result. */
  function ChunkWrite(m: Layout, cursor: u64, data: seq<u8>): (r: (Layout, Outcome<(), GuestMemError>))
    requires |data| <= ISIZE_MAX
    ensures !r.1.Panic?
    ensures r.1.Err? ==> 0 < r.1.error.len <= |data|
    ensures SameShape(m, r.0)
    decreases |data|
  {
    if data == [] then (m, Ok(()))
    else
      match RegionBase(m, cursor)
      case None => (m, Err(GuestMemError(cursor, |data|)))
      case Some(base) =>
        var take := Take(m, base, cursor, |data|);
        ChunkWrite(m[base := Patch(m[base], cursor - base, data[..take])],
                   WrapAdd(cursor, take), data[take..])
  }

  ghost predicate SameShape(m: Layout, n: Layout) {
    m.Keys == n.Keys && forall b | b in m :: |m[b]| == |n[b]|
  }

  // ----- the flat view -----

  /** The byte a one-byte access at `a` sees. */
  function ByteAt(m: Layout, a: u64): Option<u8> {
    match RegionBase(m, a)
    case None => None
    case Some(base) => Some(m[base][a - base])
  }

  /** No region runs into the next one or past the top of the address space. */
  ghost predicate Disjoint(m: Layout) {
    && (forall a, b | a in m && b in m && a < b :: a + |m[a]| <= b)
    && (forall a | a in m :: a + |m[a]| <= WORD)
  }

  /** How many of the `len` addresses from `addr` on are mapped before the first hole. */
  function MappedPrefix(m: Layout, addr: u64, len: nat): (p: nat)
    requires len <= ISIZE_MAX
    ensures p <= len
    ensures forall i: nat | i < p :: ByteAt(m, WrapAdd(addr, i)).Some?
    ensures p < len ==> ByteAt(m, WrapAdd(addr, p)).None?
  {
    if len == 0 then 0
    else
      var p := MappedPrefix(m, addr, len - 1);
      if p == len - 1 && ByteAt(m, WrapAdd(addr, p)).Some? then len else p
  }

  /** Reading a flat partial map from address to byte. */
  function FlatRead(m: Layout, addr: u64, len: nat): (r: Outcome<seq<u8>, GuestMemError>)
    requires len <= ISIZE_MAX
    ensures r.Err? ==> 0 < r.error.len <= len
  {
    var p := MappedPrefix(m, addr, len);
    if p == len then Ok(seq(len, i requires 0 <= i < len => ByteAt(m, WrapAdd(addr, i)).value))
    else Err(GuestMemError(WrapAdd(addr, p), len - p))
  }

  /** `n` is `m` with the first `p` bytes of `data` stored from `addr` on, and nothing else changed. */
  ghost predicate FlatWritten(m: Layout, n: Layout, addr: u64, data: seq<u8>, p: nat)
    requires p <= |data|
  {
    && SameShape(m, n)
    && forall a: u64 :: ByteAt(n, a) ==
         if WrapSub(a, addr) < p then Some(data[WrapSub(a, addr)]) else ByteAt(m, a)
  }

  /** Writing a flat partial map from address to byte: the mapped prefix is stored, and the first
      hole is reported. */
  ghost predicate FlatWrite(m: Layout, addr: u64, data: seq<u8>, n: Layout, r: Outcome<(), GuestMemError>)
    requires |data| <= ISIZE_MAX
  {
    var p := MappedPrefix(m, addr, |data|);
    && FlatWritten(m, n, addr, data, p)
    && r == if p == |data| then Ok(()) else Err(GuestMemError(WrapAdd(addr, p), |data| - p))
  }

  // ----- the object -----

  class InMemGuest {
    var bytes: Layout

    ghost predicate Valid()
      reads this
    {
      WellSized(bytes)
    }

    constructor ()
      ensures Valid() && bytes == map[]
    {
      bytes := map[];
    }

    method MapAnon(base: u64, len: usize, prot: u32) returns (r: Outcome<(), GuestMemError>)
      requires Valid()
      modifies this
      ensures Valid()
      ensures r == if base in old(bytes) then Err(GuestMemError(base, len))
                   else if len > ISIZE_MAX then Panic
                   else Ok(())
      ensures bytes == if r.Ok? then old(bytes)[base := Zeros(len)] else old(bytes)
    {
      if base in bytes {
        return Err(GuestMemError(base, len));
      }
      if len > ISIZE_MAX {
        return Panic;
      }
      bytes := bytes[base := Zeros(len)];
      return Ok(());
    }

    method Read(addr: u64, len: usize) returns (r: Outcome<seq<u8>, GuestMemError>)
      ensures r.Panic? <==> len > ISIZE_MAX
      ensures len <= ISIZE_MAX ==> r == ChunkRead(bytes, addr, len)
      ensures len <= ISIZE_MAX && Disjoint(bytes) ==> r == FlatRead(bytes, addr, len)
    {
      hide FlatRead, Disjoint, ChunkRead, RegionBase, Take, WrapAdd, Bases;
      if len > ISIZE_MAX {
        return Panic;
      }
      var out: seq<u8> := [];
      var cursor: u64 := addr;
      PrependNothing(ChunkRead(bytes, addr, len));
      if Disjoint(bytes) { ReadIsFlat(bytes, addr, len); }
      while |out| < len
        invariant |out| <= len
        invariant ChunkRead(bytes, addr, len) == Prepend(out, ChunkRead(bytes, cursor, len - |out|))
        decreases len - |out|
      {
        var remaining := len - |out|;
        var owner := RegionBase(bytes, cursor);
        if owner.None? {
          ChunkReadAtHole(bytes, cursor, remaining);
          return Err(GuestMemError(cursor, remaining));
        }
        var base := owner.value;
        var offset := cursor - base;
        var chunk := Take(bytes, base, cursor, remaining);
        ReadRound(bytes, base, cursor, remaining, out);
        out := out + bytes[base][offset..offset + chunk];
        cursor := WrapAdd(cursor, chunk);
      }
      ChunkReadEnd(bytes, cursor, out);
      return Ok(out);
    }

    method Write(addr: u64, data: seq<u8>) returns (r: Outcome<(), GuestMemError>)
      requires Valid() && |data| <= ISIZE_MAX
      modifies this
      ensures Valid()
      ensures (bytes, r) == ChunkWrite(old(bytes), addr, data)
      ensures Disjoint(old(bytes)) ==> FlatWrite(old(bytes), addr, data, bytes, r)
    {
      hide FlatWrite, Disjoint, ChunkWrite, RegionBase, Take, WrapAdd, Patch, Bases;
      if Disjoint(bytes) { WriteIsFlat(bytes, addr, data); }
      var cursor: u64 := addr;
      var idx := 0;
      while idx < |data|
        invariant 0 <= idx <= |data|
        invariant Valid()
        invariant ChunkWrite(old(bytes), addr, data) == ChunkWrite(bytes, cursor, data[idx..])
        decreases |data| - idx
      {
        var remaining := |data| - idx;
        var owner := RegionBase(bytes, cursor);
        if owner.None? {
          ChunkWriteAtHole(bytes, cursor, data[idx..]);
          return Err(GuestMemError(cursor, remaining));
        }
        var base := owner.value;
        var offset := cursor - base;
        var take := Take(bytes, base, cursor, remaining);
        WriteRound(bytes, base, cursor, data, idx);
        bytes := bytes[base := Patch(bytes[base], offset, data[idx..idx + take])];
        idx := idx + take;
        cursor := WrapAdd(cursor, take);
      }
      assert data[idx..] == [];
      ChunkWriteEnd(bytes, cursor);
      return Ok(());
    }
  }

  function Prepend(out: seq<u8>, r: Outcome<seq<u8>, GuestMemError>): Outcome<seq<u8>, GuestMemError> {
    match r
    case Ok(rest) => Ok(out + rest)
    case Err(e) => Err(e)
    case Panic => Panic
  }

  lemma {:induction false} PrependNothing(r: Outcome<seq<u8>, GuestMemError>)
    ensures Prepend([], r) == r
  {
    if r.Ok? { assert [] + r.value == r.value; }
  }

  lemma {:induction false} PrependTwice(a: seq<u8>, b: seq<u8>, r: Outcome<seq<u8>, GuestMemError>)
    ensures Prepend(a, Prepend(b, r)) == Prepend(a + b, r)
  {
    if r.Ok? { assert a + (b + r.value) == (a + b) + r.value; }
  }

  // ----- the chunked loops on a disjoint layout -----

  lemma {:induction false} OwnerIsUnique(m: Layout, a: u64, base: int)
    requires Disjoint(m)
    ensures RegionBase(m, a) == Some(base) <==> base in m && base <= a < base + |m[base]|
  {
  }

  /** One chunk of a disjoint layout: the bytes a region serves are the flat bytes there. */
  lemma {:induction false} ChunkIsFlat(m: Layout, base: int, cursor: u64, take: nat)
    requires Disjoint(m) && base in m
    requires base <= cursor && cursor - base + take <= |m[base]|
    ensures forall i: nat | i < take ::
              WrapAdd(cursor, i) == cursor + i && ByteAt(m, cursor + i) == Some(m[base][cursor - base + i])
  {
  }

  lemma {:induction false} MappedPrefixIs(m: Layout, addr: u64, len: nat, p: nat)
    requires p <= len <= ISIZE_MAX
    requires forall i: nat | i < p :: ByteAt(m, WrapAdd(addr, i)).Some?
    requires p < len ==> ByteAt(m, WrapAdd(addr, p)).None?
    ensures MappedPrefix(m, addr, len) == p
  {
  }

  lemma {:induction false} WrapAddTwice(addr: u64, i: nat, j: nat)
    requires i + j <= ISIZE_MAX
    ensures WrapAdd(WrapAdd(addr, i), j) == WrapAdd(addr, i + j)
  {
  }

  /** Skipping a mapped stretch shifts the prefix. */
  lemma {:induction false} MappedPrefixSkips(m: Layout, addr: u64, len: nat, k: nat)
    requires k <= len <= ISIZE_MAX
    requires forall i: nat | i < k :: ByteAt(m, WrapAdd(addr, i)).Some?
    ensures MappedPrefix(m, addr, len) == k + MappedPrefix(m, WrapAdd(addr, k), len - k)
  {
    hide ByteAt;
    var next := WrapAdd(addr, k);
    var q := MappedPrefix(m, next, len - k);
    forall i: nat | i < k + q
      ensures ByteAt(m, WrapAdd(addr, i)).Some?
    {
      if k <= i { assert WrapAdd(next, i - k) == WrapAdd(addr, i); }
    }
    assert WrapAdd(next, q) == WrapAdd(addr, k + q);
    MappedPrefixIs(m, addr, len, k + q);
  }

  lemma {:induction false} FlatReadShape(m: Layout, addr: u64, len: nat)
    requires len <= ISIZE_MAX
    ensures var p := MappedPrefix(m, addr, len);
      && (p == len ==> FlatRead(m, addr, len).Ok?)
      && (p < len ==> FlatRead(m, addr, len) == Err(GuestMemError(WrapAdd(addr, p), len - p)))
  {
  }

  /** A flat read splits at any point. */
  lemma {:induction false} FlatReadSplits(m: Layout, addr: u64, j: nat, k: nat)
    requires j + k <= ISIZE_MAX
    ensures FlatRead(m, addr, j + k) ==
            match FlatRead(m, addr, j)
            case Ok(x) => Prepend(x, FlatRead(m, WrapAdd(addr, j), k))
            case Err(e) => Err(GuestMemError(e.addr, e.len + k))
            case Panic => Panic
  {
    hide ByteAt, WrapAdd, FlatRead, MappedPrefix;
    FlatReadShape(m, addr, j);
    FlatReadShape(m, addr, j + k);
    FlatReadShape(m, WrapAdd(addr, j), k);
    var p := MappedPrefix(m, addr, j);
    if p < j {
      MappedPrefixIs(m, addr, j + k, p);
    } else {
      MappedPrefixSkips(m, addr, j + k, j);
      WrapAddTwice(addr, j, MappedPrefix(m, WrapAdd(addr, j), k));
      if FlatRead(m, addr, j + k).Ok? { FlatBytesGlue(m, addr, j, k); }
    }
  }

  lemma {:induction false} FlatBytesGlue(m: Layout, addr: u64, j: nat, k: nat)
    requires j + k <= ISIZE_MAX
    requires FlatRead(m, addr, j + k).Ok? && FlatRead(m, addr, j).Ok? && FlatRead(m, WrapAdd(addr, j), k).Ok?
    ensures FlatRead(m, addr, j + k).value == FlatRead(m, addr, j).value + FlatRead(m, WrapAdd(addr, j), k).value
  {
    hide ByteAt, WrapAdd, MappedPrefix;
    var x, y := FlatRead(m, addr, j).value, FlatRead(m, WrapAdd(addr, j), k).value;
    var z := FlatRead(m, addr, j + k).value;
    forall i | 0 <= i < j + k
      ensures z[i] == (x + y)[i]
    {
      if j <= i { WrapAddTwice(addr, j, i - j); }
    }
  }

  /** The bytes one region serves, as a flat read. */
  lemma {:induction false} ChunkReadsFlat(m: Layout, base: int, addr: u64, take: nat)
    requires Disjoint(m) && base in m && take <= ISIZE_MAX
    requires base <= addr && addr - base + take <= |m[base]|
    ensures FlatRead(m, addr, take) == Ok(m[base][addr - base..addr - base + take])
  {
    hide ByteAt, Disjoint;
    ChunkIsFlat(m, base, addr, take);
    MappedPrefixIs(m, addr, take, take);
    assert FlatRead(m, addr, take).value == m[base][addr - base..addr - base + take];
  }

  /** Gluing a served chunk to the flat bytes after it. */
  lemma {:induction false} FlatReadGlues(m: Layout, base: int, addr: u64, len: nat, take: nat)
    requires Disjoint(m) && base in m && take <= len <= ISIZE_MAX
    requires base <= addr && addr - base + take <= |m[base]|
    ensures var chunk := m[base][addr - base..addr - base + take];
      FlatRead(m, addr, len) == Prepend(chunk, FlatRead(m, WrapAdd(addr, take), len - take))
  {
    hide FlatRead, Disjoint;
    ChunkReadsFlat(m, base, addr, take);
    FlatReadSplits(m, addr, take, len - take);
  }

  /** The first round of the read loop. */
  lemma {:induction false} ChunkReadStep(m: Layout, base: int, addr: u64, len: nat)
    requires 0 < len <= ISIZE_MAX && RegionBase(m, addr) == Some(base)
    ensures var take := Take(m, base, addr, len);
      ChunkRead(m, addr, len)
      == Prepend(m[base][addr - base..addr - base + take], ChunkRead(m, WrapAdd(addr, take), len - take))
  {
  }

  lemma {:induction false} ReadRound(m: Layout, base: int, cursor: u64, len: nat, out: seq<u8>)
    requires 0 < len <= ISIZE_MAX && RegionBase(m, cursor) == Some(base)
    ensures var take := Take(m, base, cursor, len);
      Prepend(out, ChunkRead(m, cursor, len))
      == Prepend(out + m[base][cursor - base..cursor - base + take], ChunkRead(m, WrapAdd(cursor, take), len - take))
  {
    hide ChunkRead, Prepend, RegionBase, WrapAdd;
    var take := Take(m, base, cursor, len);
    ChunkReadStep(m, base, cursor, len);
    PrependTwice(out, m[base][cursor - base..cursor - base + take], ChunkRead(m, WrapAdd(cursor, take), len - take));
  }

  lemma {:induction false} ChunkReadEnd(m: Layout, cursor: u64, out: seq<u8>)
    ensures Prepend(out, ChunkRead(m, cursor, 0)) == Ok(out)
  {
    assert out + [] == out;
  }

  lemma {:induction false} ChunkReadAtHole(m: Layout, cursor: u64, len: nat)
    requires 0 < len <= ISIZE_MAX && RegionBase(m, cursor).None?
    ensures ChunkRead(m, cursor, len) == Err(GuestMemError(cursor, len))
  {
  }

  lemma {:induction false} FlatReadNothing(m: Layout, addr: u64)
    ensures ChunkRead(m, addr, 0) == FlatRead(m, addr, 0)
  {
    assert FlatRead(m, addr, 0).value == [];
  }

  lemma {:induction false} FlatReadAtHole(m: Layout, addr: u64, len: nat)
    requires 0 < len <= ISIZE_MAX && RegionBase(m, addr).None?
    ensures FlatRead(m, addr, len) == Err(GuestMemError(addr, len))
  {
    assert WrapAdd(addr, 0) == addr;
    MappedPrefixIs(m, addr, len, 0);
  }

  lemma {:induction false} ReadIsFlat(m: Layout, addr: u64, len: nat)
    requires Disjoint(m) && len <= ISIZE_MAX
    ensures ChunkRead(m, addr, len) == FlatRead(m, addr, len)
    decreases len
  {
    hide *;
    if len == 0 {
      FlatReadNothing(m, addr);
    } else {
      match RegionBase(m, addr)
      case Some(base) =>
        var take := Take(m, base, addr, len);
        ReadIsFlat(m, WrapAdd(addr, take), len - take);
        ChunkReadStep(m, base, addr, len);
        FlatReadGlues(m, base, addr, len, take);
      case None =>
        ChunkReadAtHole(m, addr, len);
        FlatReadAtHole(m, addr, len);
    }
  }

  lemma {:induction false} ShapeDecidesRegion(m: Layout, n: Layout, a: u64)
    requires SameShape(m, n)
    ensures RegionBase(m, a) == RegionBase(n, a)
  {
  }

  lemma {:induction false} ShapeDecidesPrefix(m: Layout, n: Layout, addr: u64, len: nat)
    requires SameShape(m, n) && len <= ISIZE_MAX
    ensures MappedPrefix(m, addr, len) == MappedPrefix(n, addr, len)
  {
  }

  /** One chunk of a write on a disjoint layout is a flat update. */
  lemma {:induction false} ChunkWriteIsFlat(m: Layout, base: int, cursor: u64, d: seq<u8>)
    requires Disjoint(m) && base in m
    requires base <= cursor && cursor - base + |d| <= |m[base]|
    ensures FlatWritten(m, m[base := Patch(m[base], cursor - base, d)], cursor, d, |d|)
  {
    var n := m[base := Patch(m[base], cursor - base, d)];
    assert base + |m[base]| <= WORD;
    forall a: u64
      ensures ByteAt(n, a) == if WrapSub(a, cursor) < |d| then Some(d[WrapSub(a, cursor)]) else ByteAt(m, a)
    {
      ShapeDecidesRegion(m, n, a);
      OwnerIsUnique(m, a, base);
    }
  }

  lemma {:induction false} FlatWrittenTwice(m: Layout, n: Layout, o: Layout, addr: u64, data: seq<u8>,
                                            take: nat, p: nat)
    requires 0 < take <= |data| <= ISIZE_MAX && p <= |data| - take
    requires FlatWritten(m, n, addr, data[..take], take)
    requires FlatWritten(n, o, WrapAdd(addr, take), data[take..], p)
    ensures FlatWritten(m, o, addr, data, take + p)
  {
  }

  /** The first round of the write loop. */
  lemma {:induction false} ChunkWriteStep(m: Layout, base: int, addr: u64, data: seq<u8>)
    requires 0 < |data| <= ISIZE_MAX && RegionBase(m, addr) == Some(base)
    ensures var take := Take(m, base, addr, |data|);
      ChunkWrite(m, addr, data)
      == ChunkWrite(m[base := Patch(m[base], addr - base, data[..take])], WrapAdd(addr, take), data[take..])
  {
  }

  lemma {:induction false} WriteRound(m: Layout, base: int, cursor: u64, data: seq<u8>, idx: nat)
    requires idx < |data| <= ISIZE_MAX && RegionBase(m, cursor) == Some(base)
    ensures var take := Take(m, base, cursor, |data| - idx);
      ChunkWrite(m, cursor, data[idx..])
      == ChunkWrite(m[base := Patch(m[base], cursor - base, data[idx..idx + take])],
                    WrapAdd(cursor, take), data[idx + take..])
  {
    hide ChunkWrite, RegionBase, WrapAdd;
    var take := Take(m, base, cursor, |data| - idx);
    ChunkWriteStep(m, base, cursor, data[idx..]);
    assert data[idx..][..take] == data[idx..idx + take];
    assert data[idx..][take..] == data[idx + take..];
  }

  lemma {:induction false} ChunkWriteEnd(m: Layout, cursor: u64)
    ensures ChunkWrite(m, cursor, []) == (m, Ok(()))
  {
  }

  lemma {:induction false} ChunkWriteAtHole(m: Layout, cursor: u64, data: seq<u8>)
    requires 0 < |data| <= ISIZE_MAX && RegionBase(m, cursor).None?
    ensures ChunkWrite(m, cursor, data) == (m, Err(GuestMemError(cursor, |data|)))
  {
  }

  lemma {:induction false} FlatWriteAtHole(m: Layout, addr: u64, data: seq<u8>)
    requires 0 < |data| <= ISIZE_MAX && RegionBase(m, addr).None?
    ensures FlatWrite(m, addr, data, m, Err(GuestMemError(addr, |data|)))
  {
    assert WrapAdd(addr, 0) == addr;
    MappedPrefixIs(m, addr, |data|, 0);
  }

  /** Gluing one stored chunk to the flat write after it. */
  lemma {:induction false} FlatWriteGlues(m: Layout, base: int, addr: u64, data: seq<u8>, take: nat,
                                          o: Layout, r: Outcome<(), GuestMemError>)
    requires Disjoint(m) && base in m && 0 < take <= |data| <= ISIZE_MAX
    requires base <= addr && addr - base + take <= |m[base]|
    requires FlatWrite(m[base := Patch(m[base], addr - base, data[..take])], WrapAdd(addr, take), data[take..], o, r)
    ensures FlatWrite(m, addr, data, o, r)
  {
    hide ByteAt, Disjoint, RegionBase, FlatWritten, WrapAdd, MappedPrefix;
    var next := WrapAdd(addr, take);
    var n := m[base := Patch(m[base], addr - base, data[..take])];
    var p := MappedPrefix(n, next, |data| - take);
    ChunkWriteIsFlat(m, base, addr, data[..take]);
    ChunkIsFlat(m, base, addr, take);
    ShapeDecidesPrefix(m, n, next, |data| - take);
    MappedPrefixSkips(m, addr, |data|, take);
    FlatWrittenTwice(m, n, o, addr, data, take, p);
    WrapAddTwice(addr, take, p);
  }

  lemma {:induction false} WriteIsFlat(m: Layout, addr: u64, data: seq<u8>)
    requires Disjoint(m) && |data| <= ISIZE_MAX
    ensures FlatWrite(m, addr, data, ChunkWrite(m, addr, data).0, ChunkWrite(m, addr, data).1)
    decreases |data|
  {
    if data != [] {
      hide *;
      match RegionBase(m, addr)
      case Some(base) =>
        var take := Take(m, base, addr, |data|);
        WriteIsFlat(m[base := Patch(m[base], addr - base, data[..take])], WrapAdd(addr, take), data[take..]);
        ChunkWriteStep(m, base, addr, data);
        FlatWriteGlues(m, base, addr, data, take, ChunkWrite(m, addr, data).0, ChunkWrite(m, addr, data).1);
      case None =>
        FlatWriteAtHole(m, addr, data);
    }
  }
}

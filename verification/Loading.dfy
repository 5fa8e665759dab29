/** From ELF headers to guest memory: when a loaded image can be mapped, and what the guest then
    finds at every address. */
module Loading {
  import opened Machine
  import opened Sorting
  import opened Mmap
  import opened Loader
  import opened Engine
  import opened AddressSpace

  function PageRanges(segs: seq<Segment>): (rs: seq<Region>)
    ensures |rs| == |segs|
    ensures forall i | 0 <= i < |segs| :: rs[i] == PageRange(segs[i])
  {
    seq(|segs|, i requires 0 <= i < |segs| => PageRange(segs[i]))
  }

  /** Every segment needs a page, and no two segments share one. */
  ghost predicate PagesDisjoint(segs: seq<Segment>) {
    && (forall i | 0 <= i < |segs| :: PageRange(segs[i]).size > 0)
    && (forall i, j | 0 <= i < j < |segs| :: Apart(PageRange(segs[i]), PageRange(segs[j])))
  }

  /** The byte a segment puts at `a`: file content, then zeros, also in the padding of its pages. */
  function ByteOf(s: Segment, a: int): u8 {
    if s.vaddr <= a < s.vaddr + s.filesz && a - s.vaddr < |s.data| then s.data[a - s.vaddr] else 0
  }

  /** Exactly the pages of the segments are mapped, each with its segment's bytes and permissions. */
  ghost predicate HoldsImage(m: Memory, segs: seq<Segment>) {
    && (forall a :: a in m <==> Claims(PageRanges(segs), a))
    && (forall k, a | 0 <= k < |segs| && Covers(PageRange(segs[k]), a) ::
          a in m && m[a] == Cell(ByteOf(segs[k], a), FlagPerm(segs[k].flags)))
  }

  /** The state after all of `segs` has been mapped into an empty space. */
  ghost predicate Placed(segs: seq<Segment>, sp: Space) {
    && sp.mapped == PageRanges(segs)
    && Ordered(sp.claimed) && multiset(sp.claimed) == multiset(sp.mapped)
    && HoldsImage(sp.mem, segs)
  }

  // ----- one segment -----

  lemma {:induction false} PagesDisjointPush(front: seq<Segment>, s: Segment)
    ensures PagesDisjoint(front + [s]) <==>
            PagesDisjoint(front) && PageRange(s).size > 0 && ApartFromAll(PageRange(s), PageRanges(front))
  {
    hide PageRange;
    var all := front + [s];
    if PagesDisjoint(all) {
      assert all[|front|] == s;
      forall i | 0 <= i < |front|
        ensures PageRange(front[i]).size > 0 && Apart(PageRange(s), PageRanges(front)[i])
      {
        assert all[i] == front[i];
        assert Apart(PageRange(all[i]), PageRange(all[|front|]));
      }
      forall i, j | 0 <= i < j < |front|
        ensures Apart(PageRange(front[i]), PageRange(front[j]))
      {
        assert all[i] == front[i] && all[j] == front[j];
      }
    }
    if PagesDisjoint(front) && PageRange(s).size > 0 && ApartFromAll(PageRange(s), PageRanges(front)) {
      forall i | 0 <= i < |front|
        ensures Apart(PageRange(s), PageRange(front[i]))
      {
        assert PageRanges(front)[i] in PageRanges(front);
      }
    }
  }

  /** Free pages are the pages apart from everything mapped. */
  lemma {:induction false} FreeIffApart(segs: seq<Segment>, sp: Space, x: Region)
    requires Placed(segs, sp)
    ensures (forall a | x.base <= a < x.base + x.size :: a !in sp.mem) <==> ApartFromAll(x, sp.mapped)
  {
    if forall a | x.base <= a < x.base + x.size :: a !in sp.mem {
      forall r | r in sp.mapped
        ensures Apart(x, r)
      {
        forall a | Covers(x, a) ensures !Covers(r, a) { assert Claims(sp.mapped, a) || !Covers(r, a); }
        ApartMeansNoCommonAddress(x, r);
      }
    }
    if ApartFromAll(x, sp.mapped) {
      forall a | x.base <= a < x.base + x.size
        ensures a !in sp.mem
      {
        assert Covers(x, a);
        forall r | r in sp.mapped
          ensures !Covers(r, a)
        {
          ApartMeansNoCommonAddress(x, r);
        }
      }
    }
  }

  lemma {:induction false} ApartSameEntries(x: Region, rs: seq<Region>, vs: seq<Region>)
    requires multiset(rs) == multiset(vs)
    ensures ApartFromAll(x, rs) <==> ApartFromAll(x, vs)
  {
    assert forall r :: r in rs <==> r in multiset(rs);
    assert forall r :: r in vs <==> r in multiset(vs);
  }

  /** When a range goes on top of a placed image: it must be whole free pages, and then both the map
      and the engine accept it. */
  lemma {:induction false} RangeGoesOn(segs: seq<Segment>, sp: Space, x: Region, perm: Perm)
    requires Placed(segs, sp)
    ensures var (t, r) := MapRange(sp, x.base, x.size, x.prot, perm);
      && (r.Ok? <==> PageAligned(x) && ApartFromAll(x, sp.mapped))
      && (r.Ok? ==> && t == Space(InsertBy(BaseOf, x, sp.claimed), sp.mapped, MapZeroed(sp.mem, x.base, x.size, perm))
                    && Ordered(t.claimed) && multiset(t.claimed) == multiset(sp.mapped + [x]))
  {
    hide Placed, Inserted, InsertBy, Ordered, ApartFromAll, MapZeroed;
    FreeIffApart(segs, sp, x);
    PlacedFacts(segs, sp);
    ApartSameEntries(x, sp.claimed, sp.mapped);
    if PageAligned(x) && ApartFromAll(x, sp.mapped) {
      InsertApart(sp.claimed, x);
    }
  }

  /** Why a range does not go on top of a placed image. */
  function FaultOf(x: Region, rs: seq<Region>): MapFault {
    if Collides(x, rs) then Overlap else EngineRefused
  }

  /** The map refuses the ranges that collide; what else does not go on is refused by the engine. */
  lemma {:induction false} RangeFault(segs: seq<Segment>, sp: Space, x: Region, perm: Perm)
    requires Placed(segs, sp) && !(PageAligned(x) && ApartFromAll(x, sp.mapped))
    ensures MapRange(sp, x.base, x.size, x.prot, perm).1 == Err(Map(x.base, FaultOf(x, sp.mapped)))
  {
    hide Placed, Inserted, ApartFromAll, MapZeroed, Collides;
    RangeGoesOn(segs, sp, x, perm);
    PlacedFacts(segs, sp);
    RefusedIffCollides(sp.claimed, x);
    CollidesSameEntries(x, sp.claimed, sp.mapped);
  }

  lemma {:induction false} CollidesSameEntries(x: Region, rs: seq<Region>, vs: seq<Region>)
    requires multiset(rs) == multiset(vs)
    ensures Collides(x, rs) <==> Collides(x, vs)
  {
    assert forall r :: r in rs <==> r in multiset(rs);
    assert forall r :: r in vs <==> r in multiset(vs);
  }

  lemma {:induction false} PlacedFacts(segs: seq<Segment>, sp: Space)
    requires Placed(segs, sp)
    ensures Ordered(sp.claimed) && multiset(sp.claimed) == multiset(sp.mapped) && sp.mapped == PageRanges(segs)
  {
  }

  lemma {:induction false} SegmentGoesOn(segs: seq<Segment>, sp: Space, s: Segment)
    requires Placed(segs, sp) && ValidSegment(s)
    ensures var (t, r) := MapSegment(sp, s);
      && (r.Ok? <==> PageRange(s).size > 0 && ApartFromAll(PageRange(s), PageRanges(segs)))
      && (r.Ok? ==> Placed(segs + [s], t))
      && (r.Ok? ==> t.claimed == InsertBy(BaseOf, PageRange(s), sp.claimed))
      && (!r.Ok? ==> r == Err(Map(PageStart(s), FaultOf(PageRange(s), PageRanges(segs)))))
  {
    hide Placed, Inserted, InsertBy, Ordered, ApartFromAll, PageRange, MapRange, Mapped, ValidSegment, MapZeroed, Store,
         FaultOf;
    var x, perm := PageRange(s), PermOf(s.flags);
    RoundingShape(s);
    PageRangeFlags(s);
    PlacedFacts(segs, sp);
    RangeGoesOn(segs, sp, x, perm);
    FileBytesAreMapped(sp.mem, s, perm);
    var (t, r) := MapSegment(sp, s);
    if r.Ok? {
      assert PageRanges(segs + [s]) == PageRanges(segs) + [x];
      SegmentIsStored(segs, sp, s);
      PlacedIs(segs + [s], t);
    } else {
      RangeFault(segs, sp, x, perm);
      PageRangeStart(s);
    }
  }

  lemma {:induction false} PageRangeStart(s: Segment)
    ensures PageRange(s).base == PageStart(s)
  {
  }

  lemma {:induction false} PlacedIs(segs: seq<Segment>, sp: Space)
    requires sp.mapped == PageRanges(segs) && Ordered(sp.claimed) && multiset(sp.claimed) == multiset(sp.mapped)
    requires HoldsImage(sp.mem, segs)
    ensures Placed(segs, sp)
  {
  }

  /** Zeroing free pages and storing the file bytes on them extends the image by the segment, and
      disturbs no earlier one. */
  lemma {:induction false} SegmentIsStored(segs: seq<Segment>, sp: Space, s: Segment)
    requires Placed(segs, sp) && ValidSegment(s)
    requires ApartFromAll(PageRange(s), sp.mapped)
    ensures var p := PageRange(s);
      HoldsImage(Store(MapZeroed(sp.mem, p.base, p.size, PermOf(s.flags)), s.vaddr, s.FileBytes()), segs + [s])
  {
    hide PageRange, PermOf, FlagPerm, Ordered, ByteOf, Store, MapZeroed;
    var p, perm, all := PageRange(s), PermOf(s.flags), segs + [s];
    var n := Store(MapZeroed(sp.mem, p.base, p.size, perm), s.vaddr, s.FileBytes());
    StoredKeys(segs, sp, s);
    forall k, a | 0 <= k < |all| && Covers(PageRange(all[k]), a)
      ensures a in n && n[a] == Cell(ByteOf(all[k], a), FlagPerm(all[k].flags))
    {
      if k < |segs| {
        assert all[k] == segs[k];
        EarlierUndisturbed(segs, sp, s, k, a);
      } else {
        LastStored(sp.mem, s, a);
      }
    }
  }

  lemma {:induction false} LastStored(m: Memory, s: Segment, a: int)
    requires ValidSegment(s) && Covers(PageRange(s), a)
    ensures var p := PageRange(s);
      var n := Store(MapZeroed(m, p.base, p.size, PermOf(s.flags)), s.vaddr, s.FileBytes());
      a in n && n[a] == Cell(ByteOf(s, a), FlagPerm(s.flags))
  {
    hide PermOf, FlagPerm;
    PermOfBits(s.flags);
  }

  lemma {:induction false} StoredKeys(segs: seq<Segment>, sp: Space, s: Segment)
    requires Placed(segs, sp) && ValidSegment(s)
    ensures var p := PageRange(s);
      forall a :: a in Store(MapZeroed(sp.mem, p.base, p.size, PermOf(s.flags)), s.vaddr, s.FileBytes())
                  <==> Claims(PageRanges(segs + [s]), a)
  {
    hide PageRange, PermOf, Ordered;
    var p, perm := PageRange(s), PermOf(s.flags);
    var m := MapZeroed(sp.mem, p.base, p.size, perm);
    assert PageRanges(segs + [s]) == PageRanges(segs) + [p];
    forall a
      ensures a in m <==> Claims(PageRanges(segs + [s]), a)
    {
      assert Covers(p, a) <==> p.base <= a < p.base + p.size;
      assert Claims(PageRanges(segs + [s]), a) <==> Claims(PageRanges(segs), a) || Covers(p, a);
    }
    assert Store(m, s.vaddr, s.FileBytes()).Keys == m.Keys;
  }

  lemma {:induction false} EarlierUndisturbed(segs: seq<Segment>, sp: Space, s: Segment, k: nat, a: int)
    requires Placed(segs, sp) && ValidSegment(s) && ApartFromAll(PageRange(s), sp.mapped)
    requires k < |segs| && Covers(PageRange(segs[k]), a)
    ensures var p := PageRange(s);
      var n := Store(MapZeroed(sp.mem, p.base, p.size, PermOf(s.flags)), s.vaddr, s.FileBytes());
      a in n && n[a] == Cell(ByteOf(segs[k], a), FlagPerm(segs[k].flags))
  {
    hide PageRange, PermOf, FlagPerm, Ordered, ByteOf;
    RoundingShape(s);
    var p := PageRange(s);
    assert PageRanges(segs)[k] in sp.mapped;
    ApartMeansNoCommonAddress(p, PageRange(segs[k]));
    assert !Covers(p, a);
    assert a in sp.mem;
    var m := MapZeroed(sp.mem, p.base, p.size, PermOf(s.flags));
    assert m[a] == sp.mem[a];
    var n := Store(m, s.vaddr, s.FileBytes());
    assert a in n && n[a].val == m[a].val && n[a].perm == m[a].perm;
  }

  // ----- the whole image -----

  /** Mapping into an empty space succeeds if and only if no two segments share a page and each has
      one; and then the guest finds the image. */
  lemma {:induction false} MapsIffPagesDisjoint(segs: seq<Segment>)
    requires AllValid(segs)
    ensures MapImage(EMPTY_SPACE, segs).1.Ok? <==> PagesDisjoint(segs)
    ensures PagesDisjoint(segs) ==> Placed(segs, MapImage(EMPTY_SPACE, segs).0)
  {
    hide Placed, PagesDisjoint, MapSegment, PageRange, ApartFromAll, ValidSegment;
    if segs == [] {
      NothingPlaced();
    } else {
      var front, s := segs[..|segs| - 1], segs[|segs| - 1];
      assert segs == front + [s] && s in segs;
      MapsIffPagesDisjoint(front);
      PagesDisjointPush(front, s);
      if PagesDisjoint(front) {
        SegmentGoesOn(front, MapImage(EMPTY_SPACE, front).0, s);
      }
    }
  }

  /** Segment `k` is the first without a page, or with one that an earlier segment has. */
  ghost predicate FirstUnplaced(segs: seq<Segment>, k: nat) {
    k < |segs| && PagesDisjoint(segs[..k]) && !PagesDisjoint(segs[..k + 1])
  }

  /** Exactly an image that cannot be mapped has such a segment, and just one. */
  lemma {:induction false} OneFirstUnplaced(segs: seq<Segment>)
    ensures PagesDisjoint(segs) <==> !exists k: nat :: FirstUnplaced(segs, k)
    ensures forall j: nat, k: nat | FirstUnplaced(segs, j) && FirstUnplaced(segs, k) :: j == k
  {
    hide PagesDisjoint;
    forall i: nat, j: nat | i <= j <= |segs| && PagesDisjoint(segs[..j])
      ensures PagesDisjoint(segs[..i])
    {
      FrontDisjoint(segs, i, j);
    }
    assert segs[..|segs|] == segs;
    if !PagesDisjoint(segs) { var k := FindUnplaced(segs); }
  }

  lemma {:induction false} FindUnplaced(segs: seq<Segment>) returns (k: nat)
    requires !PagesDisjoint(segs)
    ensures FirstUnplaced(segs, k)
  {
    hide PagesDisjoint;
    NothingPlaced();
    var front := segs[..|segs| - 1];
    if PagesDisjoint(front) {
      k := |front|;
      assert segs[..k + 1] == segs;
    } else {
      k := FindUnplaced(front);
      assert segs[..k] == front[..k] && segs[..k + 1] == front[..k + 1];
    }
  }

  /** A mapping that fails names the first page of that segment: an overlap if it collides with an
      earlier one, else the engine refuses. */
  lemma {:induction false} MappingStopsAt(segs: seq<Segment>, k: nat)
    requires AllValid(segs) && FirstUnplaced(segs, k)
    ensures MapImage(EMPTY_SPACE, segs).1 ==
            Err(Map(PageStart(segs[k]), FaultOf(PageRange(segs[k]), PageRanges(segs[..k]))))
  {
    hide Placed, PagesDisjoint, MapImage, MapSegment, PageRange, ValidSegment, FaultOf, ApartFromAll;
    var front, s := segs[..k], segs[k];
    assert segs[..k + 1] == front + [s] && s in segs;
    MapsIffPagesDisjoint(front);
    PagesDisjointPush(front, s);
    SegmentGoesOn(front, MapImage(EMPTY_SPACE, front).0, s);
    MapImageNext(EMPTY_SPACE, segs, k);
    MapImageStops(EMPTY_SPACE, segs, k + 1);
  }

  lemma {:induction false} FrontDisjoint(segs: seq<Segment>, i: nat, j: nat)
    requires i <= j <= |segs| && PagesDisjoint(segs[..j])
    ensures PagesDisjoint(segs[..i])
  {
    hide PageRange;
    assert forall k | 0 <= k < i :: segs[..i][k] == segs[..j][k];
  }

  lemma {:induction false} NothingPlaced()
    ensures Placed([], EMPTY_SPACE) && PagesDisjoint([])
  {
  }

  /** End to end: after a load and a mapping into a fresh space that both succeed, the guest byte at
      `vaddr + i` is the image byte at `offset + i` for `i < filesz`, with the segment's permissions;
      every other mapped byte is zero, and nothing but whole pages of the segments is mapped. */
  lemma {:induction false} LoadThenMap(image: seq<u8>, parsed: Option<ParsedElf>, elf: LoadedElf)
    requires |image| <= ISIZE_MAX && Loads(image, parsed, Ok(elf))
    ensures AllValid(elf.segments)
    ensures MapImage(EMPTY_SPACE, elf.segments).1.Ok? ==>
              GuestSeesImage(image, LoadHeaders(parsed.value.headers), MapImage(EMPTY_SPACE, elf.segments).0.mem)
  {
    hide Loads, PagesDisjoint, HoldsImage, GuestSeesImage, MapImage, ValidSegment;
    LoadsExactly(image, parsed, Ok(elf));
    SegmentsComeFromHeaders(image, parsed, elf);
    MapsIffPagesDisjoint(elf.segments);
    if MapImage(EMPTY_SPACE, elf.segments).1.Ok? {
      var loads := LoadHeaders(parsed.value.headers);
      SeenThroughHeaders(image, loads, MapImage(EMPTY_SPACE, elf.segments).0.mem);
    }
  }

  /** Guest memory in terms of the program headers and the image bytes. */
  ghost predicate GuestSeesImage(image: seq<u8>, loads: seq<Phdr>, m: Memory) {
    && (forall h | h in loads :: FileBytesSeen(image, h, m))
    && (forall a | a in m && (forall h | h in loads :: !InFile(h, a)) :: m[a].val == 0)
    && (forall a :: a in m <==> exists h :: h in loads && OnPageOf(h, a))
    && (forall h, a | h in loads && OnPageOf(h, a) :: a in m && m[a].perm == FlagPerm(h.flags))
  }

  ghost predicate FileBytesSeen(image: seq<u8>, h: Phdr, m: Memory) {
    && h.offset + h.filesz <= |image|
    && forall a | InFile(h, a) :: a in m && m[a] == Cell(image[h.offset + (a - h.vaddr)], FlagPerm(h.flags))
  }

  /** `a` holds a byte that the header takes from the file. */
  predicate InFile(h: Phdr, a: int) {
    h.vaddr <= a < h.vaddr + h.filesz
  }

  /** `a` lies on a page that the header's memory range touches, or starts on. */
  predicate OnPageOf(h: Phdr, a: int) {
    h.vaddr / PAGE_SIZE * PAGE_SIZE <= a < (h.vaddr + h.memsz + PAGE_SIZE - 1) / PAGE_SIZE * PAGE_SIZE
  }

  lemma {:induction false} SegmentsComeFromHeaders(image: seq<u8>, parsed: Option<ParsedElf>, elf: LoadedElf)
    requires Loads(image, parsed, Ok(elf))
    ensures parsed.Some? && AllAccepted(LoadHeaders(parsed.value.headers), |image|)
    ensures elf.segments == SegmentsOf(LoadHeaders(parsed.value.headers), image)
  {
  }

  lemma {:induction false} SeenThroughHeaders(image: seq<u8>, loads: seq<Phdr>, m: Memory)
    requires AllAccepted(loads, |image|) && HoldsImage(m, SegmentsOf(loads, image))
    ensures GuestSeesImage(image, loads, m)
  {
    hide PageRange, FlagPerm, Accepts, SegmentOf, OnPageOf, InFile, ByteOf, HoldsImage, FileBytesSeen, Covers;
    var segs := SegmentsOf(loads, image);
    forall h | h in loads
      ensures FileBytesSeen(image, h, m)
    {
      var k :| 0 <= k < |loads| && loads[k] == h;
      SegmentSeen(image, loads, m, k);
    }
    forall a | a in m && (forall h | h in loads :: !InFile(h, a))
      ensures m[a].val == 0
    {
      var k := OwnerOf(segs, m, a);
      assert loads[k] in loads;
      SegmentAt(image, loads, m, k, a);
    }
    forall h, a | h in loads && OnPageOf(h, a)
      ensures a in m && m[a].perm == FlagPerm(h.flags)
    {
      var k :| 0 <= k < |loads| && loads[k] == h;
      SegmentFacts(loads, k, image);
      SegmentAt(image, loads, m, k, a);
    }
    forall a
      ensures a in m <==> exists h :: h in loads && OnPageOf(h, a)
    {
      if a in m {
        var k := OwnerOf(segs, m, a);
        SegmentFacts(loads, k, image);
        assert loads[k] in loads && OnPageOf(loads[k], a);
      }
    }
  }

  lemma {:induction false} OwnerOf(segs: seq<Segment>, m: Memory, a: int) returns (k: nat)
    requires HoldsImage(m, segs) && a in m
    ensures k < |segs| && Covers(PageRange(segs[k]), a)
  {
    hide PageRange, Covers;
    var r :| r in PageRanges(segs) && Covers(r, a);
    k :| 0 <= k < |segs| && PageRanges(segs)[k] == r;
  }

  /** The cell at an address of segment `k`'s pages, by whether the file covers it. */
  lemma {:induction false} SegmentAt(image: seq<u8>, loads: seq<Phdr>, m: Memory, k: nat, a: int)
    requires AllAccepted(loads, |image|) && HoldsImage(m, SegmentsOf(loads, image))
    requires k < |loads| && Covers(PageRange(SegmentsOf(loads, image)[k]), a)
    ensures a in m && m[a].perm == FlagPerm(loads[k].flags)
    ensures !InFile(loads[k], a) ==> m[a].val == 0
    ensures InFile(loads[k], a) ==>
              loads[k].offset + loads[k].filesz <= |image| && m[a].val == image[loads[k].offset + (a - loads[k].vaddr)]
  {
    hide PageRange, FlagPerm, Accepts, SegmentOf, OnPageOf, Covers;
    SegmentFacts(loads, k, image);
    var s := SegmentsOf(loads, image)[k];
    assert m[a] == Cell(ByteOf(s, a), FlagPerm(s.flags));
  }

  lemma {:induction false} SegmentSeen(image: seq<u8>, loads: seq<Phdr>, m: Memory, k: nat)
    requires AllAccepted(loads, |image|) && HoldsImage(m, SegmentsOf(loads, image)) && k < |loads|
    ensures FileBytesSeen(image, loads[k], m)
  {
    hide PageRange, FlagPerm, Accepts, SegmentOf, OnPageOf, HoldsImage;
    SegmentFacts(loads, k, image);
    forall a | InFile(loads[k], a)
      ensures a in m && m[a] == Cell(image[loads[k].offset + (a - loads[k].vaddr)], FlagPerm(loads[k].flags))
    {
      SegmentAt(image, loads, m, k, a);
    }
  }

  lemma {:induction false} SegmentFacts(loads: seq<Phdr>, k: nat, image: seq<u8>)
    requires AllAccepted(loads, |image|) && k < |loads|
    ensures var s, h := SegmentsOf(loads, image)[k], loads[k];
      && s.vaddr == h.vaddr && s.filesz == h.filesz && s.flags == h.flags
      && h.offset + h.filesz <= |image|
      && (forall a | h.vaddr <= a < h.vaddr + h.filesz ::
            Covers(PageRange(s), a) && ByteOf(s, a) == image[h.offset + (a - h.vaddr)])
      && (forall a :: Covers(PageRange(s), a) <==> OnPageOf(h, a))
  {
    hide PageRange, Clashes;
    var h := loads[k];
    assert Accepts(loads[..k], h, |image|);
    var s := SegmentsOf(loads, image)[k];
    assert s == SegmentOf(h, image) && ValidSegment(s) && SegEnd(s) == h.vaddr + h.memsz;
    RoundingShape(s);
    RoundingIsDivision(s);
  }

  // ----- the loader's map and the mapper's map -----

  /** For a loaded image whose segments are not empty, sharing a page is the only thing the loader
      accepts and the mapper refuses; and when neither refuses, the i-th region of the loader's map
      lies inside the i-th region of the mapper's. */
  lemma {:induction false} TwoMapsAgree(segs: seq<Segment>)
    requires AllValid(segs) && AllInserted(SegRanges(segs)).Some?
    requires forall s | s in segs :: s.memsz > 0 && s.filesz <= s.memsz
    ensures MapImage(EMPTY_SPACE, segs).1.Ok? <==>
            forall i, j | 0 <= i < j < |segs| :: Apart(PageRange(segs[i]), PageRange(segs[j]))
    ensures MapImage(EMPTY_SPACE, segs).1.Ok? ==>
            Nested(AllInserted(SegRanges(segs)).value, MapImage(EMPTY_SPACE, segs).0.claimed)
  {
    hide PageRange, MapImage, AllInserted, Nested;
    MapsIffPagesDisjoint(segs);
    forall i | 0 <= i < |segs|
      ensures PageRange(segs[i]).size > 0
    {
      assert ValidSegment(segs[i]);
      RoundingShape(segs[i]);
    }
    if MapImage(EMPTY_SPACE, segs).1.Ok? { MapsNest(segs); }
  }

  lemma {:induction false} MapsNest(segs: seq<Segment>)
    requires AllValid(segs) && AllInserted(SegRanges(segs)).Some?
    requires forall s | s in segs :: s.memsz > 0 && s.filesz <= s.memsz
    requires PagesDisjoint(segs)
    ensures Nested(AllInserted(SegRanges(segs)).value, MapImage(EMPTY_SPACE, segs).0.claimed)
  {
    hide PageRange, PagesDisjoint, MapSegment, Inserted, Placed, Nested, InsertBy, ValidSegment, AllInserted, Apart;
    if segs == [] {
      NestsNothing(segs);
    } else {
      var front, s := segs[..|segs| - 1], segs[|segs| - 1];
      assert segs == front + [s] && s in segs;
      SegRangesPush(front, s);
      PagesDisjointPush(front, s);
      MapsNest(front);
      MapsIffPagesDisjoint(front);
      var inner, sp := AllInserted(SegRanges(front)).value, MapImage(EMPTY_SPACE, front).0;
      SegmentGoesOn(front, sp, s);
      NestsOneMore(front, inner, sp, s);
    }
  }

  lemma {:induction false} NestsNothing(segs: seq<Segment>)
    requires segs == []
    ensures AllInserted(SegRanges(segs)) == Some([]) && MapImage(EMPTY_SPACE, segs).0.claimed == []
    ensures Nested([], [])
  {
  }

  lemma {:induction false} SegRangesPush(front: seq<Segment>, s: Segment)
    ensures AllInserted(SegRanges(front + [s])) ==
            match AllInserted(SegRanges(front))
            case Some(rs) => Inserted(rs, s.vaddr, s.memsz, s.flags)
            case None => None
  {
    hide Inserted;
    var all := SegRanges(front + [s]);
    assert all[..|all| - 1] == SegRanges(front) && all[|all| - 1] == SegRange(s);
  }

  lemma {:induction false} NestsOneMore(front: seq<Segment>, inner: seq<Region>, sp: Space, s: Segment)
    requires AllValid(front) && ValidSegment(s) && s.memsz > 0 && s.filesz <= s.memsz
    requires AllInserted(SegRanges(front)) == Some(inner) && Placed(front, sp)
    requires Inserted(inner, s.vaddr, s.memsz, s.flags).Some?
    requires Nested(inner, sp.claimed) && ApartFromAll(PageRange(s), PageRanges(front))
    ensures Nested(Inserted(inner, s.vaddr, s.memsz, s.flags).value, InsertBy(BaseOf, PageRange(s), sp.claimed))
  {
    hide PageRange, Inserted, Placed, Nested, InsertBy, AllInserted, WellFormed, ApartFromAll;
    SegRangesFit(front);
    AllInsertedHolds(SegRanges(front));
    RoundingShape(s);
    PlacedFacts(front, sp);
    ApartSameEntries(PageRange(s), sp.claimed, PageRanges(front));
    WellFormedIsOrdered(inner);
    InsertedIffApart(inner, SegRange(s));
    InsertApart(inner, SegRange(s));
    NestedInsert(inner, sp.claimed, SegRange(s), PageRange(s));
  }

  lemma {:induction false} WellFormedIsOrdered(rs: seq<Region>)
    requires WellFormed(rs)
    ensures Ordered(rs)
  {
  }

  lemma {:induction false} SegRangesFit(segs: seq<Segment>)
    requires AllValid(segs)
    ensures forall r | r in SegRanges(segs) :: Fits(r)
  {
    forall i | 0 <= i < |segs|
      ensures Fits(SegRanges(segs)[i])
    {
      assert ValidSegment(segs[i]);
    }
  }

  // ----- the stack on top of the image -----

  const STACK_BASE: u64 := 0x7fff_fffd_e000
  const STACK_SIZE: u64 := 0x2_0000
  const STACK_PERM: Perm := Perm(true, true, false)

  /** Storing the zeroed initial frame at the top of the stack. */
  function InitialFrame(m: Memory, stackTop: u64): Memory {
    Store(m, WrapSub(stackTop, 0x20), Zeros(0x20))
  }

  /** Mapping a stack after an image succeeds if and only if it is whole pages and no segment has a page
      in it; the guest then finds the image undisturbed, and a stack of zeros on which the initial frame
      changes nothing. A refused stack is an overlap exactly if it collides. */
  lemma {:induction false} StackGoesOn(segs: seq<Segment>, sp: Space, stack: Region)
    requires Placed(segs, sp) && stack.prot == 0
    ensures var (t, r) := MapMemory(sp, stack.base, stack.size, STACK_PERM);
      var top := WrapAdd(stack.base, stack.size);
      && (r.Ok? <==> PageAligned(stack) && ApartFromAll(stack, PageRanges(segs)))
      && (!r.Ok? ==> r == Err(Map(stack.base, FaultOf(stack, PageRanges(segs)))))
      && (r.Ok? ==> forall a :: a in t.mem <==> a in sp.mem || Covers(stack, a))
      && (r.Ok? ==> forall a | a in sp.mem :: t.mem[a] == sp.mem[a])
      && (r.Ok? ==> forall a | Covers(stack, a) :: t.mem[a] == Cell(0, STACK_PERM))
      && (r.Ok? ==> Mapped(t.mem, WrapSub(top, 0x20), 0x20) && InitialFrame(t.mem, top) == t.mem)
  {
    hide Placed, Ordered, InsertBy, ApartFromAll, MapRange, FaultOf;
    PlacedFacts(segs, sp);
    RangeGoesOn(segs, sp, stack, STACK_PERM);
    FreeIffApart(segs, sp, stack);
    var (t, r) := MapMemory(sp, stack.base, stack.size, STACK_PERM);
    if r.Ok? {
      assert t.mem == MapZeroed(sp.mem, stack.base, stack.size, STACK_PERM);
      FrameIsZero(t.mem, stack);
    } else {
      RangeFault(segs, sp, stack, STACK_PERM);
    }
  }

  lemma {:induction false} FrameIsZero(m: Memory, stack: Region)
    requires PageAligned(stack)
    requires forall a | stack.base <= a < stack.base + stack.size :: a in m && m[a] == Cell(0, STACK_PERM)
    ensures var top := WrapAdd(stack.base, stack.size);
      Mapped(m, WrapSub(top, 0x20), 0x20) && InitialFrame(m, top) == m
  {
  }
}

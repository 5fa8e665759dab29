/** Mapping an image into the engine: page rounding, and the three views a virtual CPU keeps of its
    guest address space. */
module AddressSpace {
  import opened Machine
  import opened Mmap
  import opened Loader
  import opened Engine

  datatype MapFault = Overlap | EngineRefused | WriteRefused
  datatype ExecFault = DispatchFailed | EngineFault

  datatype VcpuError = Map(base: u64, fault: MapFault) | RegOp | Exec(execFault: ExecFault)

  // ----- page rounding -----

  function PageStart(s: Segment): u64 {
    MaskRoundsDown(s.vaddr);
    BitAnd(s.vaddr, BitNot(PAGE_SIZE - 1))
  }

  function SegEnd(s: Segment): u64 {
    Max(WrapAdd(s.vaddr, s.memsz), WrapAdd(s.vaddr, s.filesz))
  }

  function PageEnd(s: Segment): u64 {
    var last := WrapSub(WrapAdd(SegEnd(s), PAGE_SIZE), 1);
    MaskRoundsDown(last);
    BitAnd(last, BitNot(PAGE_SIZE - 1))
  }

  /** The pages a segment is mapped on. */
  function PageRange(s: Segment): Region {
    Region(PageStart(s), WrapSub(PageEnd(s), PageStart(s)), s.flags)
  }

  /** The mask arithmetic as division: the start rounds down, the end rounds up. */
  lemma {:induction false} RoundingIsDivision(s: Segment)
    requires ValidSegment(s)
    ensures PageRange(s).base == s.vaddr / PAGE_SIZE * PAGE_SIZE
    ensures PageRange(s).base + PageRange(s).size == (SegEnd(s) + PAGE_SIZE - 1) / PAGE_SIZE * PAGE_SIZE
  {
    hide BitAnd;
    var end := SegEnd(s);
    var last := WrapSub(WrapAdd(end, PAGE_SIZE), 1);
    MaskRoundsDown(s.vaddr);
    MaskRoundsDown(last);
    if end + PAGE_SIZE - 1 < WORD {
      assert last == end + PAGE_SIZE - 1;
    } else {
      TopRoundsUp(end);
      assert last < PAGE_SIZE && PAGE_SIZE < s.vaddr;
    }
  }

  lemma {:induction false} TopRoundsUp(x: u64)
    requires x + PAGE_SIZE - 1 >= WORD
    ensures (x + PAGE_SIZE - 1) / PAGE_SIZE * PAGE_SIZE == WORD
  {
  }

  /** The page range is the least page-aligned range that contains a nonempty segment. */
  lemma {:induction false} RoundingIsTight(s: Segment)
    requires ValidSegment(s) && s.vaddr < SegEnd(s)
    ensures var p := PageRange(s);
      && p.base % PAGE_SIZE == 0 && p.size % PAGE_SIZE == 0
      && p.base <= s.vaddr && SegEnd(s) <= p.base + p.size <= WORD
      && forall lo, hi | lo % PAGE_SIZE == 0 && hi % PAGE_SIZE == 0 && lo <= s.vaddr && SegEnd(s) <= hi ::
           lo <= p.base && p.base + p.size <= hi
  {
    RoundingShape(s);
    forall lo, hi | lo % PAGE_SIZE == 0 && hi % PAGE_SIZE == 0 && lo <= s.vaddr && SegEnd(s) <= hi
      ensures lo <= PageRange(s).base && PageRange(s).base + PageRange(s).size <= hi
    {
      RoundingIsLeast(s, lo, hi);
    }
  }

  lemma {:induction false} RoundingIsLeast(s: Segment, lo: int, hi: int)
    requires ValidSegment(s)
    requires lo % PAGE_SIZE == 0 && hi % PAGE_SIZE == 0 && lo <= s.vaddr && SegEnd(s) <= hi
    ensures lo <= PageRange(s).base && PageRange(s).base + PageRange(s).size <= hi
  {
    hide PageRange, SegEnd;
    RoundingIsDivision(s);
    var i, j := lo / PAGE_SIZE, hi / PAGE_SIZE;
    assert lo == i * PAGE_SIZE && hi == j * PAGE_SIZE;
  }

  /** What the engine needs of a page range. */
  lemma {:induction false} RoundingShape(s: Segment)
    requires ValidSegment(s)
    ensures var p := PageRange(s);
      && p.base % PAGE_SIZE == 0 && p.size % PAGE_SIZE == 0
      && p.base <= s.vaddr && SegEnd(s) <= p.base + p.size <= WORD
      && (s.vaddr < SegEnd(s) ==> p.size > 0)
  {
    hide PageRange;
    RoundingIsDivision(s);
    var i, j := s.vaddr / PAGE_SIZE, (SegEnd(s) + PAGE_SIZE - 1) / PAGE_SIZE;
    RoundUpStays(SegEnd(s));
    assert PageRange(s).size == (j - i) * PAGE_SIZE;
  }

  /** A segment has no page at all exactly when it is empty and starts on a page boundary. */
  lemma {:induction false} NoPageIff(s: Segment)
    requires ValidSegment(s)
    ensures PageRange(s).size == 0 <==> s.vaddr == SegEnd(s) && s.vaddr % PAGE_SIZE == 0
  {
    hide PageRange;
    RoundingIsDivision(s);
    RoundingShape(s);
    var i, j := s.vaddr / PAGE_SIZE, (SegEnd(s) + PAGE_SIZE - 1) / PAGE_SIZE;
    assert PageRange(s).size == (j - i) * PAGE_SIZE;
  }

  lemma {:induction false} RoundUpStays(x: u64)
    ensures x <= (x + PAGE_SIZE - 1) / PAGE_SIZE * PAGE_SIZE <= WORD
  {
  }

  // ----- mapping calls on the three views -----

  /** The claimed ranges (`map`), the ranges reported as mapped (`regions`), and the engine memory. */
  datatype Space = Space(claimed: seq<Region>, mapped: seq<Region>, mem: Memory)

  const EMPTY_SPACE: Space := Space([], [], map[])

  function PermOf(flags: u32): Perm {
    Perm(BitAnd(flags, 4) != 0, BitAnd(flags, 2) != 0, BitAnd(flags, 1) != 0)
  }

  /** What segment flags ask for: 4 to read, 2 to write, 1 to execute. */
  function FlagPerm(flags: u32): Perm {
    Perm(flags / 4 % 2 == 1, flags / 2 % 2 == 1, flags % 2 == 1)
  }

  /** The masks pick the three low bits of the flags. */
  lemma {:induction false} PermOfBits(flags: u32)
    ensures PermOf(flags) == Perm(flags / 4 % 2 == 1, flags / 2 % 2 == 1, flags % 2 == 1) == FlagPerm(flags)
  {
    hide BitAnd;
    AndEven(flags, 2);
    AndEven(flags / 2, 1);
    AndOdd(flags / 2 / 2, 0);
    AndEven(flags, 1);
    AndOdd(flags / 2, 0);
    AndOdd(flags, 0);
    AndNothing(flags);
    AndNothing(flags / 2);
    AndNothing(flags / 2 / 2);
  }

  lemma {:induction false} AndNothing(x: nat)
    ensures BitAnd(x / 2, 0) == 0
  {
  }

  function MapRange(sp: Space, base: u64, size: u64, prot: u32, perm: Perm): (Space, Outcome<(), VcpuError>) {
    match Inserted(sp.claimed, base, size, prot)
    case None => (sp, Err(Map(base, Overlap)))
    case Some(v) =>
      if Mappable(sp.mem, base, size) then (sp.(claimed := v, mem := MapZeroed(sp.mem, base, size, perm)), Ok(()))
      else (sp.(claimed := v), Err(Map(base, EngineRefused)))
  }

  function MapMemory(sp: Space, base: u64, size: u64, perm: Perm): (Space, Outcome<(), VcpuError>) {
    var (t, r) := MapRange(sp, base, size, 0, perm);
    if r.Ok? then (t.(mapped := t.mapped + [Region(base, size, 0)]), r) else (t, r)
  }

  /** One segment: claim its pages, map them, store the file bytes, report. Slicing off more file
      bytes than the segment's data holds aborts. */
  function MapSegment(sp: Space, s: Segment): (Space, Outcome<(), VcpuError>) {
    var p := PageRange(s);
    var (t, r) := MapRange(sp, p.base, p.size, p.prot, PermOf(s.flags));
    if !r.Ok? then (t, r)
    else if |s.data| < s.filesz then (t, Panic)
    else if !Mapped(t.mem, s.vaddr, |s.FileBytes()|) then (t, Err(Map(p.base, WriteRefused)))
    else (t.(mem := Store(t.mem, s.vaddr, s.FileBytes()), mapped := t.mapped + [p]), Ok(()))
  }

  predicate AllValid(segs: seq<Segment>) {
    forall s | s in segs :: ValidSegment(s)
  }

  /** Mapping the segments in order, up to the first failure. */
  function MapImage(sp: Space, segs: seq<Segment>): (Space, Outcome<(), VcpuError>) {
    if segs == [] then (sp, Ok(()))
    else
      var (t, r) := MapImage(sp, segs[..|segs| - 1]);
      if r.Ok? then MapSegment(t, segs[|segs| - 1]) else (t, r)
  }

  lemma {:induction false} MapImageStarts(sp: Space, segs: seq<Segment>)
    ensures MapImage(sp, segs[..0]) == (sp, Ok(()))
  {
  }

  lemma {:induction false} MapImageNext(sp: Space, segs: seq<Segment>, i: nat)
    requires i < |segs| && MapImage(sp, segs[..i]).1.Ok?
    ensures MapImage(sp, segs[..i + 1]) == MapSegment(MapImage(sp, segs[..i]).0, segs[i])
  {
    hide MapSegment;
    assert segs[..i + 1][..i] == segs[..i];
  }

  /** Nothing is mapped after a failure. */
  lemma {:induction false} MapImageStops(sp: Space, segs: seq<Segment>, i: nat)
    requires i <= |segs| && !MapImage(sp, segs[..i]).1.Ok?
    ensures MapImage(sp, segs) == MapImage(sp, segs[..i])
    decreases |segs|
  {
    hide MapSegment;
    if i == |segs| {
      assert segs[..i] == segs;
    } else {
      var front := segs[..|segs| - 1];
      assert front[..i] == segs[..i];
      MapImageStops(sp, front, i);
    }
  }

  // ----- what every mapping call keeps -----

  /** Reported regions are claimed with the same base, size and flags, are whole pages that share no
      address, and are mapped in the engine. */
  ghost predicate Consistent(sp: Space) {
    && (forall r | r in sp.mapped :: r in sp.claimed && PageAligned(r))
    && (forall i, j | 0 <= i < j < |sp.mapped| :: Apart(sp.mapped[i], sp.mapped[j]))
    && (forall a | Claims(sp.mapped, a) :: a in sp.mem)
  }

  predicate PageAligned(r: Region) {
    r.size > 0 && r.base % PAGE_SIZE == 0 && r.size % PAGE_SIZE == 0 && r.base + r.size <= WORD
  }

  /** The engine has mapped nothing but the reported regions. */
  ghost predicate Covered(sp: Space) {
    forall a | a in sp.mem :: Claims(sp.mapped, a)
  }

  /** Claimed and reported ranges are the same. */
  ghost predicate Agree(sp: Space) {
    multiset(sp.claimed) == multiset(sp.mapped)
  }

  /** The engine refused to map. */
  predicate IsMapRefusal(r: Outcome<(), VcpuError>) {
    r.Err? && r.error.Map? && r.error.fault == EngineRefused
  }

  /** The pages were mapped, but the file bytes could not be stored. */
  predicate IsStoreFailure(r: Outcome<(), VcpuError>) {
    r.Panic? || (r.Err? && r.error.Map? && r.error.fault == WriteRefused)
  }

  /** What a call that goes from `sp` to `t` with result `r` keeps. */
  ghost predicate Keeps(sp: Space, t: Space, r: Outcome<(), VcpuError>) {
    && Consistent(t)
    && (Covered(sp) && !IsStoreFailure(r) ==> Covered(t))
    && (Agree(sp) && !IsStoreFailure(r) && !IsMapRefusal(r) ==> Agree(t))
  }

  /** Reporting a claimed range whose pages were free keeps the views consistent. */
  lemma {:induction false} ReportKeeps(sp: Space, x: Region, perm: Perm, v: seq<Region>, mem: Memory)
    requires Consistent(sp) && Mappable(sp.mem, x.base, x.size)
    requires x in v && forall r | r in sp.claimed :: r in v
    requires mem.Keys == MapZeroed(sp.mem, x.base, x.size, perm).Keys
    ensures Consistent(Space(v, sp.mapped + [x], mem))
    ensures Covered(sp) ==> Covered(Space(v, sp.mapped + [x], mem))
  {
    var all := sp.mapped + [x];
    forall i, j | 0 <= i < j < |all|
      ensures Apart(all[i], all[j])
    {
      if j == |sp.mapped| { FreeMeansApart(sp, x, i); }
    }
    forall a
      ensures Claims(all, a) ==> a in mem
      ensures Covered(sp) && a in mem ==> Claims(all, a)
    {
      assert Covers(x, a) <==> x.base <= a < x.base + x.size;
      assert a in mem <==> a in MapZeroed(sp.mem, x.base, x.size, perm);
    }
  }

  lemma {:induction false} FreeMeansApart(sp: Space, x: Region, i: nat)
    requires Consistent(sp) && i < |sp.mapped|
    requires forall a | x.base <= a < x.base + x.size :: a !in sp.mem
    ensures Apart(sp.mapped[i], x) && Apart(x, sp.mapped[i])
  {
    var r := sp.mapped[i];
    forall a | Covers(r, a)
      ensures !Covers(x, a)
    {
      assert Claims(sp.mapped, a);
    }
    ApartMeansNoCommonAddress(r, x);
  }

  /** Claiming a range, or mapping pages in the engine, without reporting anything keeps the views
      consistent. */
  lemma {:induction false} ClaimKeeps(sp: Space, v: seq<Region>, mem: Memory)
    requires Consistent(sp) && (forall r | r in sp.claimed :: r in v) && sp.mem.Keys <= mem.Keys
    ensures Consistent(Space(v, sp.mapped, mem))
    ensures mem.Keys == sp.mem.Keys && Covered(sp) ==> Covered(Space(v, sp.mapped, mem))
  {
  }

  lemma {:induction false} MapMemoryKeeps(sp: Space, base: u64, size: u64, perm: Perm)
    requires Consistent(sp)
    ensures Keeps(sp, MapMemory(sp, base, size, perm).0, MapMemory(sp, base, size, perm).1)
    ensures !IsStoreFailure(MapMemory(sp, base, size, perm).1)
  {
    hide Inserted, Mappable, Consistent, Covered, MapZeroed;
    var x := Region(base, size, 0);
    match Inserted(sp.claimed, base, size, 0)
    case None =>
    case Some(v) =>
      InsertedEntries(sp.claimed, x);
      if Mappable(sp.mem, base, size) {
        MappableIsNonempty(sp.mem, base, size);
        ReportKeeps(sp, x, perm, v, MapZeroed(sp.mem, base, size, perm));
      } else {
        ClaimKeeps(sp, v, sp.mem);
      }
  }

  lemma {:induction false} MappableIsNonempty(m: Memory, start: u64, size: u64)
    requires Mappable(m, start, size)
    ensures size > 0
  {
  }

  /** The file bytes of a valid segment lie on its pages, so the engine never refuses them. */
  lemma {:induction false} FileBytesAreMapped(m: Memory, s: Segment, perm: Perm)
    requires ValidSegment(s)
    ensures s.filesz <= |s.data|
    ensures Mapped(MapZeroed(m, PageRange(s).base, PageRange(s).size, perm), s.vaddr, |s.FileBytes()|)
  {
    hide PageRange;
    RoundingShape(s);
  }

  lemma {:induction false} MapSegmentKeeps(sp: Space, s: Segment)
    requires Consistent(sp)
    ensures Keeps(sp, MapSegment(sp, s).0, MapSegment(sp, s).1)
    ensures ValidSegment(s) ==> !IsStoreFailure(MapSegment(sp, s).1)
  {
    hide Inserted, Mappable, Consistent, Covered, PageRange, Mapped, ValidSegment, MapZeroed, Store, PermOf;
    var x, perm := PageRange(s), PermOf(s.flags);
    match Inserted(sp.claimed, x.base, x.size, x.prot)
    case None =>
    case Some(v) =>
      InsertedEntries(sp.claimed, x);
      if Mappable(sp.mem, x.base, x.size) {
        MappableIsNonempty(sp.mem, x.base, x.size);
        var mem := MapZeroed(sp.mem, x.base, x.size, perm);
        if ValidSegment(s) { FileBytesAreMapped(sp.mem, s, perm); }
        ClaimKeeps(sp, v, mem);
        ReportKeeps(sp, x, perm, v, mem);
        if |s.data| >= s.filesz && Mapped(mem, s.vaddr, |s.FileBytes()|) {
          ReportKeeps(sp, x, perm, v, Store(mem, s.vaddr, s.FileBytes()));
        }
      } else {
        ClaimKeeps(sp, v, sp.mem);
      }
  }

  // ----- what one mapping call does -----

  function Added(x: Region): multiset<Region> {
    if x.size == 0 then multiset{} else multiset{x}
  }

  /** The cells after mapping `x`: zeros with its permissions on its range, and else as before. */
  ghost predicate MappedCells(m: Memory, x: Region, perm: Perm, n: Memory) {
    && (forall a :: Covers(x, a) ==> a !in m)
    && (forall a :: a in n <==> a in m || Covers(x, a))
    && (forall a | a in n :: n[a] == if Covers(x, a) then Cell(0, perm) else m[a])
  }

  /** A region is mapped and reported; or it is an overlap, and nothing changes; or the engine refuses
      it, and the claim alone stays behind. */
  lemma {:induction false} MapMemoryOutcome(sp: Space, base: u64, size: u64, perm: Perm)
    ensures var (t, r) := MapMemory(sp, base, size, perm);
      var x := Region(base, size, 0);
      && (r == Ok(()) || r == Err(Map(base, Overlap)) || r == Err(Map(base, EngineRefused)))
      && (r == Err(Map(base, Overlap)) ==> t == sp)
      && (r == Err(Map(base, EngineRefused)) ==>
            t.mapped == sp.mapped && t.mem == sp.mem && multiset(t.claimed) == multiset(sp.claimed) + Added(x))
      && (r.Ok? ==> t.mapped == sp.mapped + [x] && multiset(t.claimed) == multiset(sp.claimed) + multiset{x})
      && (r.Ok? ==> PageAligned(x) && MappedCells(sp.mem, x, perm, t.mem))
  {
    hide MapRange, MappedCells, PageAligned;
    MapRangeOutcome(sp, base, size, 0, perm);
  }

  lemma {:induction false} MapRangeOutcome(sp: Space, base: u64, size: u64, prot: u32, perm: Perm)
    ensures var (t, r) := MapRange(sp, base, size, prot, perm);
      var x := Region(base, size, prot);
      && t.mapped == sp.mapped
      && (r == Ok(()) || r == Err(Map(base, Overlap)) || r == Err(Map(base, EngineRefused)))
      && (r == Err(Map(base, Overlap)) <==> Inserted(sp.claimed, base, size, prot).None?)
      && (r == Err(Map(base, Overlap)) ==> t == sp)
      && (r == Err(Map(base, EngineRefused)) ==>
            && Inserted(sp.claimed, base, size, prot) == Some(t.claimed) && !Mappable(sp.mem, base, size)
            && t.mem == sp.mem && multiset(t.claimed) == multiset(sp.claimed) + Added(x))
      && (r.Ok? ==> Mappable(sp.mem, base, size) && PageAligned(x) && MappedCells(sp.mem, x, perm, t.mem))
      && (r.Ok? ==> multiset(t.claimed) == multiset(sp.claimed) + multiset{x})
  {
    hide Inserted, MappedCells, MapZeroed, Mappable;
    InsertedCounts(sp.claimed, base, size, prot);
    if Mappable(sp.mem, base, size) { ZeroedCells(sp.mem, Region(base, size, prot), perm); }
  }

  lemma {:induction false} ZeroedCells(m: Memory, x: Region, perm: Perm)
    requires Mappable(m, x.base, x.size)
    ensures PageAligned(x) && MappedCells(m, x, perm, MapZeroed(m, x.base, x.size, perm))
  {
    hide MapZeroed;
  }

  lemma {:induction false} InsertedCounts(rs: seq<Region>, base: u64, size: u64, prot: u32)
    ensures var v := Inserted(rs, base, size, prot);
      v.Some? ==> multiset(v.value) == multiset(rs) + Added(Region(base, size, prot))
  {
  }

  /** What the engine refused once stays claimed: the same call again is an overlap if and only if the
      range ends below the top of the address space; otherwise the engine refuses it again. */
  lemma {:induction false} RetryIsOverlapIff(sp: Space, base: u64, size: u64, perm: Perm)
    requires size > 0 && MapMemory(sp, base, size, perm).1 == Err(Map(base, EngineRefused))
    ensures var (t, r) := MapMemory(MapMemory(sp, base, size, perm).0, base, size, perm);
      && (r == Err(Map(base, Overlap)) <==> base + size < WORD)
      && (r == Err(Map(base, EngineRefused)) <==> base + size >= WORD)
  {
    hide MapRange, Inserted, Mappable;
    MapRangeOutcome(sp, base, size, 0, perm);
    var t := MapMemory(sp, base, size, perm).0;
    MapRangeOutcome(t, base, size, 0, perm);
    ClaimedAgainIff(sp.claimed, t.claimed, Region(base, size, 0));
  }

  /** Any segment, malformed or not: it is mapped with the permissions of its flags, its file bytes and
      zeros; or the claim, or the claim and the pages, are left behind by a failure. */
  lemma {:induction false} MapSegmentOutcome(sp: Space, s: Segment)
    ensures var (t, r) := MapSegment(sp, s);
      var p := PageRange(s);
      && (r == Err(Map(p.base, Overlap)) ==> t == sp)
      && (r == Err(Map(p.base, EngineRefused)) ==>
            t.mapped == sp.mapped && t.mem == sp.mem && multiset(t.claimed) == multiset(sp.claimed) + Added(p))
      && (IsStoreFailure(r) ==> t.mapped == sp.mapped && multiset(t.claimed) == multiset(sp.claimed) + multiset{p}
                                && MappedCells(sp.mem, p, FlagPerm(s.flags), t.mem))
      && (r.Panic? ==> |s.data| < s.filesz)
      && (r.Err? && r.error != Map(p.base, Overlap) && r.error != Map(p.base, EngineRefused) ==>
            r.error == Map(p.base, WriteRefused) && |s.data| >= s.filesz && !Mapped(t.mem, s.vaddr, s.filesz))
      && (r.Ok? ==> t.mapped == sp.mapped + [p] && multiset(t.claimed) == multiset(sp.claimed) + multiset{p})
      && (r.Ok? ==> SegmentCells(sp.mem, s, t.mem))
  {
    hide MapRange, Store, PermOf, FlagPerm, PageRange, Inserted, Mapped, Mappable, PageAligned, MappedCells,
         SegmentCells;
    var p := PageRange(s);
    PermOfBits(s.flags);
    var (t, r) := MapRange(sp, p.base, p.size, p.prot, PermOf(s.flags));
    MapRangeOutcome(sp, p.base, p.size, p.prot, PermOf(s.flags));
    if r.Ok? && |s.data| >= s.filesz { StoredCells(sp.mem, s, t.mem); }
  }

  lemma {:induction false} StoredCells(m: Memory, s: Segment, n: Memory)
    requires MappedCells(m, PageRange(s), FlagPerm(s.flags), n) && |s.data| >= s.filesz
    ensures SegmentCells(m, s, Store(n, s.vaddr, s.FileBytes()))
  {
    hide FlagPerm, PageRange, Store;
  }

  /** The cells after mapping a segment: its pages are new, and have its permissions; what the file has
      bytes for is stored, and the rest of the pages is zero. */
  ghost predicate SegmentCells(m: Memory, s: Segment, n: Memory) {
    var p := PageRange(s);
    && (forall a :: Covers(p, a) ==> a !in m)
    && (forall a :: a in n <==> a in m || Covers(p, a))
    && (forall a | a in n :: n[a].perm == if Covers(p, a) then FlagPerm(s.flags) else m[a].perm)
    && (forall a | a in n :: n[a].val == if s.vaddr <= a < s.vaddr + s.filesz && a - s.vaddr < |s.data|
                                         then s.data[a - s.vaddr] else if Covers(p, a) then 0 else m[a].val)
  }

  /** Every page of the segments has the permissions of its segment's flags. */
  ghost predicate PagesFlagged(segs: seq<Segment>, m: Memory) {
    forall s, a | s in segs && Covers(PageRange(s), a) :: a in m && m[a].perm == FlagPerm(s.flags)
  }

  ghost predicate PermsKept(m: Memory, n: Memory) {
    forall a | a in m :: a in n && n[a].perm == m[a].perm
  }

  /** After a whole image is mapped, onto whatever was there, every page has the permissions of its
      segment's flags, and what was mapped before has kept its own. */
  lemma {:induction false} MapImagePerms(sp: Space, segs: seq<Segment>)
    ensures var (t, r) := MapImage(sp, segs);
      r.Ok? ==> PermsKept(sp.mem, t.mem) && PagesFlagged(segs, t.mem)
  {
    hide MapSegment, PermsKept, PagesFlagged, SegmentCells, MappedCells;
    NoPages(sp.mem);
    if segs != [] {
      var front, s := segs[..|segs| - 1], segs[|segs| - 1];
      assert segs == front + [s];
      MapImagePerms(sp, front);
      var mid := MapImage(sp, front).0;
      MapSegmentOutcome(mid, s);
      if MapImage(sp, segs).1.Ok? {
        var t := MapSegment(mid, s).0;
        PagesFlaggedPush(front, s, mid.mem, t.mem);
        PermsKeptTwice(sp.mem, mid.mem, t.mem);
      }
    }
  }

  lemma {:induction false} NoPages(m: Memory)
    ensures PermsKept(m, m) && PagesFlagged([], m)
  {
  }

  lemma {:induction false} PermsKeptTwice(m: Memory, n: Memory, o: Memory)
    ensures PermsKept(m, n) && PermsKept(n, o) ==> PermsKept(m, o)
  {
  }

  lemma {:induction false} PagesFlaggedPush(front: seq<Segment>, s: Segment, m: Memory, n: Memory)
    requires PagesFlagged(front, m) && SegmentCells(m, s, n)
    ensures PagesFlagged(front + [s], n) && PermsKept(m, n)
  {
    hide PageRange, FlagPerm, Covers;
    forall x, a | x in front + [s] && Covers(PageRange(x), a)
      ensures a in n && n[a].perm == FlagPerm(x.flags)
    {
      assert Covers(PageRange(s), a) ==> a !in m;
      if x == s { assert a in n; } else { assert x in front; }
    }
  }

  lemma {:induction false} PageRangeFlags(s: Segment)
    ensures PageRange(s).prot == s.flags
  {
  }

  lemma {:induction false} MapImageKeeps(sp: Space, segs: seq<Segment>)
    requires Consistent(sp)
    ensures Keeps(sp, MapImage(sp, segs).0, MapImage(sp, segs).1)
    ensures AllValid(segs) ==> !IsStoreFailure(MapImage(sp, segs).1)
  {
    hide Consistent, MapSegment, ValidSegment, Agree, Covered;
    if segs != [] {
      var front, s := segs[..|segs| - 1], segs[|segs| - 1];
      MapImageKeeps(sp, front);
      if MapImage(sp, front).1.Ok? {
        MapSegmentKeeps(MapImage(sp, front).0, s);
      }
    }
  }

  // ----- every sequence of mapping calls -----

  datatype MapCall = ImageCall(segs: seq<Segment>) | MemoryCall(base: u64, size: u64, perm: Perm)

  function MapOne(sp: Space, c: MapCall): (Space, Outcome<(), VcpuError>) {
    match c
    case ImageCall(segs) => MapImage(sp, segs)
    case MemoryCall(base, size, perm) => MapMemory(sp, base, size, perm)
  }

  /** The views after some calls; whether the engine accepted every mapping; and whether every
      segment's file bytes could be stored. */
  datatype History = History(space: Space, accepted: bool, stored: bool)

  function AfterMapping(calls: seq<MapCall>): History {
    if calls == [] then History(EMPTY_SPACE, true, true)
    else
      var h := AfterMapping(calls[..|calls| - 1]);
      var (t, r) := MapOne(h.space, calls[|calls| - 1]);
      History(t, h.accepted && !IsMapRefusal(r), h.stored && !IsStoreFailure(r))
  }

  /** Bookkeeping over every sequence of mapping calls, failures and malformed segments included. */
  lemma {:induction false} AnyMappingIsConsistent(calls: seq<MapCall>)
    ensures var h := AfterMapping(calls);
      && Consistent(h.space)
      && (h.stored ==> Covered(h.space))
      && (h.stored && h.accepted ==> Agree(h.space))
    ensures (forall c | c in calls && c.ImageCall? :: AllValid(c.segs)) ==> AfterMapping(calls).stored
  {
    hide Consistent, Covered, Agree, MapImage, MapMemory, AllValid;
    if calls == [] {
      EmptyIsConsistent();
    } else {
      var front, c := calls[..|calls| - 1], calls[|calls| - 1];
      assert c in calls && forall x | x in front :: x in calls;
      AnyMappingIsConsistent(front);
      var sp := AfterMapping(front).space;
      match c
      case ImageCall(segs) => MapImageKeeps(sp, segs);
      case MemoryCall(base, size, perm) => MapMemoryKeeps(sp, base, size, perm);
    }
  }

  lemma {:induction false} EmptyIsConsistent()
    ensures Consistent(EMPTY_SPACE) && Covered(EMPTY_SPACE) && Agree(EMPTY_SPACE)
  {
  }
}

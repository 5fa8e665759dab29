/** Turning parsed ELF program headers into loadable segments. */
module Loader {
  import opened Machine
  import opened Mmap
  import opened Sorting

  const PT_LOAD: u32 := 1
  const ET_EXEC: u32 := 2
  const ET_DYN: u32 := 3
  const EM_X86_64: u32 := 62

  /** A program header, after parsing. */
  datatype Phdr = Phdr(kind: u32, flags: u32, offset: u64, vaddr: u64, filesz: u64, memsz: u64, align: u64)

  /** What the ELF parser hands over. */
  datatype ParsedElf = ParsedElf(is64: bool, machine: u32, kind: u32, entry: u64, headers: seq<Phdr>)

  datatype Segment = Segment(vaddr: u64, memsz: u64, filesz: u64, data: seq<u8>, flags: u32, align: u64) {
    function FileBytes(): seq<u8>
      requires filesz <= |data|
    {
      data[..filesz]
    }
  }

  datatype LoadedElf = LoadedElf(entry: u64, segments: seq<Segment>, isPie: bool)

  datatype PhdrFault = Unparsable | AddressOverflow | NoLoadSegments
  datatype FileFault = RangeOverflow | RangeExceedsImage(offset: u64, fileEnd: u64, imageLen: nat)

  datatype ElfError =
    | NotElf
    | UnsupportedFormat
    | UnsupportedMachine
    | UnsupportedType(found: u32)
    | BadPhdr(phdrFault: PhdrFault)
    | Truncated(fileFault: FileFault)
    | SegmentOverlap(vaddr: u64, other: u64)

  predicate HasMagic(image: seq<u8>) {
    |image| >= 4 && image[..4] == [0x7f, 0x45, 0x4c, 0x46]
  }

  /** The `PT_LOAD` headers, in order. */
  function LoadHeaders(headers: seq<Phdr>): seq<Phdr> {
    if headers == [] then []
    else
      var h := headers[|headers| - 1];
      LoadHeaders(headers[..|headers| - 1]) + if h.kind == PT_LOAD then [h] else []
  }

  /** The guest range a header asks for. */
  function Range(h: Phdr): Region {
    Region(h.vaddr, h.memsz, h.flags)
  }

  function Ranges(loads: seq<Phdr>): (rs: seq<Region>)
    ensures |rs| == |loads|
  {
    seq(|loads|, i requires 0 <= i < |loads| => Range(loads[i]))
  }

  // ----- when a header is accepted -----

  predicate Clashes(earlier: seq<Phdr>, h: Phdr) {
    exists e | e in earlier :: !Apart(Range(h), Range(e))
  }

  /** The header's bytes are in the image, and its memory image can hold them. */
  predicate FileFits(h: Phdr, imageLen: nat) {
    h.offset + h.filesz < WORD && h.offset + h.filesz <= imageLen
  }

  predicate Copies(h: Phdr) {
    h.filesz <= h.memsz <= ISIZE_MAX
  }

  predicate Accepts(earlier: seq<Phdr>, h: Phdr, imageLen: nat) {
    Fits(Range(h)) && !Clashes(earlier, h) && FileFits(h, imageLen) && Copies(h)
  }

  /** The segment an overlap error names: the earlier one that contains the start address, or 0. */
  ghost predicate Blames(earlier: seq<Phdr>, h: Phdr, other: u64) {
    if exists e :: e in earlier && Covers(Range(e), h.vaddr)
    then exists e :: e in earlier && Covers(Range(e), h.vaddr) && other == e.vaddr
    else other == 0
  }

  /** How a header that is not accepted ends the load, in the order of the checks. */
  ghost predicate Refuses(earlier: seq<Phdr>, h: Phdr, imageLen: nat, r: Outcome<LoadedElf, ElfError>) {
    if !Fits(Range(h)) then r == Err(BadPhdr(AddressOverflow))
    else if Clashes(earlier, h) then
      r.Err? && r.error.SegmentOverlap? && r.error.vaddr == h.vaddr && Blames(earlier, h, r.error.other)
    else if h.offset + h.filesz >= WORD then r == Err(Truncated(RangeOverflow))
    else if h.offset + h.filesz > imageLen then
      r == Err(Truncated(RangeExceedsImage(h.offset, h.offset + h.filesz, imageLen)))
    else !Copies(h) && r.Panic?
  }

  /** File content first, then zeros up to the size in memory. */
  function SegmentOf(h: Phdr, image: seq<u8>): Segment
    requires FileFits(h, |image|) && Copies(h)
  {
    Segment(h.vaddr, h.memsz, h.filesz,
            image[h.offset..h.offset + h.filesz] + Zeros(h.memsz - h.filesz), h.flags, h.align)
  }

  predicate AllAccepted(loads: seq<Phdr>, imageLen: nat) {
    forall k | 0 <= k < |loads| :: Accepts(loads[..k], loads[k], imageLen)
  }

  function SegmentsOf(loads: seq<Phdr>, image: seq<u8>): (segs: seq<Segment>)
    requires AllAccepted(loads, |image|)
    ensures |segs| == |loads|
  {
    seq(|loads|, k requires 0 <= k < |loads| => SegmentOf(loads[k], image))
  }

  /** A 64-bit x86-64 executable at a fixed address, which is all the loader takes. */
  predicate Supported(image: seq<u8>, parsed: Option<ParsedElf>) {
    && HasMagic(image) && parsed.Some?
    && parsed.value.is64 && parsed.value.machine == EM_X86_64 && parsed.value.kind == ET_EXEC
  }

  /** The checks before the program headers. */
  function Preamble(image: seq<u8>, parsed: Option<ParsedElf>): (e: Option<ElfError>)
    ensures e.None? <==> Supported(image, parsed)
    ensures e.None? ==> parsed.Some? && parsed.value.kind == ET_EXEC
    ensures e.Some? ==> !e.value.Truncated? && !e.value.SegmentOverlap?
    ensures e.Some? && e.value.BadPhdr? ==> e.value == BadPhdr(Unparsable)
  {
    if !HasMagic(image) then Some(NotElf)
    else if parsed.None? then Some(BadPhdr(Unparsable))
    else if !parsed.value.is64 then Some(UnsupportedFormat)
    else if parsed.value.machine != EM_X86_64 then Some(UnsupportedMachine)
    else if parsed.value.kind != ET_EXEC then Some(UnsupportedType(parsed.value.kind))
    else None
  }

  /** Header `k` is the first that is not accepted. */
  ghost predicate FirstRefused(loads: seq<Phdr>, imageLen: nat, k: nat) {
    k < |loads| && AllAccepted(loads[..k], imageLen) && !Accepts(loads[..k], loads[k], imageLen)
  }

  /** The whole behaviour of the loader, stated on the header list alone. */
  ghost predicate Loads(image: seq<u8>, parsed: Option<ParsedElf>, r: Outcome<LoadedElf, ElfError>) {
    if Preamble(image, parsed).Some? then r == Err(Preamble(image, parsed).value)
    else
      var loads := LoadHeaders(parsed.value.headers);
      if AllAccepted(loads, |image|) then
        r == if loads == [] then Err(BadPhdr(NoLoadSegments))
             else Ok(LoadedElf(parsed.value.entry, SegmentsOf(loads, image), false))
      else exists k: nat :: FirstRefused(loads, |image|, k) && Refuses(loads[..k], loads[k], |image|, r)
  }

  /** A segment the mapper can take: no end address wraps, no size is beyond an
      allocation, and the data holds the file bytes. */
  predicate ValidSegment(s: Segment) {
    s.vaddr + s.memsz < WORD && s.vaddr + s.filesz < WORD && s.memsz <= ISIZE_MAX && s.filesz <= |s.data| <= ISIZE_MAX
  }

  function SegRange(s: Segment): Region {
    Region(s.vaddr, s.memsz, s.flags)
  }

  function SegRanges(segs: seq<Segment>): (rs: seq<Region>)
    ensures |rs| == |segs|
  {
    seq(|segs|, i requires 0 <= i < |segs| => SegRange(segs[i]))
  }

  // ----- the loader -----

  method LoadElf(image: seq<u8>, parsed: Option<ParsedElf>) returns (r: Outcome<LoadedElf, ElfError>)
    requires |image| <= ISIZE_MAX
    ensures Loads(image, parsed, r)
    ensures r.Ok? ==> AllInserted(SegRanges(r.value.segments)).Some?
  {
    hide AllAccepted, Accepts, Refuses, AllInserted, Clashes, Inserted, Preamble, SegmentsOf, SegmentOf, HasMagic,
         SegRanges, Ranges, LoadHeaders, FirstRefused;
    var early := CheckPreamble(image, parsed);
    if early.Some? {
      return Err(early.value);
    }
    var elf := parsed.value;
    var isPie := elf.kind == ET_DYN;
    ghost var loads := LoadHeaders(elf.headers);
    var segments: seq<Segment> := [];
    var space := new MemoryMap();
    ghost var done: seq<Phdr> := [];
    var i := 0;
    StartsEmpty(elf.headers, image);
    while i < |elf.headers|
      invariant 0 <= i <= |elf.headers|
      invariant fresh(space)
      invariant done == LoadHeaders(elf.headers[..i])
      invariant AllAccepted(done, |image|) && segments == SegmentsOf(done, image)
      invariant AllInserted(Ranges(done)) == Some(space.regions)
    {
      var phdr := elf.headers[i];
      HeaderIsNext(elf.headers, i);
      i := i + 1;
      if phdr.kind == PT_LOAD {
        var step := LoadSegment(image, space, phdr, done);
        if !step.Ok? {
          r := if step.Err? then Err(step.error) else Panic;
          StopsHere(image, parsed, done, phdr, r);
          return r;
        }
        PushAccepted(done, phdr, image);
        segments := segments + [step.value];
        done := done + [phdr];
      }
    }
    AllRangesAgree(done, image);
    assert elf.headers[..i] == elf.headers;
    NothingRefused(image, parsed, isPie);
    if |segments| == 0 {
      return Err(BadPhdr(NoLoadSegments));
    }
    return Ok(LoadedElf(elf.entry, segments, isPie));
  }

  method CheckPreamble(image: seq<u8>, parsed: Option<ParsedElf>) returns (e: Option<ElfError>)
    ensures e == Preamble(image, parsed)
  {
    if |image| < 4 || image[..4] != [0x7f, 0x45, 0x4c, 0x46] {
      return Some(NotElf);
    }
    if parsed.None? {
      return Some(BadPhdr(Unparsable));
    }
    var elf := parsed.value;
    if !elf.is64 {
      return Some(UnsupportedFormat);
    }
    if elf.machine != EM_X86_64 {
      return Some(UnsupportedMachine);
    }
    var isPie := elf.kind == ET_DYN;
    if elf.kind != ET_EXEC {
      if isPie {
        return Some(UnsupportedType(elf.kind));
      }
      return Some(UnsupportedType(elf.kind));
    }
    return None;
  }

  /** One round of the header loop: claim the range, check the file range, copy the bytes. */
  method LoadSegment(image: seq<u8>, space: MemoryMap, phdr: Phdr, ghost done: seq<Phdr>)
    returns (r: Outcome<Segment, ElfError>)
    requires |image| <= ISIZE_MAX
    requires AllAccepted(done, |image|) && AllInserted(Ranges(done)) == Some(space.regions)
    modifies space
    ensures r.Ok? <==> Accepts(done, phdr, |image|)
    ensures r.Ok? ==> r.value == SegmentOf(phdr, image) && AllInserted(Ranges(done + [phdr])) == Some(space.regions)
    ensures !r.Ok? ==> Refuses(done, phdr, |image|, if r.Err? then Err(r.error) else Panic)
  {
    hide AllAccepted, AllInserted, Inserted, Clashes, Ranges, Blames;
    if phdr.vaddr + phdr.memsz >= WORD {
      return Err(BadPhdr(AddressOverflow));
    }
    var end := phdr.vaddr + phdr.memsz;
    ghost var before := space.regions;
    InsertVerdict(done, phdr, |image|, before);
    var claimed := space.Insert(phdr.vaddr, end - phdr.vaddr, phdr.flags);
    if claimed.Err? {
      var other := FindOther(space.regions, phdr.vaddr);
      BlameIsRight(done, phdr, |image|, before, other);
      return Err(SegmentOverlap(phdr.vaddr, other));
    }
    RangesPush(done, phdr);
    if phdr.offset + phdr.filesz >= WORD {
      return Err(Truncated(RangeOverflow));
    }
    var fileEnd := phdr.offset + phdr.filesz;
    if fileEnd > |image| {
      return Err(Truncated(RangeExceedsImage(phdr.offset, fileEnd, |image|)));
    }
    if phdr.memsz > ISIZE_MAX {
      return Panic;
    }
    var data := Zeros(phdr.memsz);
    var file := image[phdr.offset..fileEnd];
    if |file| > |data| {
      return Panic;
    }
    data := file + data[|file|..];
    assert data[|file|..] == Zeros(phdr.memsz - phdr.filesz);
    return Ok(Segment(phdr.vaddr, phdr.memsz, phdr.filesz, data, phdr.flags, phdr.align));
  }

  predicate Hit(r: Region, vaddr: u64) {
    r.Contains(vaddr) || vaddr == r.base
  }

  /** `other` is the base of the first region that is hit, or 0 if none is. */
  ghost predicate IsFirstHit(regions: seq<Region>, vaddr: u64, other: u64) {
    if exists r :: r in regions && Hit(r, vaddr)
    then exists i :: 0 <= i < |regions| && Hit(regions[i], vaddr) && other == regions[i].base
                     && forall j | 0 <= j < i :: !Hit(regions[j], vaddr)
    else other == 0
  }

  /** `find` over the claimed regions, in address order. */
  method FindOther(regions: seq<Region>, vaddr: u64) returns (other: u64)
    ensures IsFirstHit(regions, vaddr, other)
  {
    var i := 0;
    while i < |regions|
      invariant 0 <= i <= |regions|
      invariant forall j | 0 <= j < i :: !Hit(regions[j], vaddr)
    {
      if Hit(regions[i], vaddr) {
        return regions[i].base;
      }
      i := i + 1;
    }
    return 0;
  }

  // ----- the header list and the region vector say the same -----

  lemma {:induction false} RangesPush(done: seq<Phdr>, h: Phdr)
    ensures Ranges(done + [h]) == Ranges(done) + [Range(h)]
    ensures AllInserted(Ranges(done + [h])) ==
            match AllInserted(Ranges(done))
            case Some(rs) => Inserted(rs, h.vaddr, h.memsz, h.flags)
            case None => None
  {
  }

  lemma {:induction false} RangesFit(done: seq<Phdr>, imageLen: nat)
    requires AllAccepted(done, imageLen)
    ensures forall r | r in Ranges(done) :: Fits(r)
  {
  }

  /** The regions of the map are the nonempty ranges of the headers so far. */
  lemma {:induction false} RegionsAreRanges(done: seq<Phdr>, imageLen: nat, rs: seq<Region>)
    requires AllAccepted(done, imageLen) && AllInserted(Ranges(done)) == Some(rs)
    ensures WellFormed(rs)
    ensures forall e | e in done && e.memsz > 0 :: Range(e) in rs
    ensures forall r | r in rs :: r.size > 0 && exists e :: e in done && Range(e) == r
  {
    hide AllAccepted, AllInserted, WellFormed, Nonempty;
    RangesFit(done, imageLen);
    AllInsertedHolds(Ranges(done));
    forall r: Region
      ensures r in rs <==> r in Ranges(done) && r.size > 0
    {
      NonemptyCounts(Ranges(done), r);
      assert r in rs <==> r in multiset(rs);
      assert r in Ranges(done) <==> r in multiset(Ranges(done));
    }
    forall e | e in done && e.memsz > 0
      ensures Range(e) in rs
    {
      var i :| 0 <= i < |done| && done[i] == e;
      assert Ranges(done)[i] == Range(e);
    }
    forall r | r in rs
      ensures r.size > 0 && exists e :: e in done && Range(e) == r
    {
      var i :| 0 <= i < |done| && Ranges(done)[i] == r;
      assert done[i] in done && Range(done[i]) == r;
    }
  }

  /** The map accepts a header's range exactly when it clashes with no earlier header. */
  lemma {:induction false} InsertVerdict(done: seq<Phdr>, h: Phdr, imageLen: nat, rs: seq<Region>)
    requires AllAccepted(done, imageLen) && AllInserted(Ranges(done)) == Some(rs) && Fits(Range(h))
    ensures Inserted(rs, h.vaddr, h.memsz, h.flags).Some? <==> !Clashes(done, h)
  {
    hide AllAccepted, AllInserted, SortBy, WellFormed;
    RegionsAreRanges(done, imageLen, rs);
    InsertedIffApart(rs, Range(h));
    assert forall e | e in done :: e.memsz > 0 || Apart(Range(h), Range(e));
  }

  lemma {:induction false} InsertedIffApart(rs: seq<Region>, x: Region)
    requires WellFormed(rs) && Fits(x)
    ensures Inserted(rs, x.base, x.size, x.prot).Some? <==> ApartFromAll(x, rs)
  {
  }

  lemma {:induction false} BlameIsRight(done: seq<Phdr>, h: Phdr, imageLen: nat, rs: seq<Region>, other: u64)
    requires AllAccepted(done, imageLen) && AllInserted(Ranges(done)) == Some(rs)
    requires IsFirstHit(rs, h.vaddr, other)
    ensures Blames(done, h, other)
  {
    hide AllAccepted, AllInserted, Ordered;
    RegionsAreRanges(done, imageLen, rs);
    forall r | r in rs
      ensures Hit(r, h.vaddr) <==> Covers(r, h.vaddr)
    {
      assert Fits(r);
    }
    if e :| e in done && Covers(Range(e), h.vaddr) {
      assert Range(e) in rs;
      assert Hit(Range(e), h.vaddr);
      var i :| 0 <= i < |rs| && Hit(rs[i], h.vaddr) && other == rs[i].base;
      var f :| f in done && Range(f) == rs[i];
    }
  }

  // ----- the header loop -----

  lemma {:induction false} StartsEmpty(headers: seq<Phdr>, image: seq<u8>)
    ensures LoadHeaders(headers[..0]) == []
    ensures AllAccepted([], |image|) && SegmentsOf([], image) == []
    ensures AllInserted(Ranges([])) == Some([])
  {
  }

  lemma {:induction false} HeaderIsNext(headers: seq<Phdr>, i: nat)
    requires i < |headers|
    ensures LoadHeaders(headers[..i + 1])
            == LoadHeaders(headers[..i]) + if headers[i].kind == PT_LOAD then [headers[i]] else []
    ensures LoadHeaders(headers[..i + 1]) <= LoadHeaders(headers)
  {
    assert headers[..i + 1][..i] == headers[..i];
    LoadHeadersPrefix(headers, i + 1);
  }

  lemma {:induction false} LoadHeadersPrefix(headers: seq<Phdr>, i: nat)
    requires i <= |headers|
    ensures LoadHeaders(headers[..i]) <= LoadHeaders(headers)
    decreases |headers|
  {
    if i < |headers| {
      var front := headers[..|headers| - 1];
      LoadHeadersPrefix(front, i);
      assert front[..i] == headers[..i];
    } else {
      assert headers[..i] == headers;
    }
  }

  lemma {:induction false} PushAccepted(done: seq<Phdr>, h: Phdr, image: seq<u8>)
    requires AllAccepted(done, |image|) && Accepts(done, h, |image|)
    ensures AllAccepted(done + [h], |image|)
    ensures SegmentsOf(done + [h], image) == SegmentsOf(done, image) + [SegmentOf(h, image)]
  {
  }

  lemma {:induction false} StopsHere(image: seq<u8>, parsed: Option<ParsedElf>, done: seq<Phdr>, h: Phdr,
                                     r: Outcome<LoadedElf, ElfError>)
    requires Preamble(image, parsed).None? && done + [h] <= LoadHeaders(parsed.value.headers)
    requires AllAccepted(done, |image|) && !Accepts(done, h, |image|) && Refuses(done, h, |image|, r)
    ensures Loads(image, parsed, r)
  {
    hide Accepts, Refuses, LoadHeaders, Preamble;
    var loads := LoadHeaders(parsed.value.headers);
    var k := |done|;
    assert loads[..k] == done && loads[k] == h by {
      assert loads[..k + 1] == done + [h];
    }
    assert FirstRefused(loads, |image|, k);
    assert !AllAccepted(loads, |image|);
  }

  lemma {:induction false} NothingRefused(image: seq<u8>, parsed: Option<ParsedElf>, isPie: bool)
    requires Preamble(image, parsed).None? && AllAccepted(LoadHeaders(parsed.value.headers), |image|)
    requires isPie == (parsed.value.kind == ET_DYN)
    ensures var loads := LoadHeaders(parsed.value.headers);
      Loads(image, parsed,
            if |SegmentsOf(loads, image)| == 0 then Err(BadPhdr(NoLoadSegments))
            else Ok(LoadedElf(parsed.value.entry, SegmentsOf(loads, image), isPie)))
  {
  }

  lemma {:induction false} AllRangesAgree(loads: seq<Phdr>, image: seq<u8>)
    requires AllAccepted(loads, |image|)
    ensures SegRanges(SegmentsOf(loads, image)) == Ranges(loads)
  {
  }

  // ----- consequences -----

  /** The loader succeeds if and only if the file is of the one supported kind, there is a `PT_LOAD`
      header, and every one is accepted. The errors for a file of another kind are told apart by the
      first thing that is wrong with it. */
  lemma {:induction false} LoadsExactly(image: seq<u8>, parsed: Option<ParsedElf>, r: Outcome<LoadedElf, ElfError>)
    requires Loads(image, parsed, r)
    ensures r.Ok? <==>
            && Supported(image, parsed)
            && LoadHeaders(parsed.value.headers) != []
            && AllAccepted(LoadHeaders(parsed.value.headers), |image|)
    ensures r.Ok? ==> forall s | s in r.value.segments :: ValidSegment(s) && s.filesz <= s.memsz == |s.data|
    ensures r == Err(NotElf) <==> !HasMagic(image)
    ensures r == Err(BadPhdr(Unparsable)) <==> HasMagic(image) && parsed.None?
    ensures r == Err(UnsupportedFormat) <==> HasMagic(image) && parsed.Some? && !parsed.value.is64
    ensures r == Err(UnsupportedMachine) <==>
            HasMagic(image) && parsed.Some? && parsed.value.is64 && parsed.value.machine != EM_X86_64
    ensures forall found :: r == Err(UnsupportedType(found)) <==>
              && HasMagic(image) && parsed.Some? && parsed.value.is64 && parsed.value.machine == EM_X86_64
              && parsed.value.kind != ET_EXEC && found == parsed.value.kind
    ensures r == Err(BadPhdr(NoLoadSegments)) <==>
            Supported(image, parsed) && LoadHeaders(parsed.value.headers) == []
  {
    hide LoadHeaders, Clashes, HasMagic, AllAccepted, SegmentsOf;
    if r.Ok? { AcceptedAreValid(image, LoadHeaders(parsed.value.headers)); }
  }

  /** What a load gives: one segment per `PT_LOAD` header, in order, with the header's own fields, the
      file bytes it names, and zeros up to its size in memory. */
  lemma {:induction false} LoadedFields(image: seq<u8>, parsed: Option<ParsedElf>, elf: LoadedElf)
    requires Loads(image, parsed, Ok(elf))
    ensures parsed.Some? && elf.entry == parsed.value.entry && !elf.isPie
    ensures |elf.segments| == |LoadHeaders(parsed.value.headers)|
    ensures forall k | 0 <= k < |elf.segments| ::
              IsSegmentOf(elf.segments[k], LoadHeaders(parsed.value.headers)[k], image)
  {
    hide LoadHeaders, Refuses, Clashes, AllAccepted, SegmentOf, FileFits, Copies, IsSegmentOf;
    var loads := LoadHeaders(parsed.value.headers);
    LoadsExactly(image, parsed, Ok(elf));
    forall k | 0 <= k < |loads|
      ensures IsSegmentOf(elf.segments[k], loads[k], image)
    {
      AcceptedAt(loads, |image|, k);
      FieldsOfSegment(loads[k], image);
    }
  }

  /** Field by field: the segment that a header asks for. */
  ghost predicate IsSegmentOf(s: Segment, h: Phdr, image: seq<u8>) {
    && s.vaddr == h.vaddr && s.memsz == h.memsz && s.filesz == h.filesz && s.flags == h.flags && s.align == h.align
    && |s.data| == h.memsz && h.filesz <= h.memsz && h.offset + h.filesz <= |image|
    && forall i | 0 <= i < h.memsz :: s.data[i] == if i < h.filesz then image[h.offset + i] else 0
  }

  lemma {:induction false} FieldsOfSegment(h: Phdr, image: seq<u8>)
    requires FileFits(h, |image|) && Copies(h)
    ensures IsSegmentOf(SegmentOf(h, image), h, image)
  {
  }

  lemma {:induction false} AcceptedAt(loads: seq<Phdr>, imageLen: nat, k: nat)
    requires AllAccepted(loads, imageLen) && k < |loads|
    ensures Accepts(loads[..k], loads[k], imageLen)
  {
  }

  /** The `PT_LOAD` headers are those of type 1, in their order: picking them out of a concatenation is
      picking them out of its parts, and of one header. */
  lemma {:induction false} LoadHeadersSplit(front: seq<Phdr>, h: Phdr, back: seq<Phdr>)
    ensures LoadHeaders(front + [h] + back) ==
            LoadHeaders(front) + (if h.kind == 1 then [h] else []) + LoadHeaders(back)
  {
    hide LoadHeaders;
    if back == [] {
      PickLast(front, h);
      assert front + [h] + back == front + [h];
      PickNothing();
    } else {
      var init, last := back[..|back| - 1], back[|back| - 1];
      LoadHeadersSplit(front, h, init);
      PickLast(front + [h] + init, last);
      PickLast(init, last);
      assert back == init + [last] && front + [h] + back == front + [h] + init + [last];
    }
  }

  lemma {:induction false} PickNothing()
    ensures LoadHeaders([]) == []
  {
  }

  lemma {:induction false} PickLast(front: seq<Phdr>, h: Phdr)
    ensures LoadHeaders(front + [h]) == LoadHeaders(front) + if h.kind == 1 then [h] else []
  {
    assert (front + [h])[..|front|] == front;
  }

  /** Two headers ask for a common address. */
  ghost predicate Meets(g: Phdr, h: Phdr) {
    exists a :: Within(g, a) && Within(h, a)
  }

  predicate Within(h: Phdr, a: int) {
    h.vaddr <= a < h.vaddr + h.memsz
  }

  /** Whether all headers are accepted does not depend on their order: each fits on its own, and no two
      share an address. */
  lemma {:induction false} AllAcceptedIff(loads: seq<Phdr>, imageLen: nat)
    requires imageLen <= ISIZE_MAX
    ensures AllAccepted(loads, imageLen) <==>
            && (forall h | h in loads ::
                  && h.vaddr + h.memsz < 0x1_0000_0000_0000_0000
                  && h.offset + h.filesz <= imageLen
                  && h.filesz <= h.memsz <= 0x7fff_ffff_ffff_ffff)
            && (forall i, j | 0 <= i < j < |loads| :: !Meets(loads[i], loads[j]))
  {
    hide Meets, Range, Clashes;
    forall k | 0 <= k < |loads|
      ensures Clashes(loads[..k], loads[k]) <==> exists i | 0 <= i < k :: Meets(loads[i], loads[k])
    {
      ClashesIff(loads, k);
    }
    assert forall k | 0 <= k < |loads| :: loads[k] in loads;
    RangeIs();
  }

  lemma {:induction false} RangeIs()
    ensures forall h: Phdr :: Fits(Range(h)) <==> h.vaddr + h.memsz < 0x1_0000_0000_0000_0000
    ensures forall h: Phdr, a: int :: Covers(Range(h), a) <==> Within(h, a)
  {
  }

  lemma {:induction false} ClashesIff(loads: seq<Phdr>, k: nat)
    requires k < |loads|
    ensures Clashes(loads[..k], loads[k]) <==> exists i | 0 <= i < k :: Meets(loads[i], loads[k])
  {
    hide Range, Apart;
    RangeIs();
    forall i | 0 <= i < k
      ensures Meets(loads[i], loads[k]) <==> !Apart(Range(loads[k]), Range(loads[i]))
    {
      ApartMeansNoCommonAddress(Range(loads[k]), Range(loads[i]));
    }
    if Clashes(loads[..k], loads[k]) {
      var e :| e in loads[..k] && !Apart(Range(loads[k]), Range(e));
      var i :| 0 <= i < k && loads[..k][i] == e;
      assert Meets(loads[i], loads[k]);
    }
    if i :| 0 <= i < k && Meets(loads[i], loads[k]) {
      assert loads[i] in loads[..k];
    }
  }

  /** How a load ends at a header that is not accepted, for each check in turn. */
  lemma {:induction false} RefusedExactly(loads: seq<Phdr>, k: nat, imageLen: nat, r: Outcome<LoadedElf, ElfError>)
    requires k < |loads| && imageLen <= ISIZE_MAX
    requires !Accepts(loads[..k], loads[k], imageLen) && Refuses(loads[..k], loads[k], imageLen, r)
    ensures var h := loads[k];
      var wraps := h.vaddr + h.memsz >= 0x1_0000_0000_0000_0000;
      var meets := exists i | 0 <= i < k :: Meets(loads[i], h);
      var fileEnd := h.offset + h.filesz;
      && (r == Err(BadPhdr(AddressOverflow)) <==> wraps)
      && (r.Err? && r.error.SegmentOverlap? && r.error.vaddr == h.vaddr <==> !wraps && meets)
      && (r == Err(Truncated(RangeOverflow)) <==> !wraps && !meets && fileEnd >= 0x1_0000_0000_0000_0000)
      && (r.Err? && r.error.Truncated? && r.error.fileFault.RangeExceedsImage? <==>
            !wraps && !meets && imageLen < fileEnd < 0x1_0000_0000_0000_0000)
      && (!wraps && !meets && imageLen < fileEnd < 0x1_0000_0000_0000_0000 ==>
            r.error.fileFault == RangeExceedsImage(h.offset, fileEnd, imageLen))
      && (r.Panic? <==> !wraps && !meets && fileEnd <= imageLen)
  {
    hide Clashes, Meets, Range, Blames;
    ClashesIff(loads, k);
    RangeIs();
  }

  /** A load of a supported file fails at a header exactly if not all are accepted, and there is just
      one first such header. */
  lemma {:induction false} LoadStopsAt(image: seq<u8>, parsed: Option<ParsedElf>, r: Outcome<LoadedElf, ElfError>)
    requires Supported(image, parsed) && Loads(image, parsed, r)
    ensures var loads := LoadHeaders(parsed.value.headers);
      && (!AllAccepted(loads, |image|) ==>
            exists k: nat :: FirstRefused(loads, |image|, k) && Refuses(loads[..k], loads[k], |image|, r))
      && forall j: nat, k: nat | FirstRefused(loads, |image|, j) && FirstRefused(loads, |image|, k) :: j == k
  {
    hide LoadHeaders, AllAccepted, Refuses, FirstRefused, SegmentsOf, Supported;
    var loads := LoadHeaders(parsed.value.headers);
    forall j: nat, k: nat | FirstRefused(loads, |image|, j) && FirstRefused(loads, |image|, k)
      ensures j == k
    {
      if j < k { NotRefusedBefore(loads, |image|, j, k); }
      if k < j { NotRefusedBefore(loads, |image|, k, j); }
    }
  }

  lemma {:induction false} NotRefusedBefore(loads: seq<Phdr>, imageLen: nat, j: nat, k: nat)
    requires FirstRefused(loads, imageLen, k) && j < k
    ensures !FirstRefused(loads, imageLen, j)
  {
    hide Accepts;
    assert loads[..k][..j] == loads[..j] && loads[..k][j] == loads[j];
  }

  lemma {:induction false} AcceptedAreValid(image: seq<u8>, loads: seq<Phdr>)
    requires AllAccepted(loads, |image|)
    ensures forall s | s in SegmentsOf(loads, image) :: ValidSegment(s) && s.filesz <= s.memsz == |s.data|
  {
    hide Clashes;
    forall k | 0 <= k < |loads|
      ensures ValidSegment(SegmentsOf(loads, image)[k])
    {
      assert Accepts(loads[..k], loads[k], |image|);
    }
  }

  /** An image that follows the ELF rule `p_filesz <= p_memsz`, with segments an allocation can hold,
      is never a cause to abort. */
  lemma {:induction false} NoAbort(image: seq<u8>, parsed: Option<ParsedElf>, r: Outcome<LoadedElf, ElfError>)
    requires Loads(image, parsed, r)
    requires parsed.Some? ==> forall h | h in LoadHeaders(parsed.value.headers) :: Copies(h)
    ensures !r.Panic?
  {
  }

  /** The overlap error names a segment that really overlaps if and only if an earlier segment
      contains the start address; otherwise it names address 0. */
  lemma {:induction false} BlameIsRealIff(earlier: seq<Phdr>, h: Phdr, other: u64)
    requires Fits(Range(h)) && Clashes(earlier, h) && Blames(earlier, h, other)
    ensures (exists e :: e in earlier && e.vaddr == other && !Apart(Range(h), Range(e)))
            <==> exists e :: e in earlier && Covers(Range(e), h.vaddr)
  {
  }

  lemma {:induction false} BothLoad(a: Phdr, b: Phdr)
    requires a.kind == PT_LOAD && b.kind == PT_LOAD
    ensures LoadHeaders([a, b]) == [a, b]
  {
    assert [a, b][..1] == [a] && [a][..0] == [];
    assert LoadHeaders([a]) == [] + [a];
  }

  /** Of two headers, the first accepted and the second not, the second decides the result. */
  lemma {:induction false} SecondRefused(a: Phdr, b: Phdr, image: seq<u8>, parsed: Option<ParsedElf>,
                                         r: Outcome<LoadedElf, ElfError>)
    requires Supported(image, parsed) && LoadHeaders(parsed.value.headers) == [a, b] && Loads(image, parsed, r)
    requires Accepts([], a, |image|) && !Accepts([a], b, |image|)
    ensures Refuses([a], b, |image|, r)
  {
    hide Accepts, Refuses, LoadHeaders, Supported;
    var loads := [a, b];
    assert loads[..0] == [] && loads[..1] == [a];
    assert !Accepts(loads[..1], loads[1], |image|);
    var k: nat :| FirstRefused(loads, |image|, k) && Refuses(loads[..k], loads[k], |image|, r);
    assert k == 1;
  }

  /** A load that fails on a segment which starts below an earlier one and runs into it: the error
      names address 0, where there is no segment. */
  lemma {:induction false} BlameCanMiss(r: Outcome<LoadedElf, ElfError>)
    requires var high, low := Phdr(1, 5, 0, 0x2000, 0, 0x1000, 0x1000), Phdr(1, 5, 0, 0x1000, 0, 0x1800, 0x1000);
      Loads([0x7f, 0x45, 0x4c, 0x46], Some(ParsedElf(true, 62, 2, 0, [high, low])), r)
    ensures r == Err(SegmentOverlap(0x1000, 0))
  {
    hide LoadHeaders, Loads;
    var high, low := Phdr(1, 5, 0, 0x2000, 0, 0x1000, 0x1000), Phdr(1, 5, 0, 0x1000, 0, 0x1800, 0x1000);
    BothLoad(high, low);
    assert high in [high] && !Apart(Range(low), Range(high));
    SecondRefused(high, low, [0x7f, 0x45, 0x4c, 0x46], Some(ParsedElf(true, 62, 2, 0, [high, low])), r);
    assert forall e | e in [high] :: e == high;
  }
}

/** Bookkeeping of the claimed guest ranges. */
module Mmap {
  import opened Machine
  import opened Sorting

  datatype MmapError = MmapError(base: u64)

  datatype Region = Region(base: u64, size: u64, prot: u32) {
    function End(): u64 {
      WrapAdd(base, size)
    }

    predicate Contains(addr: u64) {
      base <= addr && addr < End()
    }

    predicate Overlaps(b: u64, s: u64) {
      base < WrapAdd(b, s) && b < End()
    }
  }

  function BaseOf(r: Region): int {
    r.base
  }

  /** `insert`: the new region vector, or nothing when the range is refused. */
  function Inserted(rs: seq<Region>, base: u64, size: u64, prot: u32): Option<seq<Region>> {
    if size == 0 then Some(rs)
    else if exists r | r in rs :: r.Overlaps(base, size) then None
    else Some(SortBy(BaseOf, rs + [Region(base, size, prot)]))
  }

  class MemoryMap {
    var regions: seq<Region>

    constructor ()
      ensures regions == []
    {
      regions := [];
    }

    method Insert(base: u64, size: u64, prot: u32) returns (r: Outcome<(), MmapError>)
      modifies this
      ensures r == if Inserted(old(regions), base, size, prot).Some? then Ok(()) else Err(MmapError(base))
      ensures regions == if r.Ok? then Inserted(old(regions), base, size, prot).value else old(regions)
      ensures WellFormed(old(regions)) && base + size < WORD ==>
                && WellFormed(regions)
                && (r.Ok? <==> forall a | base <= a < base + size :: !Claims(old(regions), a))
                && (forall a :: Claims(regions, a) <==> Claims(old(regions), a) || (r.Ok? && base <= a < base + size))
    {
      hide WellFormed, Claims;
      if WellFormed(regions) && base + size < WORD {
        AcceptedIffFree(regions, base, size, prot);
        if Inserted(regions, base, size, prot).Some? { InsertClaims(regions, base, size, prot); }
      }
      if size == 0 {
        return Ok(());
      }
      if exists r | r in regions :: r.Overlaps(base, size) {
        return Err(MmapError(base));
      }
      regions := regions + [Region(base, size, prot)];
      regions := SortBy(BaseOf, regions);
      return Ok(());
    }
  }

  // ----- ranges as sets of addresses -----

  predicate Covers(r: Region, a: int) {
    r.base <= a < r.base + r.size
  }

  /** The range ends below the top of the address space, so that no sum on it wraps. */
  predicate Fits(r: Region) {
    r.base + r.size < WORD
  }

  predicate Apart(r: Region, s: Region) {
    r.size == 0 || s.size == 0 || r.base + r.size <= s.base || s.base + s.size <= r.base
  }

  lemma {:induction false} ApartMeansNoCommonAddress(r: Region, s: Region)
    ensures Apart(r, s) <==> !exists a :: Covers(r, a) && Covers(s, a)
  {
    if !Apart(r, s) {
      var a := Max(r.base, s.base);
      assert Covers(r, a) && Covers(s, a);
    }
  }

  ghost predicate Claims(rs: seq<Region>, a: int) {
    exists r | r in rs :: Covers(r, a)
  }

  /** Nonempty regions in strictly increasing, non-overlapping order. */
  ghost predicate Ordered(rs: seq<Region>) {
    && (forall i | 0 <= i < |rs| :: rs[i].size > 0 && rs[i].base + rs[i].size <= WORD)
    && (forall i, j | 0 <= i < j < |rs| :: rs[i].base + rs[i].size <= rs[j].base)
  }

  ghost predicate WellFormed(rs: seq<Region>) {
    Ordered(rs) && forall r | r in rs :: Fits(r)
  }

  ghost predicate ApartFromAll(r: Region, rs: seq<Region>) {
    forall s | s in rs :: Apart(r, s)
  }

  /** The range meets a region of `rs` that does not reach the top: one that shares an address with it,
      if it does not reach the top either; if it wraps around, one that covers its first address and
      the last, and all between them that are not in the range. */
  predicate Collides(x: Region, rs: seq<Region>) {
    exists r | r in rs :: Fits(r) && if Fits(x) then !Apart(x, r) else Surrounds(r, x)
  }

  predicate Surrounds(r: Region, x: Region) {
    x.base + x.size > WORD && Covers(r, x.base) && Covers(r, x.base + x.size - 1 - WORD)
  }

  lemma {:induction false} OrderedIsSorted(rs: seq<Region>)
    requires Ordered(rs)
    ensures SortedBy(BaseOf, rs)
  {
  }

  // ----- one insertion -----

  /** The overlap test never errs on the safe side; below the top of the address space it is exact. */
  lemma {:induction false} OverlapsIsReal(r: Region, base: u64, size: u64, prot: u32)
    requires r.size > 0 && size > 0
    ensures r.Overlaps(base, size) ==> !Apart(Region(base, size, prot), r)
    ensures Fits(r) && base + size < WORD ==> (r.Overlaps(base, size) <==> !Apart(Region(base, size, prot), r))
  {
  }

  lemma {:induction false} PlacedInOrder(rs: seq<Region>, x: Region)
    requires Ordered(rs) && x.size > 0 && x.base + x.size <= WORD && ApartFromAll(x, rs)
    ensures Ordered(InsertBy(BaseOf, x, rs))
  {
    hide InsertBy, Slot, Apart;
    var r := InsertBy(BaseOf, x, rs);
    InsertByAt(BaseOf, x, rs, 0);
    forall i | 0 <= i < |r|
      ensures r[i].size > 0 && r[i].base + r[i].size <= WORD
    {
      InsertByAt(BaseOf, x, rs, i);
    }
    forall i, j | 0 <= i < j < |r|
      ensures r[i].base + r[i].size <= r[j].base
    {
      PlacedPair(rs, x, i, j);
    }
  }

  lemma {:induction false} PlacedPair(rs: seq<Region>, x: Region, i: nat, j: nat)
    requires Ordered(rs) && x.size > 0 && ApartFromAll(x, rs) && i < j <= |rs|
    ensures |InsertBy(BaseOf, x, rs)| == |rs| + 1
    ensures var r := InsertBy(BaseOf, x, rs); r[i].base + r[i].size <= r[j].base
  {
    hide InsertBy, Slot;
    var p := Slot(BaseOf, x, rs);
    InsertByAt(BaseOf, x, rs, i);
    InsertByAt(BaseOf, x, rs, j);
    if i < p == j {
      assert BaseOf(rs[p - 1]) <= BaseOf(x) && (i < p - 1 ==> rs[i].base + rs[i].size <= rs[p - 1].base);
      assert Apart(x, rs[i]);
    } else if i == p {
      assert Apart(x, rs[j - 1]);
    }
  }

  /** Among sorted regions exactly a range that collides is refused, wherever it ends. */
  lemma {:induction false} RefusedIffCollides(rs: seq<Region>, x: Region)
    requires Ordered(rs)
    ensures Inserted(rs, x.base, x.size, x.prot).None? <==> Collides(x, rs)
  {
    hide SortBy;
    forall r | r in rs
      ensures x.size > 0 && r.Overlaps(x.base, x.size) <==>
              Fits(r) && if Fits(x) then !Apart(x, r) else Surrounds(r, x)
    {
      assert r.size > 0 && r.base + r.size <= WORD;
    }
  }

  /** A range apart from every region is accepted, and takes its place in the order. */
  lemma {:induction false} InsertApart(rs: seq<Region>, x: Region)
    requires Ordered(rs) && x.size > 0 && x.base + x.size <= WORD && ApartFromAll(x, rs)
    ensures Inserted(rs, x.base, x.size, x.prot) == Some(InsertBy(BaseOf, x, rs))
    ensures Ordered(InsertBy(BaseOf, x, rs))
  {
    hide SortBy, InsertBy, SortedBy;
    forall r | r in rs
      ensures !r.Overlaps(x.base, x.size)
    {
      OverlapsIsReal(r, x.base, x.size, x.prot);
    }
    OrderedIsSorted(rs);
    SortAfterPush(BaseOf, rs, x);
    PlacedInOrder(rs, x);
  }

  /** A nonempty range below the top is accepted if and only if no region claims one of its
      addresses. */
  lemma {:induction false} AcceptedIffFree(rs: seq<Region>, base: u64, size: u64, prot: u32)
    requires WellFormed(rs) && base + size < WORD
    ensures Inserted(rs, base, size, prot).Some? <==> forall a | base <= a < base + size :: !Claims(rs, a)
    ensures Inserted(rs, base, size, prot).Some? && size > 0 ==> ApartFromAll(Region(base, size, prot), rs)
  {
    hide SortBy;
    var x := Region(base, size, prot);
    if size > 0 {
      forall r | r in rs
        ensures r.Overlaps(base, size) <==> !Apart(x, r)
        ensures Apart(x, r) <==> !exists a :: Covers(x, a) && Covers(r, a)
      {
        OverlapsIsReal(r, base, size, prot);
        ApartMeansNoCommonAddress(x, r);
      }
      forall a | base <= a < base + size && Claims(rs, a)
        ensures Inserted(rs, base, size, prot).None?
      {
        assert Covers(x, a);
      }
      if Inserted(rs, base, size, prot).None? {
        var r :| r in rs && r.Overlaps(base, size);
        var a :| Covers(x, a) && Covers(r, a);
        assert Claims(rs, a);
      }
    }
  }

  /** What an accepted insertion does: the map stays well formed, exactly the new range is claimed
      in addition, and every entry stays. */
  lemma {:induction false} InsertClaims(rs: seq<Region>, base: u64, size: u64, prot: u32)
    requires WellFormed(rs) && base + size < WORD && Inserted(rs, base, size, prot).Some?
    ensures var v := Inserted(rs, base, size, prot).value;
      && WellFormed(v)
      && multiset(v) == (if size == 0 then multiset(rs) else multiset(rs) + multiset{Region(base, size, prot)})
      && (forall a :: Claims(v, a) <==> Claims(rs, a) || base <= a < base + size)
  {
    hide SortBy, InsertBy, Ordered;
    var x := Region(base, size, prot);
    if size > 0 {
      AcceptedIffFree(rs, base, size, prot);
      InsertApart(rs, x);
      var v := Inserted(rs, base, size, prot).value;
      InMultiset(rs, v, x);
      assert Fits(x);
      forall a
        ensures Claims(v, a) <==> Claims(rs, a) || base <= a < base + size
      {
        assert Covers(x, a) <==> base <= a < base + size;
      }
    }
  }

  lemma {:induction false} InMultiset(rs: seq<Region>, v: seq<Region>, x: Region)
    requires multiset(v) == multiset(rs) + multiset{x}
    ensures forall r :: r in v <==> r in rs || r == x
  {
    forall r
      ensures r in v <==> r in rs || r == x
    {
      assert r in v <==> r in multiset(v);
      assert r in rs <==> r in multiset(rs);
    }
  }

  /** The entries an accepted insertion leaves. */
  lemma {:induction false} InsertedEntries(rs: seq<Region>, x: Region)
    requires Inserted(rs, x.base, x.size, x.prot).Some?
    ensures var v := Inserted(rs, x.base, x.size, x.prot).value;
      && multiset(v) == (if x.size == 0 then multiset(rs) else multiset(rs) + multiset{x})
      && (forall r | r in rs :: r in v)
      && (x.size > 0 ==> x in v)
      && (forall r | r in v :: r in rs || (x.size > 0 && r == x))
      && (SortedBy(BaseOf, rs) ==> SortedBy(BaseOf, v))
  {
    hide SortBy, SortedBy;
    if x.size > 0 {
      var v := Inserted(rs, x.base, x.size, x.prot).value;
      SortBySorts(BaseOf, rs + [x]);
      assert multiset(v) == multiset(rs) + multiset{x};
      InMultiset(rs, v, x);
    }
  }

  // ----- every sequence of calls -----

  /** The map after any sequence of insert calls, refused ones included. */
  function After(calls: seq<Region>): seq<Region> {
    if calls == [] then []
    else
      var c := calls[|calls| - 1];
      match Inserted(After(calls[..|calls| - 1]), c.base, c.size, c.prot)
      case Some(v) => v
      case None => After(calls[..|calls| - 1])
  }

  /** After any calls the vector is sorted by base and holds only nonempty ranges that were asked
      for; and if all ranges end below the top, they are also pairwise disjoint. */
  lemma {:induction false} AnyCallsKeepOrder(calls: seq<Region>)
    ensures SortedBy(BaseOf, After(calls))
    ensures forall r | r in After(calls) :: r in calls && r.size > 0
    ensures (forall c | c in calls :: Fits(c)) ==> WellFormed(After(calls))
  {
    hide Inserted, WellFormed, SortedBy, Fits;
    if calls == [] {
      EmptyIsWellFormed();
    } else {
      var front, c := calls[..|calls| - 1], calls[|calls| - 1];
      assert c in calls && forall x | x in front :: x in calls;
      AnyCallsKeepOrder(front);
      if Inserted(After(front), c.base, c.size, c.prot).Some? {
        InsertedEntries(After(front), c);
        if WellFormed(After(front)) && Fits(c) { InsertFits(After(front), c); }
      }
    }
  }

  lemma {:induction false} InsertFits(rs: seq<Region>, c: Region)
    requires WellFormed(rs) && Fits(c) && Inserted(rs, c.base, c.size, c.prot).Some?
    ensures WellFormed(Inserted(rs, c.base, c.size, c.prot).value)
  {
    hide Inserted, WellFormed;
    InsertClaims(rs, c.base, c.size, c.prot);
  }

  lemma {:induction false} EmptyIsWellFormed()
    ensures WellFormed([]) && SortedBy(BaseOf, [])
  {
  }

  /** The map after a list of calls that are all accepted. */
  function AllInserted(calls: seq<Region>): Option<seq<Region>> {
    if calls == [] then Some([])
    else
      var c := calls[|calls| - 1];
      match AllInserted(calls[..|calls| - 1])
      case Some(rs) => Inserted(rs, c.base, c.size, c.prot)
      case None => None
  }

  /** The calls that were accepted. */
  function Accepted(calls: seq<Region>): seq<Region> {
    if calls == [] then []
    else
      var front, c := calls[..|calls| - 1], calls[|calls| - 1];
      if Inserted(After(front), c.base, c.size, c.prot).Some? then Accepted(front) + [c] else Accepted(front)
  }

  /** Refused calls leave no trace: the map is as if only the accepted ones had been made. */
  lemma {:induction false} RefusedLeaveNoTrace(calls: seq<Region>)
    ensures AllInserted(Accepted(calls)) == Some(After(calls))
    ensures forall c | c in Accepted(calls) :: c in calls
  {
    hide Inserted;
    if calls != [] {
      var front, c := calls[..|calls| - 1], calls[|calls| - 1];
      RefusedLeaveNoTrace(front);
      assert (Accepted(front) + [c])[..|Accepted(front)|] == Accepted(front);
    }
  }

  /** Nonempty requests occur once and are pairwise apart. */
  ghost predicate Compatible(requests: multiset<Region>) {
    && (forall r | r in requests && r.size > 0 :: requests[r] == 1)
    && (forall r, s | r in requests && s in requests && r != s :: Apart(r, s))
  }

  /** The entries a list of requests leaves: the nonempty ones. */
  function Nonempty(calls: seq<Region>): seq<Region> {
    if calls == [] then []
    else
      var c := calls[|calls| - 1];
      if c.size == 0 then Nonempty(calls[..|calls| - 1]) else Nonempty(calls[..|calls| - 1]) + [c]
  }

  lemma {:induction false} NonemptyCounts(calls: seq<Region>, r: Region)
    ensures multiset(Nonempty(calls))[r] == if r.size == 0 then 0 else multiset(calls)[r]
  {
    if calls != [] {
      NonemptyCounts(calls[..|calls| - 1], r);
      assert calls == calls[..|calls| - 1] + [calls[|calls| - 1]];
    }
  }

  lemma {:induction false} AllInsertedEntries(calls: seq<Region>)
    requires AllInserted(calls).Some?
    ensures multiset(AllInserted(calls).value) == multiset(Nonempty(calls))
  {
    hide Inserted;
    if calls != [] {
      AllInsertedEntries(calls[..|calls| - 1]);
      InsertedEntries(AllInserted(calls[..|calls| - 1]).value, calls[|calls| - 1]);
    }
  }

  lemma {:induction false} AllInsertedHolds(calls: seq<Region>)
    requires forall c | c in calls :: Fits(c)
    requires AllInserted(calls).Some?
    ensures WellFormed(AllInserted(calls).value)
    ensures multiset(AllInserted(calls).value) == multiset(Nonempty(calls))
  {
    hide Inserted, WellFormed, Fits;
    AllInsertedEntries(calls);
    if calls == [] {
      EmptyIsWellFormed();
    } else {
      assert calls[|calls| - 1] in calls;
      AllInsertedHolds(calls[..|calls| - 1]);
      InsertFits(AllInserted(calls[..|calls| - 1]).value, calls[|calls| - 1]);
    }
  }

  /** Compatible requests are all accepted, whatever their order; and if all ranges end below the
      top, only compatible ones are. */
  lemma {:induction false} AllAcceptedIffCompatible(calls: seq<Region>)
    ensures Compatible(multiset(calls)) ==> AllInserted(calls).Some?
    ensures (forall c | c in calls :: Fits(c)) ==> (AllInserted(calls).Some? <==> Compatible(multiset(calls)))
  {
    if calls != [] {
      hide Inserted, WellFormed, Compatible, Apart, Fits;
      var front, c := calls[..|calls| - 1], calls[|calls| - 1];
      assert calls == front + [c];
      AllAcceptedIffCompatible(front);
      CompatiblePush(front, c);
      if AllInserted(front).Some? {
        AllInsertedEntries(front);
        LastAcceptedIffApart(front, c);
      }
    }
  }

  lemma {:induction false} LastAcceptedIffApart(front: seq<Region>, c: Region)
    requires AllInserted(front).Some?
    requires multiset(AllInserted(front).value) == multiset(Nonempty(front))
    ensures var accepted := Inserted(AllInserted(front).value, c.base, c.size, c.prot).Some?;
      var apart := c.size == 0 || forall x | x in front :: Apart(c, x);
      && (apart ==> accepted)
      && (Fits(c) && (forall x | x in front :: Fits(x)) && accepted ==> apart)
  {
    hide SortBy, AllInserted, Ordered;
    var rs := AllInserted(front).value;
    forall x
      ensures x in rs <==> x in front && x.size > 0
    {
      NonemptyCounts(front, x);
      assert x in rs <==> multiset(rs)[x] > 0;
      assert x in front <==> multiset(front)[x] > 0;
    }
    forall x | x in rs && c.size > 0
      ensures x.Overlaps(c.base, c.size) ==> !Apart(c, x)
      ensures Fits(x) && Fits(c) ==> (x.Overlaps(c.base, c.size) <==> !Apart(c, x))
    {
      OverlapsIsReal(x, c.base, c.size, c.prot);
    }
  }

  lemma {:induction false} CompatiblePush(front: seq<Region>, c: Region)
    ensures Compatible(multiset(front + [c])) <==>
            Compatible(multiset(front)) && (c.size == 0 || forall x | x in front :: Apart(c, x))
  {
    var m, n := multiset(front), multiset(front + [c]);
    assert n == m + multiset{c};
    assert forall x :: x in front <==> x in m;
    if Compatible(n) {
      forall x | x in m
        ensures x.size > 0 ==> m[x] == 1
        ensures c.size == 0 || Apart(c, x)
      {
        assert x in n && c in n;
      }
      forall r, s | r in m && s in m && r != s
        ensures Apart(r, s)
      {
        assert r in n && s in n;
      }
    }
    if Compatible(m) && (c.size == 0 || forall x | x in front :: Apart(c, x)) {
      assert c.size > 0 ==> !Apart(c, c);
      assert forall r | r in n && r.size > 0 :: n[r] == 1;
      forall r, s | r in n && s in n && r != s
        ensures Apart(r, s)
      {
        if r == c { assert s in m; } else if s == c { assert r in m; }
      }
    }
  }

  /** An ordered vector is determined by its entries. */
  lemma {:induction false} OrderedIsUnique(rs: seq<Region>, vs: seq<Region>)
    requires Ordered(rs) && Ordered(vs) && multiset(rs) == multiset(vs)
    ensures rs == vs
  {
    hide Ordered;
    if rs == [] {
      assert |multiset(vs)| == 0;
    } else {
      HeadsAgree(rs, vs);
      DropFirst(rs);
      DropFirst(vs);
      OrderedIsUnique(rs[1..], vs[1..]);
      assert rs == [rs[0]] + rs[1..] && vs == [vs[0]] + vs[1..];
    }
  }

  lemma {:induction false} HeadsAgree(rs: seq<Region>, vs: seq<Region>)
    requires Ordered(rs) && Ordered(vs) && multiset(rs) == multiset(vs) && rs != []
    ensures vs != [] && rs[0] == vs[0] && Ordered(rs[1..]) && Ordered(vs[1..])
  {
    hide Ordered;
    assert rs[0] in multiset(vs) && vs[0] in multiset(rs);
    FirstIsLeast(rs, vs[0]);
    FirstIsLeast(vs, rs[0]);
    OrderedHeads(rs, vs);
  }

  lemma {:induction false} DropFirst(rs: seq<Region>)
    requires rs != []
    ensures multiset(rs[1..]) == multiset(rs) - multiset{rs[0]}
  {
    assert rs == [rs[0]] + rs[1..];
  }

  lemma {:induction false} FirstIsLeast(rs: seq<Region>, x: Region)
    requires Ordered(rs) && x in rs
    ensures x == rs[0] || rs[0].base < x.base
  {
  }

  lemma {:induction false} OrderedHeads(rs: seq<Region>, vs: seq<Region>)
    requires Ordered(rs) && Ordered(vs) && rs != [] && vs != []
    requires vs[0] == rs[0] || rs[0].base < vs[0].base
    requires vs[0] == rs[0] || vs[0].base < rs[0].base
    ensures rs[0] == vs[0] && Ordered(rs[1..]) && Ordered(vs[1..])
  {
  }

  /** The map is canonical: two orders of the same requests leave the same entries, and if all ranges
      end below the top, one order succeeds exactly when the other does, with the identical vector. */
  lemma {:induction false} OrderDoesNotMatter(calls: seq<Region>, others: seq<Region>)
    requires multiset(calls) == multiset(others)
    ensures AllInserted(calls).Some? && AllInserted(others).Some? ==>
              multiset(AllInserted(calls).value) == multiset(AllInserted(others).value)
    ensures (forall c | c in calls :: Fits(c)) ==> AllInserted(calls) == AllInserted(others)
  {
    hide AllInserted, Ordered, Compatible, Fits;
    assert forall c :: c in calls <==> c in multiset(calls);
    assert forall c :: c in others <==> c in multiset(calls);
    AllAcceptedIffCompatible(calls);
    AllAcceptedIffCompatible(others);
    if AllInserted(calls).Some? && AllInserted(others).Some? {
      AllInsertedEntries(calls);
      AllInsertedEntries(others);
      forall r
        ensures multiset(Nonempty(calls))[r] == multiset(Nonempty(others))[r]
      {
        NonemptyCounts(calls, r);
        NonemptyCounts(others, r);
      }
      if forall c | c in calls :: Fits(c) {
        AllInsertedHolds(calls);
        AllInsertedHolds(others);
        OrderedIsUnique(AllInserted(calls).value, AllInserted(others).value);
      }
    }
  }

  // ----- ranges that reach the top of the address space -----

  lemma {:induction false} InsertIntoEmpty(base: u64, size: u64, prot: u32)
    requires size > 0
    ensures Inserted([], base, size, prot) == Some([Region(base, size, prot)])
  {
    assert [] + [Region(base, size, prot)] == [Region(base, size, prot)];
    assert SortedBy(BaseOf, [Region(base, size, prot)]);
    SortedIsFixed(BaseOf, [Region(base, size, prot)]);
  }

  predicate SameRange(c: Region, d: Region) {
    c.base == d.base && c.size == d.size
  }

  lemma {:induction false} InsertedAgain(c: Region, d: Region)
    requires !Fits(c) && SameRange(c, d)
    ensures Inserted([c], d.base, d.size, d.prot) == Some([c, d])
  {
    hide SortBy;
    assert [c] + [d] == [c, d] && SortedBy(BaseOf, [c, d]);
    SortedIsFixed(BaseOf, [c, d]);
  }

  /** A range whose end wraps is accepted a second time, behind its first entry. */
  lemma {:induction false} TopIsAcceptedTwice(c: Region, d: Region)
    requires !Fits(c) && SameRange(c, d)
    ensures AllInserted([c, d]) == Some([c, d]) && After([c, d]) == [c, d]
  {
    hide Inserted;
    assert c.size > 0;
    InsertIntoEmpty(c.base, c.size, c.prot);
    InsertedAgain(c, d);
    assert [c][..0] == [] && [c, d][..1] == [c];
    assert AllInserted([]) == Some([]) && After([]) == [];
    assert AllInserted([c]) == Some([c]);
    assert After([c]) == [c];
  }

  /** An accepted range is refused a second time exactly if its end does not wrap. */
  lemma {:induction false} ClaimedAgainIff(rs: seq<Region>, vs: seq<Region>, x: Region)
    requires x.size > 0 && Inserted(rs, x.base, x.size, x.prot) == Some(vs)
    ensures Inserted(vs, x.base, x.size, x.prot).None? <==> x.base + x.size < WORD
  {
    hide SortBy;
    forall r: Region
      ensures r in vs <==> r in rs || r == x
    {
      assert r in vs <==> r in multiset(vs);
      assert r in rs + [x] <==> r in multiset(rs + [x]);
    }
    assert x in vs && (x.Overlaps(x.base, x.size) <==> Fits(x));
    assert forall r | r in rs :: !r.Overlaps(x.base, x.size);
  }

  /** A nonempty range can be claimed twice exactly when its end wraps. */
  lemma {:induction false} ClaimedTwiceIff(c: Region)
    requires c.size > 0
    ensures AllInserted([c, c]).Some? <==> !Fits(c)
  {
    hide AllInserted, Compatible;
    if Fits(c) {
      AllAcceptedIffCompatible([c, c]);
      assert multiset([c, c])[c] == 2;
      TwiceIsIncompatible(multiset([c, c]), c);
    } else {
      TopIsAcceptedTwice(c, c);
    }
  }

  lemma {:induction false} TwiceIsIncompatible(requests: multiset<Region>, c: Region)
    requires c.size > 0 && requests[c] == 2
    ensures !Compatible(requests)
  {
  }

  /** Calls that repeat one range among ranges below the top always leave the regions sorted and
      disjoint if and only if that range ends below the top too. */
  lemma {:induction false} KeepsOrderIff(c: Region)
    ensures (forall calls | (forall x | x in calls :: Fits(x) || x == c) :: Ordered(After(calls))) <==> Fits(c)
  {
    hide After;
    if Fits(c) {
      forall calls | (forall x | x in calls :: Fits(x) || x == c)
        ensures Ordered(After(calls))
      {
        AnyCallsKeepOrder(calls);
      }
    } else {
      TopIsAcceptedTwice(c, c);
      var twice := [c, c];
      assert forall x | x in twice :: x == c;
      assert !Ordered(twice);
    }
  }

  /** `others` are `calls` in another order, and all but those for `c`'s range end below the top. */
  ghost predicate Reordered(c: Region, calls: seq<Region>, others: seq<Region>) {
    multiset(calls) == multiset(others) && forall x | x in calls :: Fits(x) || SameRange(x, c)
  }

  /** The order of requests for one range, with any flags, among ranges below the top never matters if
      and only if that range ends below the top too. */
  lemma {:induction false} OrderNeverMattersIff(c: Region)
    ensures (forall calls, others | Reordered(c, calls, others) :: AllInserted(calls) == AllInserted(others))
            <==> Fits(c)
  {
    hide AllInserted, Reordered;
    if Fits(c) {
      forall calls, others | Reordered(c, calls, others)
        ensures AllInserted(calls) == AllInserted(others)
      {
        ReorderedFits(c, calls, others);
        OrderDoesNotMatter(calls, others);
      }
    } else {
      var d := c.(prot := if c.prot == 0 then 1 else 0);
      TopIsAcceptedTwice(c, d);
      TopIsAcceptedTwice(d, c);
      ReorderedPair(c, d);
      assert [c, d][0] != [d, c][0];
    }
  }

  lemma {:induction false} ReorderedFits(c: Region, calls: seq<Region>, others: seq<Region>)
    requires Fits(c) && Reordered(c, calls, others)
    ensures multiset(calls) == multiset(others) && forall x | x in calls :: Fits(x)
  {
  }

  lemma {:induction false} ReorderedPair(c: Region, d: Region)
    requires SameRange(d, c)
    ensures Reordered(c, [c, d], [d, c])
  {
  }

  /** The last page of the address space is accepted twice: its end wraps to zero. */
  lemma {:induction false} TopPageTwice()
    ensures var top := Region(0xffff_ffff_ffff_f000, 0x1000, 5);
      AllInserted([top, top]) == Some([top, top])
  {
    TopIsAcceptedTwice(Region(0xffff_ffff_ffff_f000, 0x1000, 5), Region(0xffff_ffff_ffff_f000, 0x1000, 5));
  }

  // ----- two maps of the same things at different granularity -----

  predicate Inside(r: Region, s: Region) {
    s.base <= r.base && r.base + r.size <= s.base + s.size
  }

  ghost predicate Nested(inner: seq<Region>, outer: seq<Region>) {
    |inner| == |outer| && forall i | 0 <= i < |inner| :: Inside(inner[i], outer[i])
  }

  /** Nested entries sort alike, so nested maps stay nested. */
  lemma {:induction false} NestedInsert(inner: seq<Region>, outer: seq<Region>, r: Region, s: Region)
    requires Ordered(inner) && Ordered(outer) && Nested(inner, outer)
    requires Inside(r, s) && r.size > 0 && ApartFromAll(s, outer)
    ensures Nested(InsertBy(BaseOf, r, inner), InsertBy(BaseOf, s, outer))
  {
    hide InsertBy, Slot;
    forall i | 0 <= i < |inner|
      ensures inner[i].base <= r.base <==> outer[i].base <= s.base
    {
      assert Apart(s, outer[i]) && Inside(inner[i], outer[i]);
    }
    assert Slot(BaseOf, r, inner) == Slot(BaseOf, s, outer);
    InsertByAt(BaseOf, r, inner, 0);
    InsertByAt(BaseOf, s, outer, 0);
    forall i | 0 <= i <= |inner|
      ensures Inside(InsertBy(BaseOf, r, inner)[i], InsertBy(BaseOf, s, outer)[i])
    {
      InsertByAt(BaseOf, r, inner, i);
      InsertByAt(BaseOf, s, outer, i);
    }
  }
}

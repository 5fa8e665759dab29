/** The two guest-memory backends a handler can be given: the in-memory one and the live engine. */
module Backends {
  import opened Machine
  import opened Engine
  import opened GuestMem
  import opened Dispatch

  /** The two memories hold the same bytes at the same addresses. */
  ghost predicate SameBytes(m: Layout, mem: Memory) {
    && (forall a :: a in mem ==> 0 <= a < WORD)
    && (forall a: u64 :: ByteAt(m, a) == if a in mem then Some(mem[a].val) else None)
  }

  /** Below the top of the address space both backends give the same bytes, both fail, or both
      abort. */
  lemma {:induction false} ReadAlike(m: Layout, mem: Memory, addr: u64, len: usize)
    requires Disjoint(m) && SameBytes(m, mem) && addr + len <= WORD
    ensures ChunkBytes(m, addr, len) == LiveBytes(mem, addr, len)
  {
    hide ByteAt, Disjoint, ChunkRead;
    if len <= ISIZE_MAX {
      ReadIsFlat(m, addr, len);
      var p := MappedPrefix(m, addr, len);
      forall i: nat | i < len
        ensures ByteAt(m, WrapAdd(addr, i)) == if addr + i in mem then Some(mem[addr + i].val) else None
      {
        assert WrapAdd(addr, i) == addr + i;
      }
      if p == len {
        forall a | addr <= a < addr + len
          ensures a in mem
        {
          assert ByteAt(m, WrapAdd(addr, a - addr)).Some?;
        }
        assert Mapped(mem, addr, len);
        assert FlatRead(m, addr, len).value == BytesAt(mem, addr, len);
      } else {
        assert addr + p !in mem;
      }
    }
  }

  /** Handlers see the same through either backend if and only if the range does not wrap, or some
      address of it is unmapped, or it is longer than any allocation. A mapped range that wraps is read
      by the in-memory backend, which goes on from address 0, and refused by the engine. */
  lemma {:induction false} ReadAlikeIff(m: Layout, mem: Memory, addr: u64, len: usize)
    requires Disjoint(m) && SameBytes(m, mem)
    ensures ChunkBytes(m, addr, len) == LiveBytes(mem, addr, len) <==>
            || addr + len <= WORD
            || len > ISIZE_MAX
            || exists i: nat :: i < len && ByteAt(m, WrapAdd(addr, i)).None?
  {
    hide ByteAt, Disjoint, ChunkRead;
    if addr + len <= WORD {
      ReadAlike(m, mem, addr, len);
    } else if len <= ISIZE_MAX {
      assert WORD !in mem && addr <= WORD < addr + len;
      ReadIsFlat(m, addr, len);
      var p := MappedPrefix(m, addr, len);
      if i: nat :| i < len && ByteAt(m, WrapAdd(addr, i)).None? {
        assert p <= i;
      }
    }
  }
}

/** The CPU engine the emulator drives, reduced to what its memory and register calls promise. */
module Engine {
  import opened Machine

  const PAGE_SIZE: u64 := 0x1000

  datatype Perm = Perm(read: bool, write: bool, exec: bool)
  datatype Cell = Cell(val: u8, perm: Perm)

  /** Mapped guest memory, by address. */
  type Memory = map<int, Cell>

  datatype Regs = Regs(rax: u64, rdi: u64, rsi: u64, rdx: u64, r10: u64, r8: u64, r9: u64, rip: u64, rsp: u64)

  predicate Mapped(m: Memory, addr: int, len: nat) {
    forall a | addr <= a < addr + len :: a in m
  }

  /** What a new mapping needs: page alignment, at least one page, the address space, free pages. */
  predicate Mappable(m: Memory, start: u64, size: u64) {
    && size > 0 && start % PAGE_SIZE == 0 && size % PAGE_SIZE == 0 && start + size <= WORD
    && forall a | start <= a < start + size :: a !in m
  }

  predicate Within(a: int, start: int, size: int) {
    start <= a < start + size
  }

  function MapZeroed(m: Memory, start: u64, size: u64, perm: Perm): (n: Memory)
    ensures forall a :: a in n <==> a in m || start <= a < start + size
    ensures forall a | a in n :: n[a] == if start <= a < start + size then Cell(0, perm) else m[a]
  {
    m + map a | start <= a < start + size && Within(a, start, size) :: Cell(0, perm)
  }

  function Store(m: Memory, addr: int, data: seq<u8>): (n: Memory)
    ensures n.Keys == m.Keys
    ensures forall a | a in m :: n[a].perm == m[a].perm
    ensures forall a | a in m :: n[a].val == if addr <= a < addr + |data| then data[a - addr] else m[a].val
  {
    map a | a in m :: if addr <= a < addr + |data| then Cell(data[a - addr], m[a].perm) else m[a]
  }

  function BytesAt(m: Memory, addr: int, len: nat): (s: seq<u8>)
    requires Mapped(m, addr, len)
    ensures |s| == len && forall i | 0 <= i < len :: s[i] == m[addr + i].val
  {
    seq(len, i requires 0 <= i < len => m[addr + i].val)
  }

  class Unicorn {
    var mem: Memory
    var regs: Regs
    var stopped: bool

    constructor ()
      ensures mem == map[] && regs == Regs(0, 0, 0, 0, 0, 0, 0, 0, 0) && !stopped
    {
      mem, regs, stopped := map[], Regs(0, 0, 0, 0, 0, 0, 0, 0, 0), false;
    }

    method MemMap(start: u64, size: u64, perm: Perm) returns (ok: bool)
      modifies this`mem
      ensures ok == Mappable(old(mem), start, size)
      ensures mem == if ok then MapZeroed(old(mem), start, size, perm) else old(mem)
    {
      ok := Mappable(mem, start, size);
      if ok {
        mem := MapZeroed(mem, start, size, perm);
      }
    }

    method MemWrite(addr: u64, data: seq<u8>) returns (ok: bool)
      modifies this`mem
      ensures ok == Mapped(old(mem), addr, |data|)
      ensures mem == if ok then Store(old(mem), addr, data) else old(mem)
    {
      ok := Mapped(mem, addr, |data|);
      if ok {
        mem := Store(mem, addr, data);
      }
    }

    method MemRead(addr: u64, len: nat) returns (r: Option<seq<u8>>)
      ensures r == if Mapped(mem, addr, len) then Some(BytesAt(mem, addr, len)) else None
    {
      if Mapped(mem, addr, len) {
        return Some(BytesAt(mem, addr, len));
      }
      return None;
    }

    method EmuStop()
      modifies this`stopped
      ensures stopped
    {
      stopped := true;
    }
  }
}

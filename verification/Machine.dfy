/** Fixed-width integers as the release build of the emulator computes them, bitwise AND,
    and the result type of an operation that can return, fail or abort. */
module Machine {

  const WORD: int := 0x1_0000_0000_0000_0000
  const HALF_WORD: int := 0x8000_0000_0000_0000

  type u8 = bv8
  type u32 = x: int | 0 <= x < 0x1_0000_0000
  type u64 = x: int | 0 <= x < 0x1_0000_0000_0000_0000
  type i64 = x: int | -0x8000_0000_0000_0000 <= x < 0x8000_0000_0000_0000
  type usize = u64

  /** No Rust allocation is longer than `isize::MAX` bytes. */
  const ISIZE_MAX: int := 0x7fff_ffff_ffff_ffff

  datatype Option<+T> = None | Some(value: T)

  /** `Panic` is the abort of the host program, as opposed to an error it returns. */
  datatype Outcome<+T, +E> = Ok(value: T) | Err(error: E) | Panic

  function Min(a: nat, b: nat): nat {
    if a <= b then a else b
  }

  function Max(a: int, b: int): int {
    if a >= b then a else b
  }

  /** `a + b` on `u64`, wrapping. */
  function WrapAdd(a: u64, b: u64): u64 {
    if a + b < WORD then a + b else a + b - WORD
  }

  /** `a - b` on `u64`, wrapping; also the distance walked upwards from `b` to `a`. */
  function WrapSub(a: u64, b: u64): u64 {
    if a >= b then a - b else a - b + WORD
  }

  /** `x as i64` */
  function AsI64(x: u64): i64 {
    if x < HALF_WORD then x else x - WORD
  }

  /** `x as u64` */
  function AsU64(x: i64): u64 {
    if x >= 0 then x else x + WORD
  }

  /** The wrapping sum and difference are those modulo 2^64. */
  lemma {:induction false} WrapIsModulo(a: u64, b: u64)
    ensures WrapAdd(a, b) == (a + b) % 0x1_0000_0000_0000_0000
    ensures WrapSub(a, b) == (a - b) % 0x1_0000_0000_0000_0000
  {
  }

  /** The casts keep the bits: they change nothing modulo 2^64, and undo each other. */
  lemma {:induction false} CastsKeepBits(x: u64, y: i64)
    ensures AsI64(x) % 0x1_0000_0000_0000_0000 == x && AsU64(y) == y % 0x1_0000_0000_0000_0000
    ensures AsU64(AsI64(x)) == x && AsI64(AsU64(y)) == y
  {
  }

  function Zeros(n: nat): (s: seq<u8>)
    ensures |s| == n && forall i | 0 <= i < n :: s[i] == 0
  {
    seq(n, _ => 0)
  }

  // ----- bitwise AND -----

  function BitAnd(x: nat, y: nat): nat
    decreases x
  {
    if x == 0 || y == 0 then 0
    else (if x % 2 == 1 && y % 2 == 1 then 1 else 0) + 2 * BitAnd(x / 2, y / 2)
  }

  /** `!x` on `u64` */
  function BitNot(x: u64): u64 {
    WORD - 1 - x
  }

  function AllOnes(n: nat): nat {
    if n == 0 then 0 else 2 * AllOnes(n - 1) + 1
  }

  lemma {:induction false} AndEven(x: nat, y: nat)
    ensures BitAnd(x, 2 * y) == 2 * BitAnd(x / 2, y)
  {
  }

  lemma {:induction false} AndOdd(x: nat, y: nat)
    ensures BitAnd(x, 2 * y + 1) == x % 2 + 2 * BitAnd(x / 2, y)
  {
  }

  lemma {:induction false} AndAllOnes(x: nat, n: nat)
    requires x <= AllOnes(n)
    ensures BitAnd(x, AllOnes(n)) == x
  {
    if n > 0 {
      AndAllOnes(x / 2, n - 1);
      AndOdd(x, AllOnes(n - 1));
    }
  }

  lemma {:induction false} HalveFourTimes(x: nat)
    ensures x / 2 / 2 / 2 / 2 == x / 16
    ensures x % 2 + 2 * (x / 2 % 2) + 4 * (x / 2 / 2 % 2) + 8 * (x / 2 / 2 / 2 % 2) == x % 16
  {
  }

  lemma {:induction false} AndLowNibble(x: nat, y: nat)
    ensures BitAnd(x, 16 * y + 15) == x % 16 + 16 * BitAnd(x / 16, y)
  {
    hide BitAnd;
    AndOdd(x / 2 / 2 / 2, y);
    AndOdd(x / 2 / 2, 2 * y + 1);
    AndOdd(x / 2, 4 * y + 3);
    AndOdd(x, 8 * y + 7);
    HalveFourTimes(x);
  }

  lemma {:induction false} AndHighNibble(x: nat, y: nat)
    ensures BitAnd(x, 16 * y) == 16 * BitAnd(x / 16, y)
  {
    hide BitAnd;
    AndEven(x / 2 / 2 / 2, y);
    AndEven(x / 2 / 2, 2 * y);
    AndEven(x / 2, 4 * y);
    AndEven(x, 8 * y);
    HalveFourTimes(x);
  }

  lemma {:induction false} AllOnesNibble(n: nat, v: nat)
    requires AllOnes(n) == v
    ensures AllOnes(n + 4) == 16 * v + 15
  {
    assert AllOnes(n + 2) == 4 * v + 3;
  }

  lemma {:induction false} AllOnes52()
    ensures AllOnes(52) == 0xf_ffff_ffff_ffff
  {
    AllOnesNibble(0, 0);
    hide AllOnes;
    AllOnesNibble(4, 0xf);
    AllOnesNibble(8, 0xff);
    AllOnesNibble(12, 0xfff);
    AllOnesNibble(16, 0xffff);
    AllOnesNibble(20, 0xf_ffff);
    AllOnesNibble(24, 0xff_ffff);
    AllOnesNibble(28, 0xfff_ffff);
    AllOnesNibble(32, 0xffff_ffff);
    AllOnesNibble(36, 0xf_ffff_ffff);
    AllOnesNibble(40, 0xff_ffff_ffff);
    AllOnesNibble(44, 0xfff_ffff_ffff);
    AllOnesNibble(48, 0xffff_ffff_ffff);
  }

  /** Masking with the complement of the page mask rounds down to a page boundary. */
  lemma {:induction false} MaskRoundsDown(x: u64)
    ensures BitAnd(x, BitNot(0xfff)) == x - x % 0x1000
  {
    var k := 0xf_ffff_ffff_ffff;
    AllOnes52();
    AndAllOnes(x / 16 / 16 / 16, 52);
    AndHighNibble(x / 16 / 16, k);
    AndHighNibble(x / 16, 16 * k);
    AndHighNibble(x, 256 * k);
    DivThrice(x);
  }

  lemma {:induction false} DivThrice(x: nat)
    ensures 16 * (16 * (16 * (x / 16 / 16 / 16))) == x - x % 0x1000
  {
    var a := x / 16;
    var b := a / 16;
    var c := b / 16;
    assert x == 16 * a + x % 16 && a == 16 * b + a % 16 && b == 16 * c + b % 16;
    RemainderIs(x, c, x % 16 + 16 * (a % 16) + 256 * (b % 16));
  }

  lemma {:induction false} RemainderIs(x: nat, q: nat, r: nat)
    requires x == 0x1000 * q + r && r < 0x1000
    ensures x % 0x1000 == r
  {
  }

  /** Masking with 0xff keeps the low byte. */
  lemma {:induction false} MaskLowByte(x: u64)
    ensures BitAnd(x, 0xff) == x % 0x100
  {
    AndLowNibble(x / 16, 0);
    AndLowNibble(x, 15);
    var hi, lo := x / 16, x % 16;
    assert hi == 16 * (hi / 16) + hi % 16;
    assert x == 0x100 * (hi / 16) + (16 * (hi % 16) + lo);
    DivModUnique(x, hi / 16, 16 * (hi % 16) + lo);
  }

  lemma {:induction false} DivModUnique(x: nat, q: nat, r: nat)
    requires x == 0x100 * q + r && r < 0x100
    ensures x % 0x100 == r
  {
  }
}

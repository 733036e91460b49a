/**
 * Fixed-width integer domains of the Rust crates and the casts between them.
 *
 * Dafny integers are unbounded, so every Rust `as` cast that truncates or
 * reinterprets bits is written out here once, and every other module uses
 * these definitions. Targets are assumed to be 64-bit (`usize` is 64 bits).
 */
module Ints {

  const TWO_7: int := 0x80
  const TWO_8: int := 0x100
  const TWO_15: int := 0x8000
  const TWO_16: int := 0x1_0000
  const TWO_31: int := 0x8000_0000
  const TWO_32: int := 0x1_0000_0000
  const TWO_56: int := 0x100_0000_0000_0000
  const TWO_63: int := 0x8000_0000_0000_0000
  const TWO_64: int := 0x1_0000_0000_0000_0000

  /** One octet of input (`u8`). */
  type Byte = b: int | 0 <= b < 0x100

  type I8 = x: int | -0x80 <= x < 0x80
  type I16 = x: int | -0x8000 <= x < 0x8000
  type I32 = x: int | -0x8000_0000 <= x < 0x8000_0000
  type I64 = x: int | -0x8000_0000_0000_0000 <= x < 0x8000_0000_0000_0000
  type U16 = x: int | 0 <= x < 0x1_0000
  type U32 = x: int | 0 <= x < 0x1_0000_0000
  type U64 = x: int | 0 <= x < 0x1_0000_0000_0000_0000

  /** 2^n. */
  function Pow2(n: nat): (r: nat)
    ensures r >= 1
  {
    if n == 0 then 1 else 2 * Pow2(n - 1)
  }

  /** Eight more bits multiply the range by 256. */
  lemma {:induction false} Pow2Plus8(n: nat)
    ensures Pow2(n + 8) == Pow2(n) * 256
  {
    if n > 0 {
      Pow2Plus8(n - 1);
    } else {
      assert Pow2(4) == 16;
    }
  }

  /** The powers the fixed-width readers use. */
  lemma Pow2Widths()
    ensures Pow2(8) == TWO_8 && Pow2(16) == TWO_16 && Pow2(32) == TWO_32 && Pow2(64) == TWO_64
  {
    Pow2Plus8(0);
    Pow2Plus8(8);
    Pow2Plus8(16);
    Pow2Plus8(24);
    Pow2Plus8(32);
    Pow2Plus8(40);
    Pow2Plus8(48);
    Pow2Plus8(56);
  }

  /** `a` and `b` agree modulo `m`: for a power of two, they have the same low bits. */
  predicate SameLowBits(a: int, b: int, m: int)
    requires m > 0
  {
    a % m == b % m
  }

  /** Rust `u as i64` on a `u64`: the same 64 bits read as two's complement. */
  function ToI64(u: U64): (r: I64)
    ensures r >= 0 <==> u < TWO_63
    ensures r == u || r == u - TWO_64
  {
    if u < TWO_63 then u else u - TWO_64
  }

  /** Rust `x as u64` (and `as usize` on a 64-bit target) on an `i64` or narrower signed value: sign extension, then the bits read as unsigned. */
  function AsUsize(x: I64): (r: U64)
    ensures ToI64(r) == x
    ensures x >= 0 ==> r == x
  {
    if x >= 0 then x else x + TWO_64
  }

  /** Rust `x as u32` on an `i32`: the same 32 bits read as unsigned. */
  function AsU32(x: I32): (r: U32)
    ensures x >= 0 ==> r == x
    ensures x < 0 ==> r == x + TWO_32
  {
    if x >= 0 then x else x + TWO_32
  }

  /** Rust `x as i32` on an `i64`: the low 32 bits read as two's complement. */
  function ToI32(x: I64): (r: I32)
    ensures SameLowBits(r, x, TWO_32)
    ensures -TWO_31 <= x < TWO_31 ==> r == x
  {
    var u := x % TWO_32;
    if u < TWO_31 then u else u - TWO_32
  }

  /** Rust `x as i16` on an `i64`: the low 16 bits read as two's complement. */
  function ToI16(x: I64): (r: I16)
    ensures SameLowBits(r, x, TWO_16)
    ensures -TWO_15 <= x < TWO_15 ==> r == x
  {
    var u := x % TWO_16;
    if u < TWO_15 then u else u - TWO_16
  }

  /** nom's `be_i8`: a byte read as two's complement. */
  function ToI8(b: Byte): (r: I8)
    ensures r >= 0 <==> b < TWO_7
    ensures r == b || r == b - TWO_8
  {
    if b < TWO_7 then b else b - TWO_8
  }

  /** Release-mode `i64` addition: the sum wraps modulo 2^64. */
  function WrappingAdd64(a: I64, b: I64): (r: I64)
    ensures SameLowBits(r, a + b, TWO_64)
    ensures -TWO_63 <= a + b < TWO_63 ==> r == a + b
  {
    var sum := a + b;
    if sum >= TWO_63 then sum - TWO_64 else if sum < -TWO_63 then sum + TWO_64 else sum
  }

  /** Release-mode `i64` subtraction: the difference wraps modulo 2^64. */
  function WrappingSub64(a: I64, b: I64): (r: I64)
    ensures SameLowBits(r, a - b, TWO_64)
    ensures -TWO_63 <= a - b < TWO_63 ==> r == a - b
  {
    var diff := a - b;
    if diff >= TWO_63 then diff - TWO_64 else if diff < -TWO_63 then diff + TWO_64 else diff
  }

  /** Integer division truncating toward zero, as Rust's `/` on signed integers. */
  function TruncDiv(a: int, b: int): (q: int)
    requires b > 0
    ensures a >= 0 ==> q == a / b
    ensures a < 0 ==> q == -((-a) / b)
    ensures q * b <= a < q * b + b || q * b - b < a <= q * b
  {
    if a >= 0 then a / b else -((-a) / b)
  }
}

/** Byte-level vocabulary shared by every layer: fixed-width integers, big-endian
    encodings, and the two result types used in place of Rust's Option and Result. */
module Basics {

  datatype Option<+T> = None | Some(value: T)

  type byte = x: int | 0 <= x < 256
  type u16 = x: int | 0 <= x < 0x1_0000
  type u32 = x: int | 0 <= x < 0x1_0000_0000

  const TWO31 := 0x8000_0000
  const TWO32 := 0x1_0000_0000
  /** `usize::MAX` on the 64-bit targets the tool is built for. */
  const USIZE_MAX := 0xffff_ffff_ffff_ffff

  /** Two's complement addition of 32-bit words: `u32::wrapping_add`. */
  function WrappingAdd(a: u32, n: int): u32 {
    (a + n) % TWO32
  }

  /** `a.wrapping_sub(b) as i32`: the signed distance from `b` to `a`. */
  function SignedDiff(a: u32, b: u32): (d: int)
    ensures -TWO31 <= d < TWO31
    ensures WrappingAdd(b, d) == a
  {
    var d: int := Distance(b, a);
    if d < TWO31 then d else d - TWO32
  }

  /** `to.wrapping_sub(from)`: the unsigned distance going forward. */
  function Distance(from: u32, to: u32): u32 {
    (to - from) % TWO32
  }

  /** A distance shorter than 2^31 in either direction survives the trip through 32 bits. */
  lemma SignedDiffOfShift(b: u32, d: int)
    requires -TWO31 <= d < TWO31
    ensures SignedDiff(WrappingAdd(b, d), b) == d
  {
  }

  lemma WrappingAddAssoc(a: u32, m: int, n: int)
    ensures WrappingAdd(WrappingAdd(a, m), n) == WrappingAdd(a, m + n)
  {
  }

  /** Moving toward a target shortens the distance to it. */
  lemma SignedDiffAdvance(target: u32, a: u32, n: nat)
    requires n <= SignedDiff(target, a)
    ensures SignedDiff(target, WrappingAdd(a, n)) == SignedDiff(target, a) - n
  {
    var d := SignedDiff(target, a);
    WrappingAddAssoc(a, n, d - n);
    SignedDiffOfShift(WrappingAdd(a, n), d - n);
  }

  function Pow2(n: nat): (p: nat)
    ensures p > 0
  {
    if n == 0 then 1 else 2 * Pow2(n - 1)
  }

  /** Is the bit of weight `m` (a power of two) set in `x`? */
  predicate Bit(x: nat, m: nat)
    requires m > 0
  {
    (x / m) % 2 == 1
  }

  function Be16(b: seq<byte>, i: nat): u16
    requires i + 2 <= |b|
  {
    b[i] as int * 0x100 + b[i + 1] as int
  }

  function Be32(b: seq<byte>, i: nat): u32
    requires i + 4 <= |b|
  {
    b[i] as int * 0x100_0000 + b[i + 1] as int * 0x1_0000 + b[i + 2] as int * 0x100 + b[i + 3] as int
  }

  function Enc16(n: nat): (b: seq<byte>)
    ensures |b| == 2
    ensures n < 0x1_0000 ==> Be16(b, 0) == n
  {
    [n / 0x100 % 0x100, n % 0x100]
  }

  function Enc32(n: nat): (b: seq<byte>)
    ensures |b| == 4
    ensures n < TWO32 ==> Be32(b, 0) == n
  {
    [n / 0x100_0000 % 0x100, n / 0x1_0000 % 0x100, n / 0x100 % 0x100, n % 0x100]
  }

  lemma {:induction false} MulMod(q: nat, m: nat, v: nat)
    requires v < m
    ensures (q * m + v) % m == v
  {
    if q > 0 {
      MulMod(q - 1, m, v);
      var x := (q - 1) * m + v;
      assert q * m + v == x + m;
      AddMod(x, m);
    }
  }

  lemma AddMod(x: nat, m: nat)
    requires m > 0
    ensures (x + m) % m == x % m
  {
    var q, q' := x / m, (x + m) / m;
    var r, r' := x % m, (x + m) % m;
    assert r' - r == (q + 1 - q') * m;
    NoMultipleBetween(q + 1 - q', m);
  }

  lemma NoMultipleBetween(k: int, m: int)
    requires -m < k * m < m
    ensures k == 0
  {
  }
}

/** Shared vocabulary: results, fixed-width integers and a few sequence helpers. */
module Prelude {
  datatype Option<+T> = None | Some(value: T)

  datatype Result<+T, +E> = Ok(value: T) | Err(error: E)

  type byte = x: int | 0 <= x < 256

  type u16 = x: int | 0 <= x < 0x1_0000

  type u32 = x: int | 0 <= x < 0x1_0000_0000

  type u64 = x: int | 0 <= x < 0x1_0000_0000_0000_0000

  function Min(a: int, b: int): (m: int)
    ensures m <= a && m <= b && (m == a || m == b)
  {
    if a <= b then a else b
  }

  function Max(a: int, b: int): (m: int)
    ensures a <= m && b <= m && (m == a || m == b)
  {
    if a <= b then b else a
  }

  /** Rust's `div_ceil`: the least q with n <= q * d. */
  function DivCeil(n: nat, d: nat): (q: nat)
    requires d > 0
  {
    if n % d == 0 then n / d else n / d + 1
  }

  function Zeros(n: nat): (z: seq<byte>)
    ensures |z| == n
    ensures forall i :: 0 <= i < n ==> z[i] == 0
  {
    seq(n, _ => 0)
  }

  /** Little-endian encoding in w bytes; higher bytes of n are cut off, as by a narrowing cast. */
  function LittleEndian(n: nat, w: nat): (s: seq<byte>)
    ensures |s| == w
  {
    if w == 0 then [] else [n % 256] + LittleEndian(n / 256, w - 1)
  }

  function FromLittleEndian(s: seq<byte>): (n: nat)
  {
    if s == [] then 0 else s[0] + 256 * FromLittleEndian(s[1..])
  }

  /** n fits in w bytes. */
  predicate Fits(n: nat, w: nat) {
    if w == 0 then n == 0 else Fits(n / 256, w - 1)
  }

  lemma {:induction false} LittleEndianRoundTrip(n: nat, w: nat)
    requires Fits(n, w)
    ensures FromLittleEndian(LittleEndian(n, w)) == n
  {
    if w > 0 {
      LittleEndianRoundTrip(n / 256, w - 1);
      assert LittleEndian(n, w)[1..] == LittleEndian(n / 256, w - 1);
    }
  }

  lemma FitsU16(n: u16)
    ensures Fits(n, 2)
  {
    assert Fits(n / 256, 1);
  }

  lemma FitsU32(n: u32)
    ensures Fits(n, 4)
  {
    FitsU16(n / 0x1_0000);
    assert Fits(n / 256, 3);
  }

  lemma FitsU64(n: u64)
    ensures Fits(n, 8)
  {
    FitsU32(n / 0x1_0000_0000);
    var m := n / 0x1_0000;
    assert m / 0x1_0000 == n / 0x1_0000_0000;
    assert Fits(m / 256, 5);
    assert Fits(m, 6);
    assert Fits(n / 256, 7);
  }
}

/** Byte strings, fixed-width little-endian integers, and the two result types used everywhere. */
module Bytes {

  type byte = b: int | 0 <= b < 256
  type bytes = seq<byte>
  type u32 = n: int | 0 <= n < 0x1_0000_0000
  type u64 = n: int | 0 <= n < 0x1_0000_0000_0000_0000

  const U64_LIMIT: nat := 0x1_0000_0000_0000_0000

  datatype Option<+T> = None | Some(value: T)

  datatype Result<+T, +E> = Ok(value: T) | Err(error: E)

  /** Rust's `as u16` and `as u32` keep the low bits. */
  function AsU16(n: nat): nat { n % 0x1_0000 }

  function AsU32(n: nat): u32 { n % 0x1_0000_0000 }

  /** The low `k` bytes of `n`, least significant first. */
  function LE(n: nat, k: nat): (r: bytes)
    ensures |r| == k
    decreases k
  {
    if k == 0 then [] else [n % 256] + LE(n / 256, k - 1)
  }

  function FromLE(b: bytes): (n: nat)
    ensures n < Pow256(|b|)
    decreases |b|
  {
    if b == [] then 0 else b[0] + 256 * FromLE(b[1..])
  }

  function Pow256(k: nat): (p: nat)
    ensures 0 < p
  {
    if k == 0 then 1 else 256 * Pow256(k - 1)
  }

  lemma Widths()
    ensures Pow256(U16_BYTES) == 0x1_0000 && Pow256(U32_BYTES) == 0x1_0000_0000
  {
    assert Pow256(1) == 256;
    assert Pow256(2) == 0x1_0000;
    assert Pow256(3) == 0x100_0000;
  }

  lemma {:induction false} FromLEInverse(n: nat, k: nat)
    requires n < Pow256(k)
    ensures FromLE(LE(n, k)) == n
    decreases k
  {
    if k > 0 {
      var r := LE(n, k);
      assert r[1..] == LE(n / 256, k - 1);
      FromLEInverse(n / 256, k - 1);
    }
  }

  lemma {:induction false} LEInverse(b: bytes)
    ensures LE(FromLE(b), |b|) == b
    decreases |b|
  {
    if b != [] {
      LEInverse(b[1..]);
      assert FromLE(b) % 256 == b[0] && FromLE(b) / 256 == FromLE(b[1..]);
      assert b == [b[0]] + b[1..];
    }
  }

  // Named, so that the verifier does not unroll `LE` and `FromLE` wherever they appear.
  const U16_BYTES: nat := 2
  const U32_BYTES: nat := 4

  function LE16(n: nat): (r: bytes)
    requires n < 0x1_0000
    ensures |r| == 2
  {
    LE(n, U16_BYTES)
  }

  function LE32(n: u32): (r: bytes)
    ensures |r| == 4
  {
    LE(n, U32_BYTES)
  }

  function U16(b: bytes): (n: nat)
    requires |b| == 2
    ensures n <= 0xFFFF
  {
    Widths();
    FromLE(b)
  }

  function U32(b: bytes): u32
    requires |b| == 4
  {
    Widths();
    FromLE(b)
  }

  lemma LE16Inverse(n: nat)
    requires n < 0x1_0000
    ensures U16(LE16(n)) == n
  {
    Widths();
    FromLEInverse(n, U16_BYTES);
  }

  lemma LE32Inverse(n: u32)
    ensures U32(LE32(n)) == n
  {
    Widths();
    FromLEInverse(n, U32_BYTES);
  }

  lemma U16Inverse(b: bytes)
    requires |b| == 2
    ensures LE16(U16(b)) == b
  {
    LEInverse(b);
  }

  lemma U32Inverse(b: bytes)
    requires |b| == 4
    ensures LE32(U32(b)) == b
  {
    LEInverse(b);
  }

  /** Little-endian, spelled out. */
  function Quad(a: nat, b: nat, c: nat, d: nat): nat { a + 0x100 * b + 0x1_0000 * c + 0x100_0000 * d }

  lemma FourBytes(b: bytes)
    requires |b| == 4
    ensures U32(b) == Quad(b[0], b[1], b[2], b[3])
  {
    assert b[1..][1..] == b[2..] && b[2..][1..] == b[3..] && b[3..][1..] == [];
    assert FromLE(b[3..]) == b[3] + 256 * FromLE([]);
    assert FromLE(b[2..]) == b[2] + 256 * FromLE(b[3..]);
    assert FromLE(b[1..]) == b[1] + 256 * FromLE(b[2..]);
  }

  lemma TwoBytes(b: bytes)
    requires |b| == 2
    ensures U16(b) == Quad(b[0], b[1], 0, 0)
  {
    assert b[1..][1..] == [];
    assert FromLE(b[1..]) == b[1] + 256 * FromLE([]);
  }
}

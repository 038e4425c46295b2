/** Fixed-width integers and their little-endian byte images, as produced by
    Rust's `to_le_bytes` / `from_le_bytes` and by reading a `repr(C, packed)`
    struct out of a byte buffer on a little-endian machine. */
module Bytes {

  const TWO_32: int := 0x1_0000_0000
  const TWO_63: int := 0x8000_0000_0000_0000
  const TWO_64: int := 0x1_0000_0000_0000_0000

  type U32 = x: int | 0 <= x < 0x1_0000_0000
  type U64 = x: int | 0 <= x < 0x1_0000_0000_0000_0000
  type I32 = x: int | -0x8000_0000 <= x < 0x8000_0000
  type I64 = x: int | -0x8000_0000_0000_0000 <= x < 0x8000_0000_0000_0000

  /** One byte of memory, `u8` in the source. */
  type byte = x: int | 0 <= x < 256

  /** 256 to the power n: the number of values an n-byte field can hold. */
  function Pow256(n: nat): (r: nat)
    ensures r >= 1
  {
    if n == 0 then 1 else 256 * Pow256(n - 1)
  }

  lemma Pow256Widths()
    ensures Pow256(4) == TWO_32 && Pow256(8) == TWO_64
  {
  }

  /** The unsigned value of a little-endian byte string (least significant byte first). */
  function LeValue(bs: seq<byte>): (r: nat)
    ensures r < Pow256(|bs|)
  {
    if bs == [] then 0 else bs[0] + 256 * LeValue(bs[1..])
  }

  /** The n-byte little-endian image of x. */
  function LeBytes(x: nat, n: nat): (r: seq<byte>)
    requires x < Pow256(n)
    ensures |r| == n
  {
    if n == 0 then [] else [x % 256] + LeBytes(x / 256, n - 1)
  }

  /** Rust's `u32::from_le_bytes`. */
  function LeU32(bs: seq<byte>): (r: U32)
    requires |bs| == 4
    ensures r == LeValue(bs)
  {
    Pow256Widths();
    LeValue(bs)
  }

  /** Rust's `u64::from_le_bytes`. */
  function LeU64(bs: seq<byte>): (r: U64)
    requires |bs| == 8
    ensures r == LeValue(bs)
  {
    Pow256Widths();
    LeValue(bs)
  }

  /** Rust's `u32::to_le_bytes`. */
  function U32Bytes(x: U32): (r: seq<byte>)
    ensures |r| == 4 && LeValue(r) == x
  {
    Pow256Widths();
    LeValueOfLeBytes(x, 4);
    LeBytes(x, 4)
  }

  /** Rust's `u64::to_le_bytes`. */
  function U64Bytes(x: U64): (r: seq<byte>)
    ensures |r| == 8 && LeValue(r) == x
  {
    Pow256Widths();
    LeValueOfLeBytes(x, 8);
    LeBytes(x, 8)
  }

  /** Reading back an image gives the value that was written. */
  lemma {:induction false} LeValueOfLeBytes(x: nat, n: nat)
    requires x < Pow256(n)
    ensures LeValue(LeBytes(x, n)) == x
  {
    if n > 0 {
      LeValueOfLeBytes(x / 256, n - 1);
      var bs := LeBytes(x, n);
      assert bs[1..] == LeBytes(x / 256, n - 1);
    }
  }

  /** Writing back a value read from bytes reproduces those bytes. */
  lemma {:induction false} LeBytesOfLeValue(bs: seq<byte>)
    ensures LeBytes(LeValue(bs), |bs|) == bs
  {
    if bs != [] {
      LeBytesOfLeValue(bs[1..]);
      var v := LeValue(bs);
      assert v % 256 == bs[0];
      assert v / 256 == LeValue(bs[1..]);
    }
  }

  /** Two images of the same width are equal exactly when their values are. */
  lemma LeValueInjective(a: seq<byte>, b: seq<byte>)
    requires |a| == |b| && LeValue(a) == LeValue(b)
    ensures a == b
  {
    LeBytesOfLeValue(a);
    LeBytesOfLeValue(b);
  }

  /** The value of a concatenation: the second part is shifted by the width of the first. */
  lemma {:induction false} LeValueAppend(a: seq<byte>, b: seq<byte>)
    ensures LeValue(a + b) == LeValue(a) + Pow256(|a|) * LeValue(b)
  {
    if a == [] {
      assert a + b == b;
    } else {
      assert (a + b)[1..] == a[1..] + b;
      LeValueAppend(a[1..], b);
      var p, x, y := Pow256(|a| - 1), LeValue(a[1..]), LeValue(b);
      var py := p * y;
      assert LeValue(a + b) == a[0] + 256 * x + 256 * py;
      ShiftByte(p, y);
      assert Pow256(|a|) == 256 * p;
      assert LeValue(a) == a[0] + 256 * x;
    }
  }

  lemma ShiftByte(p: nat, y: nat)
    ensures 256 * (p * y) == (256 * p) * y
  {
  }

  /** The low four bytes of an 8-byte image hold the value modulo 2^32: on a
      little-endian machine the `u32` view of a `u64` is its truncation. */
  lemma LowHalf(bs: seq<byte>)
    requires |bs| == 8
    ensures LeValue(bs[..4]) == LeValue(bs) % TWO_32
  {
    assert bs == bs[..4] + bs[4..];
    LeValueAppend(bs[..4], bs[4..]);
    Pow256Widths();
  }

  /** A `u64` bit pattern read as an `i64` (two's complement). */
  function AsI64(u: U64): (r: I64)
    ensures r >= 0 <==> u < TWO_63
    ensures (r - u) % TWO_64 == 0
  {
    if u < TWO_63 then u else u - TWO_64
  }

  /** An `i64` written as its `u64` bit pattern. */
  function AsU64(i: I64): (r: U64)
    ensures AsI64(r) == i
  {
    if i < 0 then i + TWO_64 else i
  }
}

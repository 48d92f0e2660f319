/**
 * Fixed-width unsigned integers and their little-endian byte encodings
 * (`to_le_bytes` / `from_le_bytes`), shared by the log and the table formats.
 */
module Bytes {

  type byte = b: int | 0 <= b < 0x100

  const U32_LIMIT: nat := 0x1_0000_0000
  const U64_LIMIT: nat := 0x1_0000_0000_0000_0000
  const U128_LIMIT: nat := 0x1_0000_0000_0000_0000_0000_0000_0000_0000

  type u32 = x: nat | x < 0x1_0000_0000
  type u64 = x: nat | x < 0x1_0000_0000_0000_0000
  type u128 = x: nat | x < 0x1_0000_0000_0000_0000_0000_0000_0000_0000

  /** Width of a `u128` timestamp: the log writes 16 bytes and `size` charges 16. */
  const TIMESTAMP_SIZE: nat := 16

  /** A `Vec<u8>` or `&[u8]`: its length is a 64-bit `usize`. */
  type Bytes = s: seq<byte> | |s| < 0x1_0000_0000_0000_0000

  /** 256 to the power `n`: one more than the largest value `n` bytes hold. */
  function Pow256(n: nat): (p: nat)
    ensures p > 0
  {
    if n == 0 then 1 else 0x100 * Pow256(n - 1)
  }

  lemma Pow256Widths()
    ensures Pow256(4) == U32_LIMIT
    ensures Pow256(8) == U64_LIMIT
    ensures Pow256(16) == U128_LIMIT
  {
  }

  /** The `n` low bytes of `x`, least significant first (`(x as uN).to_le_bytes()`). */
  function ToLE(x: nat, n: nat): (r: seq<byte>)
    ensures |r| == n
  {
    if n == 0 then [] else [x % 0x100] + ToLE(x / 0x100, n - 1)
  }

  /** The value of a little-endian byte string (`uN::from_le_bytes`). */
  function FromLE(bs: seq<byte>): (x: nat)
    ensures x < Pow256(|bs|)
  {
    if bs == [] then 0 else bs[0] + 0x100 * FromLE(bs[1..])
  }

  /** Decoding undoes encoding for every value that fits in `n` bytes. */
  lemma {:induction false} FromToLE(x: nat, n: nat)
    requires x < Pow256(n)
    ensures FromLE(ToLE(x, n)) == x
  {
    if n > 0 {
      FromToLE(x / 0x100, n - 1);
    }
  }

  /** Concatenation regrouped, for the layouts built field by field. */
  lemma ConcatAssoc(a: seq<byte>, b: seq<byte>, c: seq<byte>)
    ensures (a + b) + c == a + (b + c)
  {
  }

  /** `n` zero bytes, the initial contents of a `[0; n]` buffer. */
  function Zeros(n: nat): (r: seq<byte>)
    ensures |r| == n && forall i :: 0 <= i < n ==> r[i] == 0
  {
    seq(n, _ => 0)
  }

  /** A buffer of `n` zero bytes into which the bytes of `read` (at most `n`) were copied. */
  function ZeroPadded(read: seq<byte>, n: nat): (r: seq<byte>)
    requires |read| <= n
    ensures |r| == n && r[..|read|] == read
  {
    read + Zeros(n - |read|)
  }

  /** The bytes of an ASCII string literal, as Rust's `b"..."` gives them. */
  function Ascii(s: string): (r: seq<byte>)
    requires forall i :: 0 <= i < |s| ==> s[i] as int < 0x80
    ensures |r| == |s| && forall i :: 0 <= i < |s| ==> r[i] == s[i] as int
  {
    seq(|s|, i requires 0 <= i < |s| => s[i] as int)
  }

}

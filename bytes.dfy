/**
 * Bytes as a Node.js Buffer holds them, little-endian integers as
 * `BN(buf, "le")` and `BN.toArray("le", n)` read and write them, and the
 * clamping `Buffer.slice`.
 */
module Bytes {

  /** One octet of a Buffer. */
  type byte = b: int | 0 <= b < 256

  /** A 32-byte public key or program-derived address, as `PublicKey.toBuffer()` gives it. */
  type PublicKey = s: seq<byte> | |s| == 32 witness seq(32, _ => 0)

  /** 256 to the power n: the number of values n bytes can hold. */
  function Pow256(n: nat): (r: nat)
    ensures r >= 1
  {
    if n == 0 then 1 else 256 * Pow256(n - 1)
  }

  const U32_LIMIT: nat := 0x1_0000_0000
  const U64_LIMIT: nat := 0x1_0000_0000_0000_0000

  lemma Pow256Constants()
    ensures Pow256(4) == U32_LIMIT && Pow256(8) == U64_LIMIT
  {
  }

  /** The little-endian value of a byte string, as `new BN(buf, "le")` reads it; an empty string is 0. */
  function LeValue(s: seq<byte>): (r: nat)
    ensures r < Pow256(|s|)
  {
    if s == [] then 0 else s[0] + 256 * LeValue(s[1..])
  }

  /** The n low-order bytes of v, least significant first: `BN.toArray("le", n)` for a v that fits. */
  function LeBytes(v: nat, n: nat): (r: seq<byte>)
    ensures |r| == n
  {
    if n == 0 then [] else [v % 256] + LeBytes(v / 256, n - 1)
  }

  /** Writing a value that fits into n bytes and reading it back gives the value. */
  lemma {:induction false} LeValueOfLeBytes(v: nat, n: nat)
    requires v < Pow256(n)
    ensures LeValue(LeBytes(v, n)) == v
  {
    if n > 0 {
      assert v / 256 < Pow256(n - 1);
      LeValueOfLeBytes(v / 256, n - 1);
      var r := LeBytes(v, n);
      assert r[0] == v % 256 && r[1..] == LeBytes(v / 256, n - 1);
    }
  }

  /**
   * Reading at most n bytes and writing the value back into n bytes gives
   * those bytes followed by zero padding.
   */
  lemma {:induction false} LeBytesOfLeValue(s: seq<byte>, n: nat)
    requires |s| <= n
    ensures LeBytes(LeValue(s), n) == s + seq(n - |s|, _ => 0)
  {
    if n > 0 {
      if s == [] {
        LeBytesOfLeValue([], n - 1);
        assert LeBytes(0, n) == [0] + LeBytes(0, n - 1);
      } else {
        var v := LeValue(s);
        assert v == s[0] + 256 * LeValue(s[1..]);
        assert v % 256 == s[0] && v / 256 == LeValue(s[1..]);
        LeBytesOfLeValue(s[1..], n - 1);
        assert LeBytes(v, n) == [s[0]] + (s[1..] + seq(n - |s|, _ => 0));
        assert s == [s[0]] + s[1..];
      }
    }
  }

  /** Reading exactly n bytes and writing the value back into n bytes is the identity. */
  lemma LeBytesOfLeValueExact(s: seq<byte>)
    ensures LeBytes(LeValue(s), |s|) == s
  {
    LeBytesOfLeValue(s, |s|);
    assert s + seq(0, _ => 0) == s;
  }

  /**
   * `Buffer.slice(start, end)`: both bounds are clamped to the buffer's
   * length and an end before the start gives an empty buffer; it never throws.
   */
  function Slice(data: seq<byte>, start: nat, end: nat): (r: seq<byte>)
    ensures start <= end <= |data| ==> r == data[start..end]
    ensures |r| == if end <= start || |data| <= start then 0
                   else if end <= |data| then end - start else |data| - start
  {
    var a := if start < |data| then start else |data|;
    var b := if end < a then a else if end < |data| then end else |data|;
    data[a..b]
  }
}

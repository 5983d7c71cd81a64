/** Bytes and the fixed-width integer layouts the program relies on. */
module Bytes {

  type byte = b: int | 0 <= b < 256

  function Pow256(n: nat): (p: nat)
    ensures p > 0
  {
    if n == 0 then 1 else 256 * Pow256(n - 1)
  }

  /** The integer whose big-endian bytes are `bs`. */
  function BigEndian(bs: seq<byte>): nat {
    if |bs| == 0 then 0 else 256 * BigEndian(bs[..|bs| - 1]) + bs[|bs| - 1]
  }

  /** The integer whose little-endian bytes are `bs`. */
  function LittleEndian(bs: seq<byte>): nat {
    if |bs| == 0 then 0 else bs[0] + 256 * LittleEndian(bs[1..])
  }

  /** The `width` little-endian bytes of `n`; higher bytes are dropped. */
  function ToLittleEndian(n: nat, width: nat): (bs: seq<byte>)
    ensures |bs| == width
  {
    if width == 0 then [] else [n % 256] + ToLittleEndian(n / 256, width - 1)
  }

  lemma {:induction false} LittleEndianRoundTrip(n: nat, width: nat)
    requires n < Pow256(width)
    ensures LittleEndian(ToLittleEndian(n, width)) == n
  {
    if width > 0 {
      assert n / 256 < Pow256(width - 1);
      LittleEndianRoundTrip(n / 256, width - 1);
    }
  }

  lemma {:induction false} LittleEndianInverse(bs: seq<byte>)
    ensures ToLittleEndian(LittleEndian(bs), |bs|) == bs
    ensures LittleEndian(bs) < Pow256(|bs|)
  {
    if |bs| > 0 {
      var n, rest := LittleEndian(bs), LittleEndian(bs[1..]);
      LittleEndianInverse(bs[1..]);
      assert n == bs[0] + 256 * rest && Pow256(|bs|) == 256 * Pow256(|bs| - 1);
      assert ToLittleEndian(n, |bs|) == [n % 256] + ToLittleEndian(n / 256, |bs| - 1);
      hide LittleEndian, ToLittleEndian, Pow256;
      LowDigit(rest, bs[0]);
      assert bs == [bs[0]] + bs[1..];
    }
  }

  lemma LowDigit(n: nat, low: byte)
    ensures (low + 256 * n) % 256 == low && (low + 256 * n) / 256 == n
  {
  }

  /** Byte `i` of the layout is the digit of weight 256^i: the least significant byte comes first. */
  lemma {:induction false} LittleEndianByte(n: nat, width: nat, i: nat)
    requires i < width
    ensures ToLittleEndian(n, width)[i] == n / Pow256(i) % 256
  {
    if i > 0 {
      LittleEndianByte(n / 256, width - 1, i - 1);
      DropByte(n / 256, n % 256, Pow256(i - 1));
    }
  }

  lemma QuotientUnique(n: int, d: int, k: int)
    requires d > 0 && k * d <= n < k * d + d
    ensures n / d == k
  {
    var q, r := n / d, n % d;
    assert n == q * d + r;
    assert (q - k) * d == (n - k * d) - r;
    assert -d < (q - k) * d < d;
    BelowOne(q - k, d);
    BelowOne(k - q, d);
  }

  lemma BelowOne(a: int, d: int)
    requires d > 0 && a * d < d
    ensures a < 1
  {
  }

  lemma DropByte(hi: nat, lo: byte, d: nat)
    requires d > 0
    ensures (256 * hi + lo) / (256 * d) == hi / d
  {
    var q, r := hi / d, hi % d;
    assert hi == q * d + r;
    assert 256 * hi + lo == q * (256 * d) + (256 * r + lo);
    QuotientUnique(256 * hi + lo, 256 * d, q);
  }

  lemma {:induction false} BigEndianBound(bs: seq<byte>)
    ensures BigEndian(bs) < Pow256(|bs|)
  {
    if |bs| > 0 {
      BigEndianBound(bs[..|bs| - 1]);
    }
  }
}

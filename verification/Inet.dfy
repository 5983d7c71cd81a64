/** The DuckDB INET cell: an address becomes sixteen little-endian bytes of a signed 128-bit integer. */
module Inet {
  import opened Bytes
  import opened Mrt

  datatype InetVal = InetVal(ipType: byte, addressLe: seq<byte>, mask: nat)

  const IP_TYPE_V4: byte := 1
  const IP_TYPE_V6: byte := 2

  function Pow2(n: nat): (p: nat)
    ensures p > 0
  {
    if n == 0 then 1 else 2 * Pow2(n - 1)
  }

  /** Exclusive-or of an unsigned 128-bit value with its top bit. */
  function FlipTopBit(v: nat): nat
    requires v < Pow2(128)
  {
    if v >= Pow2(127) then v - Pow2(127) else v + Pow2(127)
  }

  lemma {:induction false} Pow256IsPow2(n: nat)
    ensures Pow256(n) == Pow2(8 * n)
  {
    if n > 0 {
      Pow256IsPow2(n - 1);
      Pow2Sum(8, 8 * (n - 1));
      assert Pow2(8) == 256;
    }
  }

  lemma {:induction false} Pow2Sum(a: nat, b: nat)
    ensures Pow2(a + b) == Pow2(a) * Pow2(b)
  {
    if a > 0 {
      Pow2Sum(a - 1, b);
      assert Pow2(a + b) == 2 * Pow2(a - 1 + b) && Pow2(a) == 2 * Pow2(a - 1);
      hide Pow2;
      DoubleProduct(Pow2(a - 1), Pow2(b));
    }
  }

  lemma DoubleProduct(x: nat, y: nat)
    ensures 2 * (x * y) == (2 * x) * y
  {
  }

  lemma OctetsBound(octets: seq<byte>)
    ensures BigEndian(octets) < Pow2(8 * |octets|)
  {
    BigEndianBound(octets);
    Pow256IsPow2(|octets|);
  }

  function Octets(ip: IpAddr): seq<byte> {
    match ip
    case V4(o) => o
    case V6(o) => o
  }

  /** The encoding of an address and a prefix length. */
  function Encode(ip: IpAddr, mask: nat): InetVal {
    match ip
    case V4(octets) => InetVal(IP_TYPE_V4, ToLittleEndian(BigEndian(octets), 16), mask)
    case V6(octets) =>
      OctetsBound(octets);
      InetVal(IP_TYPE_V6, ToLittleEndian(FlipTopBit(BigEndian(octets)), 16), mask)
  }

  /** A bare address is a prefix of full width. */
  function EncodeIp(ip: IpAddr): InetVal {
    Encode(ip, if ip.V4? then 32 else 128)
  }

  /** The signed 128-bit integer DuckDB reads from sixteen little-endian bytes. */
  function HugeInt(bytes: seq<byte>): int
    requires |bytes| == 16
  {
    var v := LittleEndian(bytes);
    if v >= Pow2(127) then v - Pow2(128) else v
  }

  lemma DoublePow2(n: nat)
    ensures Pow2(n + 1) == 2 * Pow2(n)
  {
  }

  lemma BelowProduct(a: nat, b: nat)
    requires b > 0
    ensures a <= b * a
  {
  }

  lemma Widths()
    ensures Pow2(8 * 4) <= Pow2(127) && Pow2(8 * 16) == Pow2(128) == 2 * Pow2(127) == Pow256(16)
  {
    hide Pow2, Pow256;
    Pow2Sum(95, 32);
    Pow256IsPow2(16);
    DoublePow2(127);
    BelowProduct(Pow2(32), Pow2(95));
  }

  /** What is stored: for IPv4 the address itself, for IPv6 the address less 2^127. */
  lemma EncodedValue(ip: IpAddr, mask: nat)
    ensures var v := Encode(ip, mask);
            |v.addressLe| == 16 && v.mask == mask && v.ipType == (if ip.V4? then 1 else 2) &&
            HugeInt(v.addressLe) == BigEndian(Octets(ip)) - if ip.V4? then 0 else Pow2(127)
  {
    hide Pow2, Pow256, LittleEndian, ToLittleEndian, BigEndian;
    OctetsBound(Octets(ip));
    Widths();
    LittleEndianRoundTrip(if ip.V4? then BigEndian(ip.octets4) else FlipTopBit(BigEndian(ip.octets16)), 16);
  }

  /** The address as an integer, as DuckDB stores it. */
  ghost function Stored(ip: IpAddr): int {
    EncodedValue(ip, 0);
    HugeInt(Encode(ip, 0).addressLe)
  }

  // ----- Order and injectivity -----

  /** Octet-wise lexicographic order. */
  predicate OctetsBelow(a: seq<byte>, b: seq<byte>)
    requires |a| == |b|
  {
    |a| > 0 && (a[0] < b[0] || (a[0] == b[0] && OctetsBelow(a[1..], b[1..])))
  }

  lemma MoveFactor(a: nat, b: nat, c: nat)
    ensures 256 * (a * b + c) == a * (256 * b) + 256 * c
  {
  }

  lemma {:induction false} BigEndianHead(o: seq<byte>)
    requires |o| > 0
    ensures BigEndian(o) == o[0] * Pow256(|o| - 1) + BigEndian(o[1..])
  {
    if |o| > 1 {
      var init := o[..|o| - 1];
      BigEndianHead(init);
      assert o[1..][..|o| - 2] == init[1..];
      MoveFactor(o[0], Pow256(|o| - 2), BigEndian(init[1..]));
    }
  }

  lemma {:induction false} OrderIsIntegerOrder(a: seq<byte>, b: seq<byte>)
    requires |a| == |b|
    ensures OctetsBelow(a, b) <==> BigEndian(a) < BigEndian(b)
    ensures BigEndian(a) == BigEndian(b) <==> a == b
  {
    if |a| > 0 {
      OrderIsIntegerOrder(a[1..], b[1..]);
      BigEndianHead(a);
      BigEndianHead(b);
      BigEndianBound(a[1..]);
      BigEndianBound(b[1..]);
      HeadDecides(a[0], b[0], Pow256(|a| - 1), BigEndian(a[1..]), BigEndian(b[1..]));
      assert a == [a[0]] + a[1..] && b == [b[0]] + b[1..];
    } else {
      assert a == b;
    }
  }

  lemma HeadDecides(x: nat, y: nat, unit: nat, r: nat, s: nat)
    requires r < unit && s < unit
    ensures x < y ==> x * unit + r < y * unit + s
    ensures x > y ==> x * unit + r > y * unit + s
  {
    if x < y {
      assert (x + 1) * unit <= y * unit;
      assert (x + 1) * unit == x * unit + unit;
    } else if x > y {
      assert (y + 1) * unit <= x * unit;
      assert (y + 1) * unit == y * unit + unit;
    }
  }

  /** Within a family the stored integers are ordered as the addresses are, octet by octet; so the
      encoding is injective, family and address together. */
  lemma StoredOrder(p: IpAddr, q: IpAddr)
    requires p.V4? <==> q.V4?
    ensures Stored(p) < Stored(q) <==> OctetsBelow(Octets(p), Octets(q))
    ensures Encode(p, 0) == Encode(q, 0) <==> p == q
  {
    EncodedValue(p, 0);
    EncodedValue(q, 0);
    OrderIsIntegerOrder(Octets(p), Octets(q));
  }

  lemma EncodeInjective(p: IpAddr, m: nat, q: IpAddr, n: nat)
    requires Encode(p, m) == Encode(q, n)
    ensures p == q && m == n
  {
    EncodedValue(p, m);
    EncodedValue(q, n);
    if p.V4? <==> q.V4? {
      OrderIsIntegerOrder(Octets(p), Octets(q));
    }
  }

  // ----- Prefixes are intervals -----

  /** Bit `j` of an address, from its most significant bit. */
  function Bit(o: seq<byte>, j: nat): nat
    requires j < 8 * |o|
  {
    (o[j / 8] / Pow2(7 - j % 8)) % 2
  }

  ghost predicate SharePrefix(p: seq<byte>, q: seq<byte>, m: nat)
    requires |p| == |q| && m <= 8 * |p|
  {
    forall j :: 0 <= j < m ==> Bit(p, j) == Bit(q, j)
  }

  lemma LowBit(hi: nat, lo: byte, t: nat)
    requires t < 8
    ensures ((256 * hi + lo) / Pow2(t)) % 2 == (lo / Pow2(t)) % 2
  {
    ByteSplit(t);
    hide Pow2;
    SameParity(hi, lo, Pow2(7 - t), Pow2(t));
  }

  lemma SameParity(hi: nat, lo: nat, half: nat, d: nat)
    requires d > 0 && 2 * half * d == 256
    ensures ((256 * hi + lo) / d) % 2 == (lo / d) % 2
  {
    var q := lo / d;
    ShiftBlock(hi, half, d, q);
    Quotient(256 * hi, lo, d, 2 * (hi * half));
    EvenShift(hi * half, q);
  }

  lemma EvenShift(b: nat, q: nat)
    ensures (2 * b + q) % 2 == q % 2
  {
  }

  /** Adding a multiple of `d` adds to the quotient. */
  lemma Quotient(multiple: nat, lo: nat, d: nat, times: nat)
    requires d > 0 && (times + lo / d) * d == multiple + (lo / d) * d
    ensures (multiple + lo) / d == times + lo / d
  {
    assert lo == (lo / d) * d + lo % d;
    QuotientUnique(multiple + lo, d, times + lo / d);
  }

  lemma ByteSplit(t: nat)
    requires t < 8
    ensures 2 * Pow2(7 - t) * Pow2(t) == 256
  {
    Pow2Sum(8 - t, t);
    assert Pow2(8) == 256;
  }

  lemma ShiftBlock(hi: nat, half: nat, d: nat, q: nat)
    requires 2 * half * d == 256
    ensures (2 * (hi * half) + q) * d == 256 * hi + q * d
  {
    assert (2 * (hi * half)) * d == hi * (2 * half * d);
  }

  lemma {:induction false} BitOfInteger(o: seq<byte>, j: nat)
    requires j < 8 * |o|
    ensures Bit(o, j) == (BigEndian(o) / Pow2(8 * |o| - 1 - j)) % 2
  {
    var n := |o|;
    var init, last := o[..n - 1], o[n - 1];
    if j < 8 * (n - 1) {
      BitOfInteger(init, j);
      Pow2Sum(8, 8 * (n - 1) - 1 - j);
      assert Pow2(8) == 256;
      DropByte(BigEndian(init), last, Pow2(8 * (n - 1) - 1 - j));
    } else {
      var t := 7 - j % 8;
      assert 8 * n - 1 - j == t && j / 8 == n - 1;
      LowBit(BigEndian(init), last, t);
    }
  }

  lemma HalveQuotient(v: nat, d: nat)
    requires d > 0
    ensures v / d == 2 * (v / (2 * d)) + (v / d) % 2
  {
    var q, r := v / (2 * d), v % (2 * d);
    assert v == q * (2 * d) + r;
    if r < d {
      assert v == (2 * q) * d + r;
      QuotientUnique(v, d, 2 * q);
    } else {
      assert v == (2 * q + 1) * d + (r - d);
      QuotientUnique(v, d, 2 * q + 1);
    }
  }

  /** The first `m` bits are the quotient by the size of a block with that prefix. */
  lemma {:induction false} PrefixIsQuotient(p: seq<byte>, q: seq<byte>, m: nat)
    requires |p| == |q| && m <= 8 * |p|
    ensures SharePrefix(p, q, m) <==>
            BigEndian(p) / Pow2(8 * |p| - m) == BigEndian(q) / Pow2(8 * |p| - m)
  {
    hide Bit, BigEndian, Pow2;
    if m == 0 {
      OctetsBound(p);
      OctetsBound(q);
      QuotientUnique(BigEndian(p), Pow2(8 * |p|), 0);
      QuotientUnique(BigEndian(q), Pow2(8 * |p|), 0);
    } else {
      var d := Pow2(8 * |p| - m);
      PrefixIsQuotient(p, q, m - 1);
      DoublePow2(8 * |p| - m);
      BitOfInteger(p, m - 1);
      BitOfInteger(q, m - 1);
      HalveQuotient(BigEndian(p), d);
      HalveQuotient(BigEndian(q), d);
      assert SharePrefix(p, q, m) <==> SharePrefix(p, q, m - 1) && Bit(p, m - 1) == Bit(q, m - 1);
    }
  }

  /** The stored integer of the prefix's first address: `p` with all bits from `m` on cleared. */
  ghost function BlockStart(p: IpAddr, m: nat): int
    requires m <= 8 * |Octets(p)|
  {
    Stored(p) - BigEndian(Octets(p)) % Pow2(8 * |Octets(p)| - m)
  }

  /** A prefix is one contiguous interval of stored integers: the addresses of a family that share the
      first `m` bits of `p` are exactly those stored in `2^(w-m)` places from the block's start. */
  lemma PrefixIsInterval(p: IpAddr, q: IpAddr, m: nat)
    requires p.V4? <==> q.V4?
    requires m <= 8 * |Octets(p)|
    ensures SharePrefix(Octets(p), Octets(q), m) <==>
            BlockStart(p, m) <= Stored(q) < BlockStart(p, m) + Pow2(8 * |Octets(p)| - m)
  {
    hide SharePrefix, Pow2, BigEndian, HugeInt, Encode;
    var d := Pow2(8 * |Octets(p)| - m);
    EncodedValue(p, 0);
    EncodedValue(q, 0);
    PrefixIsQuotient(Octets(p), Octets(q), m);
    SameQuotient(BigEndian(Octets(p)), BigEndian(Octets(q)), d);
  }

  lemma SameQuotient(x: nat, y: nat, d: nat)
    requires d > 0
    ensures y / d == x / d <==> x - x % d <= y < x - x % d + d
  {
    var k := x / d;
    assert x == k * d + x % d;
    assert y == (y / d) * d + y % d;
    if k * d <= y < k * d + d {
      QuotientUnique(y, d, k);
    }
  }

  // ----- Cells -----

  /** The unsigned address that a cell holds. */
  ghost function CellAddress(c: InetVal): int
    requires |c.addressLe| == 16
  {
    HugeInt(c.addressLe) + if c.ipType == IP_TYPE_V6 then Pow2(127) else 0
  }

  /** Read from the two cells alone: both are of one family, and the integer stored in `host` lies in
      the interval of the prefix in `c`. */
  ghost predicate Contains(c: InetVal, host: InetVal)
    requires |c.addressLe| == |host.addressLe| == 16
  {
    var width := if c.ipType == IP_TYPE_V6 then 128 else 32;
    c.ipType == host.ipType && c.mask <= width &&
    var size := Pow2(width - c.mask);
    var start := HugeInt(c.addressLe) - CellAddress(c) % size;
    start <= HugeInt(host.addressLe) < start + size
  }

  /** The cell of a bare address holds its family, the full width as mask, and the address -- for IPv4
      itself, for IPv6 less 2^127. */
  lemma HostCell(q: IpAddr)
    ensures var h := EncodeIp(q);
            |h.addressLe| == 16 && h.ipType == (if q.V4? then 1 else 2) && h.mask == (if q.V4? then 32 else 128) &&
            HugeInt(h.addressLe) == BigEndian(Octets(q)) - if q.V4? then 0 else Pow2(127)
  {
    EncodedValue(q, if q.V4? then 32 else 128);
  }

  /** A host cell lies in the stored interval of a prefix cell if and only if the address is of the
      prefix's family and shares its bits. */
  lemma ContainsExact(p: IpAddr, m: nat, q: IpAddr)
    requires m <= 8 * |Octets(p)|
    ensures |Encode(p, m).addressLe| == |EncodeIp(q).addressLe| == 16
    ensures Contains(Encode(p, m), EncodeIp(q)) <==> (p.V4? <==> q.V4?) && SharePrefix(Octets(p), Octets(q), m)
  {
    hide BlockStart, Stored, HugeInt, SharePrefix, Pow2, Pow256, BigEndian, Encode, EncodeIp, CellAddress;
    hide LittleEndian, ToLittleEndian, FlipTopBit;
    EncodedValue(p, m);
    HostCell(q);
    if p.V4? <==> q.V4? {
      StartOfCell(p, m);
      StoredOfHost(q);
      PrefixIsInterval(p, q, m);
    }
  }

  lemma StartOfCell(p: IpAddr, m: nat)
    requires m <= 8 * |Octets(p)| && |Encode(p, m).addressLe| == 16
    ensures var c := Encode(p, m);
            HugeInt(c.addressLe) - CellAddress(c) % Pow2(8 * |Octets(p)| - m) == BlockStart(p, m)
  {
    hide Encode, HugeInt, Pow2, BigEndian;
    EncodedValue(p, m);
    EncodedValue(p, 0);
    var c := Encode(p, m);
    assert HugeInt(c.addressLe) == Stored(p) && CellAddress(c) == BigEndian(Octets(p));
    hide Stored, CellAddress;
  }

  lemma StoredOfHost(q: IpAddr)
    requires |EncodeIp(q).addressLe| == 16
    ensures HugeInt(EncodeIp(q).addressLe) == Stored(q)
  {
    HostCell(q);
    EncodedValue(q, 0);
    hide Encode, EncodeIp, HugeInt, Pow2, BigEndian;
  }

  /** The block of a bare address's cell holds that address only. */
  lemma HostIsSingleton(p: IpAddr, q: IpAddr)
    ensures |EncodeIp(p).addressLe| == |EncodeIp(q).addressLe| == 16
    ensures Contains(EncodeIp(p), EncodeIp(q)) <==> p == q
  {
    HostCell(p);
    HostCell(q);
    hide EncodeIp, HugeInt, Pow2, BigEndian;
    assert Pow2(0) == 1 by { PowZero(); }
    if p.V4? <==> q.V4? {
      OrderIsIntegerOrder(Octets(p), Octets(q));
    }
  }

  lemma PowZero()
    ensures Pow2(0) == 1
  {
  }
}

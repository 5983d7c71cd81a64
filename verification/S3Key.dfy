/** Percent-coding of object keys (RFC 3986, section 2.1), on the bytes of the UTF-8 text. */
module S3Key {
  import opened Bytes
  import opened Wrappers

  const PERCENT: byte := 0x25
  const QUESTION: byte := 0x3F
  const HASH: byte := 0x23

  /** The key escape set: control characters, and `%`, `?`, `#`. */
  predicate KeyEscape(b: byte) {
    b < 0x20 || b == 0x7F || b == PERCENT || b == QUESTION || b == HASH
  }

  /** A byte is written as `%XX` if it is in the set or is not ASCII. */
  predicate MustEscape(escape: byte -> bool, b: byte) {
    escape(b) || b >= 0x80
  }

  function HexDigit(n: nat): byte
    requires n < 16
  {
    if n < 10 then 0x30 + n else 0x41 + (n - 10)
  }

  function HexValue(b: byte): Option<nat> {
    if 0x30 <= b <= 0x39 then Some(b - 0x30)
    else if 0x41 <= b <= 0x46 then Some(b - 0x41 + 10)
    else if 0x61 <= b <= 0x66 then Some(b - 0x61 + 10)
    else None
  }

  function EncodeByte(escape: byte -> bool, b: byte): seq<byte> {
    if MustEscape(escape, b) then [PERCENT, HexDigit(b / 16), HexDigit(b % 16)] else [b]
  }

  function PercentEncode(escape: byte -> bool, key: seq<byte>): seq<byte> {
    if |key| == 0 then [] else EncodeByte(escape, key[0]) + PercentEncode(escape, key[1..])
  }

  predicate StartsEscape(s: seq<byte>) {
    |s| >= 3 && s[0] == PERCENT && HexValue(s[1]).Some? && HexValue(s[2]).Some?
  }

  /** A `%` not followed by two hexadecimal digits stands for itself. */
  function PercentDecode(s: seq<byte>): seq<byte> {
    if |s| == 0 then []
    else if StartsEscape(s) then
      var b: byte := 16 * HexValue(s[1]).value + HexValue(s[2]).value;
      [b] + PercentDecode(s[3..])
    else [s[0]] + PercentDecode(s[1..])
  }

  // ----- The exact round trip -----

  /** At `i`, the key holds a `%` and two hexadecimal digits, all left as they are by the encoding. */
  ghost predicate LiteralEscapeAt(escape: byte -> bool, key: seq<byte>, i: nat) {
    i + 3 <= |key| && StartsEscape(key[i..]) &&
    !MustEscape(escape, key[i]) && !MustEscape(escape, key[i + 1]) && !MustEscape(escape, key[i + 2])
  }

  lemma HexRoundTrip(n: nat)
    requires n < 16
    ensures HexValue(HexDigit(n)) == Some(n)
  {
  }

  /** The encoding of what follows a raw `%` starts with two hexadecimal digits only if the key does. */
  lemma EscapeIsLiteral(escape: byte -> bool, key: seq<byte>)
    requires |key| > 0 && !MustEscape(escape, key[0])
    ensures StartsEscape(PercentEncode(escape, key)) <==> LiteralEscapeAt(escape, key, 0)
    ensures LiteralEscapeAt(escape, key, 0) ==> PercentEncode(escape, key)[1..3] == key[1..3]
    ensures LiteralEscapeAt(escape, key, 0) ==> PercentEncode(escape, key)[3..] == PercentEncode(escape, key[3..])
  {
    hide PercentEncode, HexDigit;
    var encoded := PercentEncode(escape, key);
    EncodeCons(escape, key);
    assert key[0..] == key;
    EncodeCons(escape, key[1..]);
    if |key| > 1 {
      EncodeCons(escape, key[2..]);
      assert key[1..][1..] == key[2..];
      if |key| > 2 && !MustEscape(escape, key[1]) {
        assert key[2..][1..] == key[3..];
        if !MustEscape(escape, key[2]) {
          assert encoded == key[..3] + PercentEncode(escape, key[3..]);
        }
      }
    }
  }

  lemma EncodeCons(escape: byte -> bool, key: seq<byte>)
    ensures PercentEncode(escape, key) ==
            if |key| == 0 then [] else EncodeByte(escape, key[0]) + PercentEncode(escape, key[1..])
  {
  }

  /** Decoding the encoding of a key gives the key back if and only if the key has no `%xx` that the
      encoding leaves alone; it never lengthens a key. */
  lemma {:induction false} RoundTripExact(escape: byte -> bool, key: seq<byte>)
    ensures |PercentDecode(PercentEncode(escape, key))| <= |key|
    ensures PercentDecode(PercentEncode(escape, key)) == key <==>
            forall i: nat :: !LiteralEscapeAt(escape, key, i)
    decreases |key|
  {
    if |key| > 0 {
      var b, rest := key[0], key[1..];
      var encoded := PercentEncode(escape, key);
      assert key == [b] + rest;
      if MustEscape(escape, b) {
        HexRoundTrip(b / 16);
        HexRoundTrip(b % 16);
        RoundTripExact(escape, rest);
        assert encoded[3..] == PercentEncode(escape, rest);
        assert PercentDecode(encoded) == [b] + PercentDecode(PercentEncode(escape, rest));
        LiteralShift(escape, key);
      } else {
        EscapeIsLiteral(escape, key);
        if LiteralEscapeAt(escape, key, 0) {
          RoundTripExact(escape, key[3..]);
          assert |PercentDecode(encoded)| < |key|;
        } else {
          RoundTripExact(escape, rest);
          assert encoded[1..] == PercentEncode(escape, rest);
          assert PercentDecode(encoded) == [b] + PercentDecode(PercentEncode(escape, rest));
          LiteralShift(escape, key);
        }
      }
    }
  }

  lemma LiteralShift(escape: byte -> bool, key: seq<byte>)
    requires |key| > 0 && !LiteralEscapeAt(escape, key, 0)
    ensures (forall i: nat :: !LiteralEscapeAt(escape, key, i)) <==>
            (forall i: nat :: !LiteralEscapeAt(escape, key[1..], i))
  {
    forall i: nat
      ensures LiteralEscapeAt(escape, key[1..], i) <==> LiteralEscapeAt(escape, key, i + 1)
    {
      if i + 1 <= |key| {
        assert key[1..][i..] == key[i + 1..];
      }
    }
    if forall i: nat :: !LiteralEscapeAt(escape, key[1..], i) {
      forall i: nat
        ensures !LiteralEscapeAt(escape, key, i)
      {
        if i > 0 {
          assert !LiteralEscapeAt(escape, key[1..], i - 1);
        }
      }
    }
  }

  /** With `%` in the set, every key comes back unchanged. */
  lemma {:induction false} KeyRoundTrip(escape: byte -> bool, key: seq<byte>)
    requires escape(PERCENT)
    ensures PercentDecode(PercentEncode(escape, key)) == key
  {
    RoundTripExact(escape, key);
    forall i: nat
      ensures !LiteralEscapeAt(escape, key, i)
    {
    }
  }

  /** Without it, `%41` comes back as `A`. */
  lemma PercentIsNeeded()
    ensures var escape := (b: byte) => KeyEscape(b) && b != PERCENT;
            PercentDecode(PercentEncode(escape, [PERCENT, 0x34, 0x31])) == [0x41]
  {
    var escape := (b: byte) => KeyEscape(b) && b != PERCENT;
    var key: seq<byte> := [PERCENT, 0x34, 0x31];
    assert key[0..] == key;
    assert LiteralEscapeAt(escape, key, 0);
    EscapeIsLiteral(escape, key);
    assert PercentEncode(escape, key)[3..] == [];
  }

  /** A byte that the encoding leaves as it is: printable ASCII other than `%`, `?` and `#`. */
  ghost predicate IsKept(b: byte) {
    0x20 <= b < 0x7F && b != 0x25 && b != 0x3F && b != 0x23
  }

  /** The encoding is printable ASCII and holds no raw `?` or `#`. */
  lemma {:induction false} EncodingIsClean(key: seq<byte>)
    ensures forall b :: b in PercentEncode(KeyEscape, key) ==> IsKept(b) || b == 0x25
  {
    if |key| > 0 {
      EncodingIsClean(key[1..]);
    }
  }

  /** It leaves a key unchanged if and only if it keeps every byte, wildcards and brackets included. */
  lemma {:induction false} UnchangedExact(key: seq<byte>)
    ensures |PercentEncode(KeyEscape, key)| >= |key|
    ensures PercentEncode(KeyEscape, key) == key <==> forall b :: b in key ==> IsKept(b)
  {
    if |key| > 0 {
      UnchangedExact(key[1..]);
      assert key == [key[0]] + key[1..];
      if IsKept(key[0]) {
        assert PercentEncode(KeyEscape, key)[1..] == PercentEncode(KeyEscape, key[1..]);
      } else {
        assert |EncodeByte(KeyEscape, key[0])| == 3;
      }
    }
  }

  const HEX_DIGITS := "0123456789ABCDEF"

  /** An escaped byte is `%` and its two hexadecimal digits in upper case. */
  lemma EscapedByte(b: byte)
    requires !IsKept(b)
    ensures PercentEncode(KeyEscape, [b]) == [0x25, HEX_DIGITS[b / 16] as int, HEX_DIGITS[b % 16] as int]
  {
    assert PercentEncode(KeyEscape, [b]) == EncodeByte(KeyEscape, b) + [];
    DigitText(b / 16);
    DigitText(b % 16);
  }

  lemma DigitText(n: nat)
    requires n < 16
    ensures HEX_DIGITS[n] as int == HexDigit(n)
  {
  }
}

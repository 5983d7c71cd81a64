/** Community strings: two or three unsigned 32-bit parts joined by colons, after trimming. */
module Community {
  import opened Wrappers
  import opened Text

  const U32_MAX: nat := 0xFFFF_FFFF

  predicate IsDigit(c: char) {
    '0' <= c <= '9'
  }

  function Digit(c: char): nat
    requires IsDigit(c)
  {
    c as int - '0' as int
  }

  /** Digit by digit, failing on anything else and as soon as the value leaves 32 bits. */
  function ParseDigits(s: string, acc: nat): Option<nat> {
    if |s| == 0 then Some(acc)
    else if !IsDigit(s[0]) then None
    else
      var value := 10 * acc + Digit(s[0]);
      if value > U32_MAX then None else ParseDigits(s[1..], value)
  }

  /** An optional plus sign, then at least one digit. */
  function ParseU32(s: string): Option<nat> {
    var digits := if |s| > 0 && s[0] == '+' then s[1..] else s;
    if |digits| == 0 then None else ParseDigits(digits, 0)
  }

  function CommunityParse(raw: string): Option<(nat, nat)> {
    var parts := Split(Trim(raw), ':');
    var asn := ParseU32(parts[0]);
    if asn.None? then None
    else if |parts| < 2 then None
    else
      var value := ParseU32(parts[1]);
      if value.None? then None
      else if |parts| > 2 then None
      else Some((asn.value, value.value))
  }

  predicate IsLargeCommunity(raw: string) {
    var parts := Split(Trim(raw), ':');
    |parts| == 3 && forall i :: 0 <= i < |parts| ==> ParseU32(parts[i]).Some?
  }

  // ----- What the strings mean -----

  ghost predicate AllDigits(s: string) {
    forall i :: 0 <= i < |s| ==> IsDigit(s[i])
  }

  /** The number a digit string denotes, unbounded; read from its last digit. */
  ghost function Value(s: string): nat
    requires AllDigits(s)
  {
    if |s| == 0 then 0 else 10 * Value(s[..|s| - 1]) + Digit(s[|s| - 1])
  }

  /** `s` is a decimal numeral, perhaps with a plus sign, for the 32-bit number `v`. */
  ghost predicate Denotes(s: string, v: nat) {
    v < 0x1_0000_0000 &&
    exists digits :: digits != "" && (s == digits || s == "+" + digits) && AllDigits(digits) && Value(digits) == v
  }

  ghost function Pow10(n: nat): (p: nat)
    ensures p > 0
  {
    if n == 0 then 1 else 10 * Pow10(n - 1)
  }

  lemma MoveFactor(a: nat, b: nat, c: nat)
    ensures 10 * (a * b + c) == a * (10 * b) + 10 * c
  {
  }

  lemma {:induction false} ValueFromHead(s: string)
    requires |s| > 0 && AllDigits(s)
    ensures Value(s) == Digit(s[0]) * Pow10(|s| - 1) + Value(s[1..])
  {
    if |s| > 1 {
      var init := s[..|s| - 1];
      ValueFromHead(init);
      assert s[1..][..|s| - 2] == init[1..];
      MoveFactor(Digit(s[0]), Pow10(|s| - 2), Value(init[1..]));
    }
  }

  /** Parsing digit by digit, with the running bound, computes the denoted number if it is in range. */
  lemma {:induction false} ParseDigitsValue(s: string, acc: nat)
    requires acc <= U32_MAX
    ensures ParseDigits(s, acc).Some? <==> AllDigits(s) && acc * Pow10(|s|) + Value(s) <= U32_MAX
    ensures ParseDigits(s, acc).Some? ==> ParseDigits(s, acc).value == acc * Pow10(|s|) + Value(s)
  {
    if |s| > 0 && IsDigit(s[0]) {
      var value := 10 * acc + Digit(s[0]);
      if AllDigits(s) {
        ShiftDigit(s, acc);
        AtLeast(value, Pow10(|s| - 1));
      } else {
        var i :| 0 <= i < |s| && !IsDigit(s[i]);
        assert !IsDigit(s[1..][i - 1]);
      }
      if value <= U32_MAX {
        hide Value, Pow10;
        ParseDigitsValue(s[1..], value);
      }
    }
  }

  lemma ShiftDigit(s: string, acc: nat)
    requires |s| > 0 && AllDigits(s)
    ensures acc * Pow10(|s|) + Value(s) == (10 * acc + Digit(s[0])) * Pow10(|s| - 1) + Value(s[1..])
  {
    hide Value;
    ValueFromHead(s);
    assert acc * (10 * Pow10(|s| - 1)) == (10 * acc) * Pow10(|s| - 1);
  }

  lemma AtLeast(a: nat, b: nat)
    requires b > 0
    ensures a * b >= a
  {
  }

  /** Parsing a part succeeds exactly on the numerals of 32-bit numbers; larger ones are rejected. */
  lemma ParseU32Denotes(s: string, v: nat)
    ensures ParseU32(s) == Some(v) <==> Denotes(s, v)
  {
    var digits := if |s| > 0 && s[0] == '+' then s[1..] else s;
    assert s == digits || s == "+" + digits;
    ParseDigitsValue(digits, 0);
    if Denotes(s, v) {
      var d :| d != "" && (s == d || s == "+" + d) && AllDigits(d) && Value(d) == v;
      assert IsDigit(d[0]);
      assert d == digits;
    }
  }

  lemma NumeralHasNoColon(s: string, v: nat)
    requires Denotes(s, v)
    ensures ':' !in s
  {
    var d :| d != "" && (s == d || s == "+" + d) && AllDigits(d) && Value(d) == v;
  }

  // ----- The grammar -----

  /** Two numerals of 32-bit numbers, one colon between them. */
  ghost predicate IsStandard(t: string, asn: nat, value: nat) {
    exists x, y :: t == x + ":" + y && Denotes(x, asn) && Denotes(y, value)
  }

  ghost predicate IsLarge(t: string, global: nat, data1: nat, data2: nat) {
    exists x, y, z :: t == x + ":" + (y + ":" + z) && Denotes(x, global) && Denotes(y, data1) && Denotes(z, data2)
  }

  lemma SplitTwo(x: string, y: string, a: nat, b: nat)
    requires Denotes(x, a) && Denotes(y, b)
    ensures Split(x + ":" + y, ':') == [x, y]
  {
    NumeralHasNoColon(x, a);
    NumeralHasNoColon(y, b);
    SplitNoSeparator(y, ':');
    SplitAtSeparator(x, ':', y);
  }

  lemma SplitThree(x: string, y: string, z: string, a: nat, b: nat, c: nat)
    requires Denotes(x, a) && Denotes(y, b) && Denotes(z, c)
    ensures Split(x + ":" + (y + ":" + z), ':') == [x, y, z]
  {
    NumeralHasNoColon(x, a);
    SplitTwo(y, z, b, c);
    SplitAtSeparator(x, ':', y + ":" + z);
  }

  /** `community_parse` succeeds with a pair exactly when the trimmed text is that pair's standard form. */
  lemma CommunityParseExact(raw: string, asn: nat, value: nat)
    ensures CommunityParse(raw) == Some((asn, value)) <==> IsStandard(Trim(raw), asn, value)
  {
    var t := Trim(raw);
    var parts := Split(t, ':');
    if CommunityParse(raw) == Some((asn, value)) {
      SplitFirst(t, ':');
      var rest :| t == parts[0] + ":" + rest && Split(rest, ':') == parts[1..];
      SplitFirst(rest, ':');
      ParseU32Denotes(parts[0], asn);
      ParseU32Denotes(parts[1], value);
    }
    if IsStandard(t, asn, value) {
      var x, y :| t == x + ":" + y && Denotes(x, asn) && Denotes(y, value);
      SplitTwo(x, y, asn, value);
      ParseU32Denotes(x, asn);
      ParseU32Denotes(y, value);
    }
  }

  /** `is_large_community` holds exactly of the three-part form. */
  lemma LargeExact(raw: string)
    ensures IsLargeCommunity(raw) <==> exists a, b, c :: IsLarge(Trim(raw), a, b, c)
  {
    var t := Trim(raw);
    var parts := Split(t, ':');
    if IsLargeCommunity(raw) {
      SplitFirst(t, ':');
      var rest :| t == parts[0] + ":" + rest && Split(rest, ':') == parts[1..];
      SplitFirst(rest, ':');
      var last :| rest == parts[1..][0] + ":" + last && Split(last, ':') == parts[1..][1..];
      SplitFirst(last, ':');
      var a, b, c := ParseU32(parts[0]).value, ParseU32(parts[1]).value, ParseU32(parts[2]).value;
      ParseU32Denotes(parts[0], a);
      ParseU32Denotes(parts[1], b);
      ParseU32Denotes(parts[2], c);
      assert t == parts[0] + ":" + (parts[1] + ":" + parts[2]);
      assert IsLarge(t, a, b, c);
    }
    if exists a, b, c :: IsLarge(t, a, b, c) {
      var a, b, c :| IsLarge(t, a, b, c);
      var x, y, z :| t == x + ":" + (y + ":" + z) && Denotes(x, a) && Denotes(y, b) && Denotes(z, c);
      SplitThree(x, y, z, a, b, c);
      ParseU32Denotes(x, a);
      ParseU32Denotes(y, b);
      ParseU32Denotes(z, c);
    }
  }

  /** No text is both a standard and a large community. */
  lemma NeverBoth(raw: string)
    ensures !(CommunityParse(raw).Some? && IsLargeCommunity(raw))
  {
    assert IsLargeCommunity(raw) ==> |Split(Trim(raw), ':')| == 3;
  }

  // ----- Printing and parsing back -----

  function PrintU32(v: nat): (s: string)
    ensures |s| > 0
    decreases v
  {
    var last := [('0' as int + v % 10) as char];
    if v < 10 then last else PrintU32(v / 10) + last
  }

  lemma {:induction false} PrintDenotes(v: nat)
    ensures AllDigits(PrintU32(v)) && Value(PrintU32(v)) == v
    decreases v
  {
    if v >= 10 {
      PrintDenotes(v / 10);
      assert PrintU32(v)[..|PrintU32(v)| - 1] == PrintU32(v / 10);
    }
  }

  lemma PrintedIsNumeral(v: nat)
    requires v <= U32_MAX
    ensures Denotes(PrintU32(v), v)
    ensures var s := PrintU32(v); !IsWhitespace(s[0]) && !IsWhitespace(s[|s| - 1])
  {
    PrintDenotes(v);
    var s := PrintU32(v);
    assert IsDigit(s[0]) && IsDigit(s[|s| - 1]);
  }

  /** Printing any two 32-bit numbers as a standard community, in any white space, parses back. */
  lemma StandardRoundTrip(before: string, asn: nat, value: nat, after: string)
    requires Blank(before) && Blank(after) && asn <= U32_MAX && value <= U32_MAX
    ensures CommunityParse(before + (PrintU32(asn) + ":" + PrintU32(value)) + after) == Some((asn, value))
  {
    PrintedIsNumeral(asn);
    PrintedIsNumeral(value);
    var s := PrintU32(asn) + ":" + PrintU32(value);
    TrimSurrounding(before, s, after);
    CommunityParseExact(before + s + after, asn, value);
  }

  /** Three 32-bit numbers (RFC 8092, section 3) print as a large community, and never as a standard one. */
  lemma LargeRoundTrip(before: string, a: nat, b: nat, c: nat, after: string)
    requires Blank(before) && Blank(after) && a <= U32_MAX && b <= U32_MAX && c <= U32_MAX
    ensures var raw := before + (PrintU32(a) + ":" + (PrintU32(b) + ":" + PrintU32(c))) + after;
            IsLargeCommunity(raw) && CommunityParse(raw).None?
  {
    PrintedIsNumeral(a);
    PrintedIsNumeral(b);
    PrintedIsNumeral(c);
    var s := PrintU32(a) + ":" + (PrintU32(b) + ":" + PrintU32(c));
    TrimSurrounding(before, s, after);
    assert IsLarge(s, a, b, c);
    LargeExact(before + s + after);
    NeverBoth(before + s + after);
  }
}

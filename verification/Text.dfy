/** Trimming, splitting and joining of text, as the standard library does them. */
module Text {

  /** Unicode White_Space. */
  predicate IsWhitespace(c: char) {
    '\U{0009}' <= c <= '\U{000D}' || c == ' ' || c == '\U{0085}' || c == '\U{00A0}' || c == '\U{1680}' ||
    '\U{2000}' <= c <= '\U{200A}' || c == '\U{2028}' || c == '\U{2029}' || c == '\U{202F}' ||
    c == '\U{205F}' || c == '\U{3000}'
  }

  function TrimStart(s: string): string {
    if |s| > 0 && IsWhitespace(s[0]) then TrimStart(s[1..]) else s
  }

  function TrimEnd(s: string): string {
    if |s| > 0 && IsWhitespace(s[|s| - 1]) then TrimEnd(s[..|s| - 1]) else s
  }

  function Trim(s: string): string {
    TrimEnd(TrimStart(s))
  }

  /** The pieces between the separators; always at least one. */
  function Split<T(==)>(s: seq<T>, sep: T): (parts: seq<seq<T>>)
    ensures |parts| > 0
  {
    if |s| == 0 then [[]]
    else
      var rest := Split(s[1..], sep);
      if s[0] == sep then [[]] + rest else [[s[0]] + rest[0]] + rest[1..]
  }

  /** The pieces with a separator between any two. */
  function Join<T>(parts: seq<seq<T>>, sep: T): seq<T> {
    if |parts| == 0 then []
    else if |parts| == 1 then parts[0]
    else parts[0] + [sep] + Join(parts[1..], sep)
  }

  lemma {:induction false} JoinSplit<T>(s: seq<T>, sep: T)
    ensures Join(Split(s, sep), sep) == s
  {
    if |s| > 0 {
      JoinSplit(s[1..], sep);
      var rest := Split(s[1..], sep);
      assert s == [s[0]] + s[1..];
      if |rest| > 1 && s[0] != sep {
        assert Split(s, sep)[1..] == rest[1..];
      }
    }
  }

  lemma {:induction false} SplitAtSeparator<T>(x: seq<T>, sep: T, rest: seq<T>)
    requires sep !in x
    ensures Split(x + [sep] + rest, sep) == [x] + Split(rest, sep)
  {
    var s := x + [sep] + rest;
    if |x| == 0 {
      assert s[1..] == rest;
    } else {
      assert s[1..] == x[1..] + [sep] + rest;
      SplitAtSeparator(x[1..], sep, rest);
      assert x == [x[0]] + x[1..];
    }
  }

  lemma {:induction false} SplitNoSeparator<T>(x: seq<T>, sep: T)
    requires sep !in x
    ensures Split(x, sep) == [x]
  {
    if |x| > 0 {
      SplitNoSeparator(x[1..], sep);
      assert x == [x[0]] + x[1..];
    }
  }

  /** The first piece runs to the first separator. */
  lemma {:induction false} SplitFirst(s: string, sep: char)
    ensures var parts := Split(s, sep);
            sep !in parts[0] &&
            if |parts| == 1 then s == parts[0]
            else exists rest :: s == parts[0] + [sep] + rest && Split(rest, sep) == parts[1..]
  {
    if |s| > 0 {
      var parts, rest := Split(s, sep), Split(s[1..], sep);
      SplitFirst(s[1..], sep);
      assert s == [s[0]] + s[1..];
      assert parts == if s[0] == sep then [""] + rest else [[s[0]] + rest[0]] + rest[1..];
      hide Split;
      if s[0] == sep {
        assert s == parts[0] + [sep] + s[1..] && Split(s[1..], sep) == parts[1..];
      } else if |parts| > 1 {
        var tail :| s[1..] == rest[0] + [sep] + tail && Split(tail, sep) == rest[1..];
        assert s == parts[0] + [sep] + tail && Split(tail, sep) == parts[1..];
      }
    }
  }

  predicate Blank(s: string) {
    forall i :: 0 <= i < |s| ==> IsWhitespace(s[i])
  }

  lemma {:induction false} TrimStartBlank(blank: string, s: string)
    requires Blank(blank) && (|s| > 0 ==> !IsWhitespace(s[0]))
    ensures TrimStart(blank + s) == s
  {
    if |blank| == 0 {
      assert blank + s == s;
    } else {
      assert (blank + s)[1..] == blank[1..] + s;
      TrimStartBlank(blank[1..], s);
    }
  }

  lemma {:induction false} TrimEndBlank(s: string, blank: string)
    requires Blank(blank) && (|s| > 0 ==> !IsWhitespace(s[|s| - 1]))
    ensures TrimEnd(s + blank) == s
  {
    if |blank| == 0 {
      assert s + blank == s;
    } else {
      assert (s + blank)[..|s + blank| - 1] == s + blank[..|blank| - 1];
      TrimEndBlank(s, blank[..|blank| - 1]);
    }
  }

  /** Trimming removes surrounding white space and nothing else. */
  lemma TrimSurrounding(before: string, s: string, after: string)
    requires Blank(before) && Blank(after)
    requires |s| > 0 && !IsWhitespace(s[0]) && !IsWhitespace(s[|s| - 1])
    ensures Trim(before + s + after) == s
  {
    assert before + s + after == before + (s + after);
    TrimStartBlank(before, s + after);
    TrimEndBlank(s, after);
  }

  lemma {:induction false} TrimStartRemoves(s: string) returns (before: string)
    ensures Blank(before) && s == before + TrimStart(s)
    ensures TrimStart(s) != "" ==> !IsWhitespace(TrimStart(s)[0])
  {
    before := "";
    if |s| > 0 && IsWhitespace(s[0]) {
      var more := TrimStartRemoves(s[1..]);
      before := [s[0]] + more;
      assert s == [s[0]] + s[1..];
    }
  }

  lemma {:induction false} TrimEndRemoves(s: string) returns (after: string)
    ensures Blank(after) && s == TrimEnd(s) + after
    ensures TrimEnd(s) != "" ==> TrimEnd(s)[0] == s[0] && !IsWhitespace(TrimEnd(s)[|TrimEnd(s)| - 1])
  {
    after := "";
    if |s| > 0 && IsWhitespace(s[|s| - 1]) {
      var more := TrimEndRemoves(s[..|s| - 1]);
      after := more + [s[|s| - 1]];
    }
  }

  /** `inner` starts and ends with a character that is not white space, and `s` is it between blanks. */
  ghost predicate IsInner(s: string, inner: string) {
    inner != "" && !IsWhitespace(inner[0]) && !IsWhitespace(inner[|inner| - 1]) &&
    exists before, after :: Blank(before) && Blank(after) && s == before + inner + after
  }

  lemma InnerIsNotBlank(s: string, inner: string)
    requires IsInner(s, inner)
    ensures !Blank(s)
  {
    var before, after :| Blank(before) && Blank(after) && s == before + inner + after;
    assert s[|before|] == inner[0];
  }

  /** Trimming a blank text leaves nothing, and any other text what lies between its blanks. */
  lemma TrimExact(s: string)
    ensures if Blank(s) then Trim(s) == "" else IsInner(s, Trim(s))
  {
    var before := TrimStartRemoves(s);
    var after := TrimEndRemoves(TrimStart(s));
    assert s == before + Trim(s) + after;
    if Trim(s) != "" {
      assert IsInner(s, Trim(s));
      InnerIsNotBlank(s, Trim(s));
    } else {
      assert s == before + after;
    }
  }

  /** The white space characters, one by one. */
  lemma WhitespaceTable(c: char)
    ensures IsWhitespace(c) <==> c as int in {
      0x9, 0xA, 0xB, 0xC, 0xD, 0x20, 0x85, 0xA0, 0x1680, 0x2000, 0x2001, 0x2002, 0x2003, 0x2004, 0x2005, 0x2006,
      0x2007, 0x2008, 0x2009, 0x200A, 0x2028, 0x2029, 0x202F, 0x205F, 0x3000}
  {
  }
}

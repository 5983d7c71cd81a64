/** Glob keys: the pattern language, and the listing prefix that narrows a listing before matching. */
module Glob {
  import opened Wrappers

  datatype Token =
    | Literal(c: char)
    | AnyChar
    | AnySequence
    | AnyRecursive
    | Class(negated: bool, specifiers: string)

  predicate IsWildcard(c: char) {
    c == '*' || c == '?' || c == '['
  }

  // ----- Compiling a pattern -----

  function Stars(p: string): (n: nat)
    ensures n <= |p|
    ensures |p| > 0 && p[0] == '*' ==> n > 0
  {
    if |p| > 0 && p[0] == '*' then 1 + Stars(p[1..]) else 0
  }

  /** The position of the first `c` at or after `from`. */
  function FindFrom(p: string, c: char, from: nat): (r: Option<nat>)
    ensures r.Some? ==> from <= r.value < |p| && p[r.value] == c
    decreases |p| - from
  {
    if from >= |p| then None else if p[from] == c then Some(from) else FindFrom(p, c, from + 1)
  }

  /** A class in brackets; the bracket closing it is not its first member. */
  function CompileClass(p: string): (r: Option<(Token, nat)>)
    requires |p| > 0
    ensures r.Some? ==> 0 < r.value.1 <= |p|
  {
    var negated := |p| > 1 && p[1] == '!';
    var start := if negated then 2 else 1;
    var close := FindFrom(p, ']', start + 1);
    if close.None? then None else Some((Class(negated, p[start..close.value]), close.value + 1))
  }

  /** The tokens of `p`; `atStart` says whether `p` starts the pattern or follows a separator. `**` is
      a whole component and takes the separator after it; longer runs of stars are errors. */
  function CompileFrom(p: string, atStart: bool): Option<seq<Token>>
    decreases |p|
  {
    if |p| == 0 then Some([])
    else if p[0] == '?' then Prepend(AnyChar, CompileFrom(p[1..], false))
    else if p[0] == '*' then
      var n := Stars(p);
      if n == 1 then Prepend(AnySequence, CompileFrom(p[1..], false))
      else if n > 2 || !atStart then None
      else if n == |p| then Some([AnyRecursive])
      else if p[n] == '/' then Prepend(AnyRecursive, CompileFrom(p[n + 1..], true))
      else None
    else if p[0] == '[' then
      var cls := CompileClass(p);
      if cls.None? then None else Prepend(cls.value.0, CompileFrom(p[cls.value.1..], false))
    else Prepend(Literal(p[0]), CompileFrom(p[1..], p[0] == '/'))
  }

  function Prepend(t: Token, rest: Option<seq<Token>>): Option<seq<Token>> {
    if rest.None? then None else Some([t] + rest.value)
  }

  function Compile(p: string): Option<seq<Token>> {
    CompileFrom(p, true)
  }

  // ----- Matching -----

  function AsciiLower(c: char): char {
    if 'A' <= c <= 'Z' then (c as int + 32) as char else c
  }

  predicate IsAsciiLetter(c: char) {
    'A' <= c <= 'Z' || 'a' <= c <= 'z'
  }

  /** Equality of characters; with `fold`, up to ASCII case. */
  predicate SameChar(fold: bool, a: char, b: char) {
    if fold then AsciiLower(a) == AsciiLower(b) else a == b
  }

  /** With `fold`, a range between two letters also holds the other case of its members. */
  predicate InRange(fold: bool, first: char, last: char, c: char) {
    first <= c <= last ||
    (fold && IsAsciiLetter(first) && IsAsciiLetter(last) && AsciiLower(first) <= AsciiLower(c) <= AsciiLower(last))
  }

  /** Single characters and `a-z` ranges. */
  predicate InClass(fold: bool, specifiers: string, c: char) {
    |specifiers| > 0 &&
    if |specifiers| >= 3 && specifiers[1] == '-' then
      InRange(fold, specifiers[0], specifiers[2], c) || InClass(fold, specifiers[3..], c)
    else SameChar(fold, specifiers[0], c) || InClass(fold, specifiers[1..], c)
  }

  /** Does `key` match? `*`, `?` and classes stay within a component; `**` stops only after a
      separator or at the end. */
  predicate Matches(fold: bool, tokens: seq<Token>, key: string)
    decreases |tokens|
  {
    if |tokens| == 0 then |key| == 0
    else
      match tokens[0]
      case Literal(c) => |key| > 0 && SameChar(fold, c, key[0]) && Matches(fold, tokens[1..], key[1..])
      case AnyChar => |key| > 0 && key[0] != '/' && Matches(fold, tokens[1..], key[1..])
      case Class(negated, specifiers) =>
        |key| > 0 && key[0] != '/' && InClass(fold, specifiers, key[0]) != negated &&
        Matches(fold, tokens[1..], key[1..])
      case AnySequence =>
        exists k :: 0 <= k <= |key| && '/' !in key[..k] && Matches(fold, tokens[1..], key[k..])
      case AnyRecursive =>
        exists k ::
          0 <= k <= |key| && (k == 0 || k == |key| || key[k - 1] == '/') && Matches(fold, tokens[1..], key[k..])
  }

  predicate GlobMatches(fold: bool, pattern: string, key: string) {
    var tokens := Compile(pattern);
    tokens.Some? && Matches(fold, tokens.value, key)
  }

  // ----- What compiling recognises -----

  /** The text of a token; `**` takes a separator unless it is the final one. */
  function TokenText(t: Token, final: bool): string {
    match t
    case Literal(c) => [c]
    case AnyChar => "?"
    case AnySequence => "*"
    case AnyRecursive => if final then "**" else "**/"
    case Class(negated, specifiers) => (if negated then "[!" else "[") + specifiers + "]"
  }

  function Write(tokens: seq<Token>): string {
    if |tokens| == 0 then "" else TokenText(tokens[0], |tokens| == 1) + Write(tokens[1..])
  }

  /** The token lists that patterns denote: literals are no wildcards; a class is not empty and holds
      no closing bracket but as its first member; stars do not meet; `**` is a whole component. */
  ghost predicate Canonical(tokens: seq<Token>, atStart: bool) {
    |tokens| > 0 ==>
      var rest := tokens[1..];
      match tokens[0]
      case Literal(c) => !IsWildcard(c) && Canonical(rest, c == '/')
      case AnyChar => Canonical(rest, false)
      case AnySequence => (|rest| > 0 ==> !rest[0].AnySequence?) && Canonical(rest, false)
      case AnyRecursive => atStart && Canonical(rest, true)
      case Class(negated, specifiers) =>
        |specifiers| > 0 && ']' !in specifiers[1..] && (negated || specifiers[0] != '!') && Canonical(rest, false)
  }

  ghost predicate EndsRecursive(tokens: seq<Token>) {
    |tokens| > 0 && tokens[|tokens| - 1].AnyRecursive?
  }

  /** `p` writes the tokens; after a final `**` it may have one more separator. */
  ghost predicate Denotes(p: string, tokens: seq<Token>) {
    p == Write(tokens) || (EndsRecursive(tokens) && p == Write(tokens) + "/")
  }

  lemma DenotesCons(p: string, t: Token, rest: seq<Token>)
    requires Denotes(p, rest) && (t.AnyRecursive? ==> |rest| > 0)
    ensures Denotes(TokenText(t, false) + p, [t] + rest)
  {
    var tokens := [t] + rest;
    assert tokens[1..] == rest;
    if EndsRecursive(rest) && p == Write(rest) + "/" {
      assert TokenText(t, false) + p == Write(tokens) + "/";
    }
  }

  lemma DenotesTail(p: string, tokens: seq<Token>) returns (tail: string)
    requires |tokens| > 0 && Denotes(p, tokens) && !(tokens[0].AnyRecursive? && |tokens| == 1)
    ensures p == TokenText(tokens[0], false) + tail && Denotes(tail, tokens[1..])
  {
    tail := if p == Write(tokens) then Write(tokens[1..]) else Write(tokens[1..]) + "/";
  }

  lemma {:induction false} FindFromFirst(p: string, c: char, from: nat, k: nat)
    requires from <= k < |p| && p[k] == c && c !in p[from..k]
    ensures FindFrom(p, c, from) == Some(k)
    decreases k - from
  {
    if from < k {
      assert p[from] == p[from..k][0] && p[from + 1..k] == p[from..k][1..];
      FindFromFirst(p, c, from + 1, k);
    }
  }

  lemma {:induction false} FindFromSkips(p: string, c: char, from: nat)
    requires from <= |p|
    ensures FindFrom(p, c, from).Some? ==> c !in p[from..FindFrom(p, c, from).value]
    decreases |p| - from
  {
    if from < |p| && p[from] != c && FindFrom(p, c, from).Some? {
      FindFromSkips(p, c, from + 1);
      var k := FindFrom(p, c, from).value;
      assert p[from..k] == [p[from]] + p[from + 1..k];
    }
  }

  lemma ClassRead(p: string)
    requires |p| > 0 && p[0] == '[' && CompileClass(p).Some?
    ensures var (t, n) := CompileClass(p).value;
            t.Class? && p == TokenText(t, false) + p[n..] &&
            |t.specifiers| > 0 && ']' !in t.specifiers[1..] && (t.negated || t.specifiers[0] != '!')
  {
    var negated := |p| > 1 && p[1] == '!';
    var start := if negated then 2 else 1;
    if start + 1 <= |p| {
      FindFromSkips(p, ']', start + 1);
    }
    var k := FindFrom(p, ']', start + 1).value;
    assert p[start..k][1..] == p[start + 1..k];
    assert p == p[..start] + p[start..k] + [p[k]] + p[k + 1..];
    assert p[..start] == if negated then "[!" else "[";
  }

  lemma ClassWritten(t: Token, tail: string)
    requires t.Class? && |t.specifiers| > 0 && ']' !in t.specifiers[1..] && (t.negated || t.specifiers[0] != '!')
    ensures var p := TokenText(t, false) + tail;
            p[0] == '[' && CompileClass(p) == Some((t, |TokenText(t, false)|)) && p[|TokenText(t, false)|..] == tail
  {
    var p := TokenText(t, false) + tail;
    var start := if t.negated then 2 else 1;
    var k := start + |t.specifiers|;
    assert p[start..k] == t.specifiers;
    assert p[start + 1..k] == t.specifiers[1..];
    FindFromFirst(p, ']', start + 1, k);
  }

  lemma {:induction false} CompileSound(p: string, atStart: bool, tokens: seq<Token>)
    requires CompileFrom(p, atStart) == Some(tokens)
    ensures Canonical(tokens, atStart) && Denotes(p, tokens)
    decreases |p|
  {
    if |p| > 0 {
      var n, next := 1, false;
      if p[0] == '*' {
        n := if Stars(p) == 1 then 1 else if Stars(p) == |p| then |p| else Stars(p) + 1;
        next := Stars(p) > 1;
      } else if p[0] == '[' {
        ClassRead(p);
        n := CompileClass(p).value.1;
      } else {
        next := p[0] == '/';
      }
      if p[0] != '*' || Stars(p) == 1 || Stars(p) < |p| {
        var rest := CompileFrom(p[n..], next).value;
        assert tokens[1..] == rest && tokens == [tokens[0]] + rest;
        CompileSound(p[n..], next, rest);
        if tokens[0].AnyRecursive? && |rest| == 0 {
          assert p == "**" + "/";
        } else {
          DenotesCons(p[n..], tokens[0], rest);
          assert p == TokenText(tokens[0], false) + p[n..];
        }
      }
    }
  }

  lemma OneStar(tail: string)
    requires |tail| > 0 ==> tail[0] != '*'
    ensures Stars("*" + tail) == 1 && ("*" + tail)[1..] == tail
  {
    assert ("*" + tail)[1..] == tail;
  }

  lemma TwoStars(tail: string)
    requires |tail| > 0 ==> tail[0] != '*'
    ensures Stars("**" + tail) == 2 && ("**" + tail)[2..] == tail
  {
    OneStar(tail);
    assert ("**" + tail)[1..] == "*" + tail;
  }

  /** Text that starts with a star denotes tokens that start with a star. */
  lemma FirstStar(p: string, tokens: seq<Token>)
    requires Denotes(p, tokens) && |p| > 0 && p[0] == '*' && Canonical(tokens, false)
    ensures |tokens| > 0 && tokens[0].AnySequence?
  {
    assert |tokens| > 0;
  }

  lemma RecursiveToken(tail: string, rest: seq<Token>)
    requires CompileFrom(tail, true) == Some(rest)
    ensures CompileFrom("**/" + tail, true) == Some([AnyRecursive] + rest)
  {
    var p := "**/" + tail;
    assert p == "**" + ("/" + tail) && p[3..] == tail;
    TwoStars("/" + tail);
    hide Stars;
  }

  lemma SequenceToken(tail: string, atStart: bool, rest: seq<Token>)
    requires CompileFrom(tail, false) == Some(rest) && (|tail| > 0 ==> tail[0] != '*')
    ensures CompileFrom("*" + tail, atStart) == Some([AnySequence] + rest)
  {
    OneStar(tail);
    hide Stars;
  }

  lemma ClassToken(t: Token, atStart: bool, tail: string, rest: seq<Token>)
    requires t.Class? && |t.specifiers| > 0 && ']' !in t.specifiers[1..] && (t.negated || t.specifiers[0] != '!')
    requires CompileFrom(tail, false) == Some(rest)
    ensures CompileFrom(TokenText(t, false) + tail, atStart) == Some([t] + rest)
  {
    ClassWritten(t, tail);
    hide TokenText, CompileClass;
  }

  lemma CompileToken(t: Token, atStart: bool, tail: string, rest: seq<Token>)
    requires Canonical([t] + rest, atStart) && Denotes(tail, rest) && !(t.AnyRecursive? && |rest| == 0)
    requires CompileFrom(tail, t.AnyRecursive? || t == Literal('/')) == Some(rest)
    ensures CompileFrom(TokenText(t, false) + tail, atStart) == Some([t] + rest)
  {
    assert ([t] + rest)[1..] == rest;
    match t
    case Literal(c) =>
      assert ([c] + tail)[1..] == tail;
    case AnyChar =>
      assert ("?" + tail)[1..] == tail;
    case AnySequence =>
      if |tail| > 0 && tail[0] == '*' {
        FirstStar(tail, rest);
      }
      hide CompileFrom, Canonical, Denotes;
      SequenceToken(tail, atStart, rest);
    case AnyRecursive =>
      hide CompileFrom, Denotes;
      RecursiveToken(tail, rest);
    case Class(_, _) =>
      hide CompileFrom, Denotes;
      ClassToken(t, atStart, tail, rest);
  }

  lemma {:induction false} CompileComplete(p: string, atStart: bool, tokens: seq<Token>)
    requires Canonical(tokens, atStart) && Denotes(p, tokens)
    ensures CompileFrom(p, atStart) == Some(tokens)
    decreases |tokens|
  {
    if |tokens| > 0 {
      var t, rest := tokens[0], tokens[1..];
      assert tokens == [t] + rest;
      if t.AnyRecursive? && |rest| == 0 {
        assert tokens == [AnyRecursive] && Write(tokens) == "**" + Write([]);
        FinalRecursive(p);
      } else {
        var tail := DenotesTail(p, tokens);
        CompileComplete(tail, t.AnyRecursive? || t == Literal('/'), rest);
        CompileToken(t, atStart, tail, rest);
      }
    }
  }

  lemma FinalRecursive(p: string)
    requires p == "**" || p == "**" + "/"
    ensures CompileFrom(p, true) == Some([AnyRecursive])
  {
    TwoStars(p[2..]);
    assert p == "**" + p[2..];
    if p != "**" {
      assert p[3..] == "";
      assert CompileFrom("", true) == Some([]);
      assert [AnyRecursive] + [] == [AnyRecursive];
    }
  }

  /** A pattern compiles to tokens if and only if it is their text and they are a list that patterns
      denote; everything else is an error. */
  lemma CompileExact(p: string, tokens: seq<Token>)
    ensures Compile(p) == Some(tokens) <==> Canonical(tokens, true) && Denotes(p, tokens)
  {
    if Compile(p) == Some(tokens) {
      CompileSound(p, true, tokens);
    }
    if Canonical(tokens, true) && Denotes(p, tokens) {
      CompileComplete(p, true, tokens);
    }
  }

  // ----- What matching accepts -----

  /** The token covers `piece`, when `rest` of the key follows. */
  ghost predicate Covers(fold: bool, t: Token, piece: string, rest: string) {
    match t
    case Literal(c) => |piece| == 1 && SameChar(fold, c, piece[0])
    case AnyChar => |piece| == 1 && piece[0] != '/'
    case Class(negated, specifiers) =>
      |piece| == 1 && piece[0] != '/' && (InClass(fold, specifiers, piece[0]) <==> !negated)
    case AnySequence => '/' !in piece
    case AnyRecursive => piece == "" || piece[|piece| - 1] == '/' || rest == ""
  }

  function Concat(pieces: seq<string>): string {
    if |pieces| == 0 then "" else pieces[0] + Concat(pieces[1..])
  }

  ghost predicate IsCover(fold: bool, tokens: seq<Token>, key: string, pieces: seq<string>) {
    |pieces| == |tokens| && Concat(pieces) == key &&
    forall i :: 0 <= i < |tokens| ==> Covers(fold, tokens[i], pieces[i], Concat(pieces[i + 1..]))
  }

  lemma CoverTail(fold: bool, tokens: seq<Token>, key: string, pieces: seq<string>)
    requires |tokens| > 0 && IsCover(fold, tokens, key, pieces)
    ensures key == pieces[0] + key[|pieces[0]|..]
    ensures IsCover(fold, tokens[1..], key[|pieces[0]|..], pieces[1..])
    ensures Covers(fold, tokens[0], pieces[0], key[|pieces[0]|..])
  {
    hide Covers;
    assert key == pieces[0] + Concat(pieces[1..]);
    assert key[|pieces[0]|..] == Concat(pieces[1..]);
    forall i | 0 <= i < |tokens| - 1
      ensures Covers(fold, tokens[1..][i], pieces[1..][i], Concat(pieces[1..][i + 1..]))
    {
      assert pieces[1..][i + 1..] == pieces[i + 2..];
      assert Covers(fold, tokens[i + 1], pieces[i + 1], Concat(pieces[i + 1 + 1..]));
    }
  }

  lemma {:induction false} CoverMatches(fold: bool, tokens: seq<Token>, key: string, pieces: seq<string>)
    requires IsCover(fold, tokens, key, pieces)
    ensures Matches(fold, tokens, key)
    decreases |tokens|
  {
    if |tokens| > 0 {
      var k := |pieces[0]|;
      CoverTail(fold, tokens, key, pieces);
      CoverMatches(fold, tokens[1..], key[k..], pieces[1..]);
      assert key[..k] == pieces[0];
    }
  }

  lemma CoverCons(fold: bool, tokens: seq<Token>, key: string, k: nat, later: seq<string>)
    requires |tokens| > 0 && k <= |key| && IsCover(fold, tokens[1..], key[k..], later)
    requires Covers(fold, tokens[0], key[..k], key[k..])
    ensures IsCover(fold, tokens, key, [key[..k]] + later)
  {
    hide Covers;
    var pieces := [key[..k]] + later;
    assert pieces[1..] == later;
    forall i | 0 <= i < |tokens|
      ensures Covers(fold, tokens[i], pieces[i], Concat(pieces[i + 1..]))
    {
      if i > 0 {
        assert pieces[i + 1..] == later[i - 1 + 1..];
        assert Covers(fold, tokens[1..][i - 1], later[i - 1], Concat(later[i - 1 + 1..]));
      }
    }
  }

  lemma {:induction false} MatchCover(fold: bool, tokens: seq<Token>, key: string) returns (pieces: seq<string>)
    requires Matches(fold, tokens, key)
    ensures IsCover(fold, tokens, key, pieces)
    decreases |tokens|
  {
    pieces := [];
    if |tokens| > 0 {
      var k := 1;
      if tokens[0].AnySequence? {
        k :| 0 <= k <= |key| && '/' !in key[..k] && Matches(fold, tokens[1..], key[k..]);
      } else if tokens[0].AnyRecursive? {
        k :| 0 <= k <= |key| && (k == 0 || k == |key| || key[k - 1] == '/') && Matches(fold, tokens[1..], key[k..]);
      }
      var later := MatchCover(fold, tokens[1..], key[k..]);
      CoverCons(fold, tokens, key, k, later);
      pieces := [key[..k]] + later;
    }
  }

  /** A key matches if and only if it can be cut into pieces, one a token in order, each of which its
      token covers. */
  lemma MatchesExact(fold: bool, tokens: seq<Token>, key: string)
    ensures Matches(fold, tokens, key) <==> exists pieces :: IsCover(fold, tokens, key, pieces)
  {
    if Matches(fold, tokens, key) {
      var pieces := MatchCover(fold, tokens, key);
    }
    if pieces :| IsCover(fold, tokens, key, pieces) {
      CoverMatches(fold, tokens, key, pieces);
    }
  }

  /** The text of a class with these ranges, then these single characters. */
  function ClassText(ranges: seq<(char, char)>, singles: string): string {
    if |ranges| == 0 then singles else [ranges[0].0, '-', ranges[0].1] + ClassText(ranges[1..], singles)
  }

  ghost predicate IsLower(c: char) {
    'a' <= c <= 'z'
  }

  ghost predicate IsUpper(c: char) {
    'A' <= c <= 'Z'
  }

  /** The character, or with case folded its other case, lies between the ends. */
  ghost predicate InRangeOf(fold: bool, range: (char, char), c: char) {
    exists d :: SameChar(fold, d, c) && range.0 <= d <= range.1
  }

  lemma {:induction false} SinglesExact(fold: bool, singles: string, c: char)
    requires '-' !in singles
    ensures InClass(fold, singles, c) <==> exists d :: d in singles && SameChar(fold, d, c)
  {
    if |singles| > 0 {
      SinglesExact(fold, singles[1..], c);
      assert singles == [singles[0]] + singles[1..];
    }
  }

  lemma RangeExact(fold: bool, range: (char, char), c: char)
    requires fold ==> (IsLower(range.0) && IsLower(range.1)) || (IsUpper(range.0) && IsUpper(range.1))
    ensures InRange(fold, range.0, range.1, c) <==> InRangeOf(fold, range, c)
  {
    if InRange(fold, range.0, range.1, c) {
      var d := if range.0 <= c <= range.1 then c else OtherCase(c);
      assert SameChar(fold, d, c) && range.0 <= d <= range.1;
    }
  }

  /** A class holds a character if and only if one of its ranges or single characters does. With case
      folded this is so for ranges between letters of one case. */
  lemma {:induction false} ClassExact(fold: bool, ranges: seq<(char, char)>, singles: string, c: char)
    requires '-' !in singles
    requires fold ==> forall r :: r in ranges ==> (IsLower(r.0) && IsLower(r.1)) || (IsUpper(r.0) && IsUpper(r.1))
    ensures InClass(fold, ClassText(ranges, singles), c) <==>
            (exists r :: r in ranges && InRangeOf(fold, r, c)) || exists d :: d in singles && SameChar(fold, d, c)
    decreases |ranges|
  {
    hide InRangeOf, SameChar, InRange;
    if |ranges| == 0 {
      SinglesExact(fold, singles, c);
    } else {
      var text, rest := ClassText(ranges, singles), ClassText(ranges[1..], singles);
      assert text[3..] == rest;
      RangeExact(fold, ranges[0], c);
      ClassExact(fold, ranges[1..], singles, c);
      assert ranges == [ranges[0]] + ranges[1..];
    }
  }

  // ----- The listing prefix -----

  function FirstWildcard(p: string): (n: nat)
    ensures n <= |p| && (n < |p| ==> IsWildcard(p[n])) && forall i :: 0 <= i < n ==> !IsWildcard(p[i])
  {
    if |p| == 0 || IsWildcard(p[0]) then 0 else 1 + FirstWildcard(p[1..])
  }

  /** One past the last slash of `p`, or 0. */
  function AfterLastSlash(p: string): (n: nat)
    ensures n <= |p|
  {
    if |p| == 0 then 0 else if p[|p| - 1] == '/' then |p| else AfterLastSlash(p[..|p| - 1])
  }

  /** Everything up to and including the last slash before the first wildcard; a pattern without
      wildcards is its own prefix. */
  function GlobPrefix(p: string): (prefix: string)
    ensures prefix <= p && forall i :: 0 <= i < |prefix| ==> !IsWildcard(prefix[i])
  {
    var n := FirstWildcard(p);
    if n == |p| then p else p[..AfterLastSlash(p[..n])]
  }

  lemma {:induction false} AfterLastSlashExact(p: string)
    ensures var n := AfterLastSlash(p); (n > 0 ==> p[n - 1] == '/') && '/' !in p[n..]
  {
    if |p| > 0 && p[|p| - 1] != '/' {
      var init := p[..|p| - 1];
      AfterLastSlashExact(init);
      assert p[AfterLastSlash(p)..] == init[AfterLastSlash(init)..] + [p[|p| - 1]];
    }
  }

  /** The prefix is the longest whole-component one: a pattern with a wildcard continues, up to its
      first wildcard, without a slash. */
  lemma GlobPrefixExact(p: string)
    ensures var prefix, n := GlobPrefix(p), FirstWildcard(p);
            if n == |p| then prefix == p
            else prefix == p[..|prefix|] && |prefix| <= n && '/' !in p[|prefix|..n] &&
                 (prefix != "" ==> prefix[|prefix| - 1] == '/')
  {
    var n := FirstWildcard(p);
    if n < |p| {
      AfterLastSlashExact(p[..n]);
      assert p[..n][AfterLastSlash(p[..n])..] == p[AfterLastSlash(p[..n])..n];
    }
  }

  // ----- Components -----

  function Slashes(key: string): nat {
    if |key| == 0 then 0 else (if key[0] == '/' then 1 else 0) + Slashes(key[1..])
  }

  function LiteralSlashes(tokens: seq<Token>): nat {
    if |tokens| == 0 then 0
    else (if tokens[0] == Literal('/') then 1 else 0) + LiteralSlashes(tokens[1..])
  }

  lemma {:induction false} SlashesAfter(key: string, k: nat)
    requires k <= |key| && '/' !in key[..k]
    ensures Slashes(key[k..]) == Slashes(key)
  {
    if k == 0 {
      assert key[0..] == key;
    } else {
      assert key[0] == key[..k][0] && key[1..][..k - 1] == key[..k][1..] && key[1..][k - 1..] == key[k..];
      SlashesAfter(key[1..], k - 1);
    }
  }

  /** Only `**` crosses components: without it, a matching key has as many slashes as the pattern. */
  lemma {:induction false} OnlyRecursiveCrosses(fold: bool, tokens: seq<Token>, key: string)
    requires AnyRecursive !in tokens && Matches(fold, tokens, key)
    ensures Slashes(key) == LiteralSlashes(tokens)
    decreases |tokens|
  {
    if |tokens| > 0 {
      if tokens[0].AnySequence? {
        var k :| 0 <= k <= |key| && '/' !in key[..k] && Matches(fold, tokens[1..], key[k..]);
        SlashesAfter(key, k);
        OnlyRecursiveCrosses(fold, tokens[1..], key[k..]);
      } else {
        assert tokens[0] in tokens;
        OnlyRecursiveCrosses(fold, tokens[1..], key[1..]);
      }
    }
  }

  // ----- Matching and the prefix -----

  /** `key` starts with `prefix`, up to case if folded. */
  ghost predicate StartsLike(fold: bool, prefix: string, key: string) {
    |prefix| <= |key| && forall i :: 0 <= i < |prefix| ==> SameChar(fold, prefix[i], key[i])
  }

  lemma {:induction false} LiteralStart(
      fold: bool, p: string, atStart: bool, n: nat, tokens: seq<Token>, key: string)
    requires n <= |p| && forall i :: 0 <= i < n ==> !IsWildcard(p[i])
    requires CompileFrom(p, atStart) == Some(tokens) && Matches(fold, tokens, key)
    ensures StartsLike(fold, p[..n], key)
    decreases n
  {
    if n > 0 {
      assert !IsWildcard(p[0]);
      var rest := CompileFrom(p[1..], p[0] == '/');
      assert tokens == [Literal(p[0])] + rest.value;
      LiteralStart(fold, p[1..], p[0] == '/', n - 1, rest.value, key[1..]);
      forall i | 0 <= i < n
        ensures SameChar(fold, p[i], key[i])
      {
        if i > 0 {
          assert p[1..][..n - 1][i - 1] == p[i];
        }
      }
    }
  }

  /** Every matching key starts like the listing prefix. */
  lemma MatchStartsWithPrefix(fold: bool, pattern: string, key: string)
    requires GlobMatches(fold, pattern, key)
    ensures StartsLike(fold, GlobPrefix(pattern), key)
  {
    var prefix := GlobPrefix(pattern);
    assert prefix == pattern[..|prefix|];
    LiteralStart(fold, pattern, true, |prefix|, Compile(pattern).value, key);
  }

  // ----- Listing then filtering -----

  function Filter(keys: seq<string>, keep: string -> bool): seq<string> {
    if |keys| == 0 then []
    else if keep(keys[0]) then [keys[0]] + Filter(keys[1..], keep)
    else Filter(keys[1..], keep)
  }

  /** The keys a listing under the prefix returns, then matched one by one. */
  function ListGlob(fold: bool, pattern: string, keys: seq<string>): seq<string> {
    var prefix := GlobPrefix(pattern);
    Filter(Filter(keys, k => prefix <= k), k => GlobMatches(fold, pattern, k))
  }

  /** Every key matched, without the prefix. */
  function MatchAll(fold: bool, pattern: string, keys: seq<string>): seq<string> {
    Filter(keys, k => GlobMatches(fold, pattern, k))
  }

  lemma {:induction false} FilterTwice(keys: seq<string>, first: string -> bool, second: string -> bool)
    ensures var both := Filter(Filter(keys, first), second);
            |both| <= |Filter(keys, second)| &&
            (both == Filter(keys, second) <==> forall k :: k in keys && second(k) ==> first(k))
  {
    if |keys| > 0 {
      var head, tail := keys[0], keys[1..];
      FilterTwice(tail, first, second);
      assert forall k :: k in keys <==> k == head || k in tail;
      var listed := Filter(tail, first);
      if first(head) {
        assert Filter(keys, first) == [head] + listed && ([head] + listed)[1..] == listed;
        var x, y := Filter(listed, second), Filter(tail, second);
        assert ([head] + x)[1..] == x && ([head] + y)[1..] == y;
      } else {
        assert Filter(keys, first) == listed;
      }
    }
  }

  lemma ListingExact(fold: bool, pattern: string, keys: seq<string>)
    ensures ListGlob(fold, pattern, keys) == MatchAll(fold, pattern, keys) <==>
            forall k :: k in keys && GlobMatches(fold, pattern, k) ==> GlobPrefix(pattern) <= k
  {
    FilterTwice(keys, k => GlobPrefix(pattern) <= k, k => GlobMatches(fold, pattern, k));
  }

  /** When characters match only themselves, the shortcut is lossless for every bucket. */
  lemma ListingLossless(pattern: string, keys: seq<string>)
    ensures ListGlob(false, pattern, keys) == MatchAll(false, pattern, keys)
  {
    forall k | k in keys && GlobMatches(false, pattern, k)
      ensures GlobPrefix(pattern) <= k
    {
      MatchStartsWithPrefix(false, pattern, k);
    }
    ListingExact(false, pattern, keys);
  }

  // ----- Listing with case folded -----

  /** A key still matches with one of its leading literals in the other case. */
  lemma {:induction false} LiteralReplaced(
      fold: bool, p: string, atStart: bool, i: nat, tokens: seq<Token>, key: string, c: char)
    requires i < |p| && (forall j :: 0 <= j <= i ==> !IsWildcard(p[j])) && SameChar(fold, p[i], c)
    requires CompileFrom(p, atStart) == Some(tokens) && Matches(fold, tokens, key)
    ensures i < |key| && Matches(fold, tokens, key[i := c])
    decreases i
  {
    assert !IsWildcard(p[0]);
    var rest := CompileFrom(p[1..], p[0] == '/');
    assert tokens == [Literal(p[0])] + rest.value;
    if i == 0 {
      assert key[0 := c][1..] == key[1..];
    } else {
      LiteralReplaced(fold, p[1..], p[0] == '/', i - 1, rest.value, key[1..], c);
      assert key[i := c][1..] == key[1..][i - 1 := c];
    }
  }

  function OtherCase(c: char): (d: char)
    ensures IsAsciiLetter(c) ==> d != c && SameChar(true, c, d)
  {
    if 'A' <= c <= 'Z' then AsciiLower(c) else if 'a' <= c <= 'z' then (c as int - 32) as char else c
  }

  lemma LetterLoses(pattern: string, key: string, i: nat) returns (lost: string)
    requires GlobMatches(true, pattern, key) && i < |GlobPrefix(pattern)| && IsAsciiLetter(GlobPrefix(pattern)[i])
    ensures GlobMatches(true, pattern, lost) && !(GlobPrefix(pattern) <= lost)
  {
    var prefix := GlobPrefix(pattern);
    assert prefix == pattern[..|prefix|];
    forall j | 0 <= j <= i
      ensures !IsWildcard(pattern[j])
    {
      assert pattern[j] == prefix[j];
    }
    LiteralReplaced(true, pattern, true, i, Compile(pattern).value, key, OtherCase(pattern[i]));
    lost := key[i := OtherCase(pattern[i])];
    assert lost[i] != prefix[i];
  }

  lemma NoLetterKeeps(pattern: string, key: string)
    requires GlobMatches(true, pattern, key) && forall c :: c in GlobPrefix(pattern) ==> !IsAsciiLetter(c)
    ensures GlobPrefix(pattern) <= key
  {
    MatchStartsWithPrefix(true, pattern, key);
    var prefix := GlobPrefix(pattern);
    forall i | 0 <= i < |prefix|
      ensures prefix[i] == key[i]
    {
      assert prefix[i] in prefix;
    }
  }

  /** With case folded, for a pattern that matches some key, the shortcut is lossless for every bucket
      if and only if the listing prefix holds no ASCII letter. */
  lemma FoldedListingExact(pattern: string, key: string)
    requires GlobMatches(true, pattern, key)
    ensures (forall keys :: ListGlob(true, pattern, keys) == MatchAll(true, pattern, keys)) <==>
            forall c :: c in GlobPrefix(pattern) ==> !IsAsciiLetter(c)
  {
    hide ListGlob, MatchAll, GlobMatches, GlobPrefix;
    if forall c :: c in GlobPrefix(pattern) ==> !IsAsciiLetter(c) {
      forall keys
        ensures ListGlob(true, pattern, keys) == MatchAll(true, pattern, keys)
      {
        forall k | k in keys && GlobMatches(true, pattern, k)
          ensures GlobPrefix(pattern) <= k
        {
          NoLetterKeeps(pattern, k);
        }
        ListingExact(true, pattern, keys);
      }
    } else {
      var i :| 0 <= i < |GlobPrefix(pattern)| && IsAsciiLetter(GlobPrefix(pattern)[i]);
      var lost := LetterLoses(pattern, key, i);
      ListingExact(true, pattern, [lost]);
      assert lost in [lost];
    }
  }

  /** A key that matches with case folded and is not listed. */
  lemma CaseFoldingLoses()
    ensures GlobMatches(true, "A/?", "a/x") && ListGlob(true, "A/?", ["a/x"]) == []
  {
    assert "A/?"[..2][1] == '/';
  }
}

/** From an object's key into a URL and back: how the URL is built, how a URL parser reads its path,
    and exactly which keys come back unchanged. */
module S3Url {
  import opened Bytes
  import opened Wrappers
  import opened Text
  import opened S3Key

  const SPACE: byte := 0x20
  const DOT: byte := 0x2E
  const SLASH: byte := 0x2F
  const COLON: byte := 0x3A

  // ----- Building the URL -----

  /** The pieces before and after the first `sep`, or everything and nothing. */
  function SplitOnce(s: seq<byte>, sep: byte): (seq<byte>, seq<byte>) {
    if |s| == 0 then ([], [])
    else if s[0] == sep then ([], s[1..])
    else
      var (head, tail) := SplitOnce(s[1..], sep);
      ([s[0]] + head, tail)
  }

  /** `scheme://bucket/key` with the key percent-encoded; `rest` is everything after `://`. */
  function EncodeS3Url(scheme: seq<byte>, rest: seq<byte>): seq<byte> {
    var (bucket, key) := SplitOnce(rest, SLASH);
    scheme + [COLON, SLASH, SLASH] + bucket + [SLASH] + PercentEncode(KeyEscape, key)
  }

  // ----- Parsing a URL (URL Standard, section 4.4; a scheme that is not special) -----

  function DropFirst(drop: byte -> bool, s: seq<byte>): seq<byte> {
    if |s| > 0 && drop(s[0]) then DropFirst(drop, s[1..]) else s
  }

  function DropLast(drop: byte -> bool, s: seq<byte>): seq<byte> {
    if |s| > 0 && drop(s[|s| - 1]) then DropLast(drop, s[..|s| - 1]) else s
  }

  function TakeUntil(stop: byte -> bool, s: seq<byte>): (r: seq<byte>)
    ensures r <= s
  {
    if |s| == 0 || stop(s[0]) then [] else [s[0]] + TakeUntil(stop, s[1..])
  }

  predicate IsControlOrSpace(b: byte) {
    b <= SPACE
  }

  predicate IsTabOrNewline(b: byte) {
    b == 0x09 || b == 0x0A || b == 0x0D
  }

  function WithoutTabs(s: seq<byte>): seq<byte> {
    if |s| == 0 then []
    else (if IsTabOrNewline(s[0]) then [] else [s[0]]) + WithoutTabs(s[1..])
  }

  predicate EndsPath(b: byte) {
    b == QUESTION || b == HASH
  }

  predicate EndsAuthority(b: byte) {
    b == SLASH || EndsPath(b)
  }

  /** The path percent-encode set. */
  predicate PathEscape(b: byte) {
    b <= SPACE || b == 0x7F || b == 0x22 || b == HASH || b == 0x3C || b == 0x3E || b == QUESTION ||
    b == 0x5E || b == 0x60 || b == 0x7B || b == 0x7D
  }

  /** What follows a dot, written plainly or as `%2e`. */
  function AfterDot(s: seq<byte>): Option<seq<byte>> {
    if |s| >= 1 && s[0] == DOT then Some(s[1..])
    else if |s| >= 3 && s[0] == PERCENT && s[1] == 0x32 && (s[2] == 0x45 || s[2] == 0x65) then Some(s[3..])
    else None
  }

  /** 1 for a single-dot segment, 2 for a double-dot one, else 0. */
  function UrlDots(segment: seq<byte>): nat {
    var one := AfterDot(segment);
    if one.None? then 0
    else if one.value == [] then 1
    else
      var two := AfterDot(one.value);
      if two.None? || two.value != [] then 0 else 2
  }

  /** A segment is kept; but a single dot keeps nothing and a double dot takes back the last one kept,
      and as the final segment either leaves an empty one. */
  function Keep(dots: nat, kept: seq<seq<byte>>, segment: seq<byte>, final: bool): seq<seq<byte>> {
    if dots == 0 then kept + [segment]
    else
      var up := if dots == 2 && |kept| > 0 then kept[..|kept| - 1] else kept;
      if final then up + [[]] else up
  }

  function Resolve(dots: seq<byte> -> nat, kept: seq<seq<byte>>, segments: seq<seq<byte>>): seq<seq<byte>>
    decreases |segments|
  {
    if |segments| == 0 then kept
    else Resolve(dots, Keep(dots(segments[0]), kept, segments[0], |segments| == 1), segments[1..])
  }

  function EncodeAll(escape: byte -> bool, segments: seq<seq<byte>>): seq<seq<byte>> {
    if |segments| == 0 then []
    else [PercentEncode(escape, segments[0])] + EncodeAll(escape, segments[1..])
  }

  datatype Url = Url(scheme: seq<byte>, authority: seq<byte>, path: seq<byte>)

  /** A URL with an authority and a scheme in lower case; `None` if the parser does not accept it. */
  function ParseUrl(accepts: seq<byte> -> bool, url: seq<byte>): Option<Url> {
    var trimmed := WithoutTabs(DropLast(IsControlOrSpace, DropFirst(IsControlOrSpace, url)));
    var (scheme, afterScheme) := SplitOnce(trimmed, COLON);
    if |afterScheme| < 2 || afterScheme[..2] != [SLASH, SLASH] then None
    else
      var authority := TakeUntil(EndsAuthority, afterScheme[2..]);
      var path := TakeUntil(EndsPath, afterScheme[2 + |authority|..]);
      if !accepts(authority) then None
      else if |path| == 0 then Some(Url(scheme, authority, []))
      else
        var segments := Resolve(UrlDots, [], Split(path[1..], SLASH));
        Some(Url(scheme, authority, [SLASH] + Join(EncodeAll(PathEscape, segments), SLASH)))
  }

  /** The path without its leading slash, decoded. */
  function RemoteKey(url: Url): seq<byte> {
    PercentDecode(if |url.path| > 0 && url.path[0] == SLASH then url.path[1..] else url.path)
  }

  // ----- What parsing does to a key -----

  predicate IsSpace(b: byte) {
    b == SPACE
  }

  /** Only dots written plainly: the escape of a `%` in the key keeps `%2e` from reading as a dot. */
  function KeyDots(segment: seq<byte>): nat {
    if segment == [DOT] then 1 else if segment == [DOT, DOT] then 2 else 0
  }

  /** The key without its last spaces and with its dot segments resolved. */
  function ResolvedKey(key: seq<byte>): seq<byte> {
    Join(Resolve(KeyDots, [], Split(DropLast(IsSpace, key), SLASH)), SLASH)
  }

  predicate BothEscape(b: byte) {
    KeyEscape(b) || PathEscape(b)
  }

  lemma {:induction false} EncodeConcat(escape: byte -> bool, a: seq<byte>, b: seq<byte>)
    ensures PercentEncode(escape, a + b) == PercentEncode(escape, a) + PercentEncode(escape, b)
  {
    if |a| == 0 {
      assert a + b == b;
    } else {
      assert (a + b)[1..] == a[1..] + b;
      EncodeConcat(escape, a[1..], b);
    }
  }

  lemma {:induction false} EncodePlain(escape: byte -> bool, s: seq<byte>)
    requires forall b :: b in s ==> !MustEscape(escape, b)
    ensures PercentEncode(escape, s) == s
  {
    if |s| > 0 {
      EncodePlain(escape, s[1..]);
      assert s == [s[0]] + s[1..];
    }
  }

  /** Encoding for the path what is already encoded for the key is encoding once, with both sets. */
  lemma {:induction false} EncodeTwice(key: seq<byte>)
    ensures PercentEncode(PathEscape, PercentEncode(KeyEscape, key)) == PercentEncode(BothEscape, key)
  {
    if |key| > 0 {
      EncodeTwice(key[1..]);
      EncodeConcat(PathEscape, EncodeByte(KeyEscape, key[0]), PercentEncode(KeyEscape, key[1..]));
      if MustEscape(KeyEscape, key[0]) {
        EncodePlain(PathEscape, EncodeByte(KeyEscape, key[0]));
      } else {
        assert PercentEncode(PathEscape, [key[0]]) == EncodeByte(PathEscape, key[0]) + [];
      }
    }
  }

  lemma {:induction false} SplitEncoded(key: seq<byte>)
    ensures Split(PercentEncode(KeyEscape, key), SLASH) == EncodeAll(KeyEscape, Split(key, SLASH))
  {
    if |key| > 0 {
      var encoded, rest := PercentEncode(KeyEscape, key), PercentEncode(KeyEscape, key[1..]);
      SplitEncoded(key[1..]);
      var parts := Split(key[1..], SLASH);
      if MustEscape(KeyEscape, key[0]) {
        SplitAfter(EncodeByte(KeyEscape, key[0]), rest);
      } else {
        assert encoded == [key[0]] + rest && encoded[1..] == rest;
      }
      if key[0] != SLASH {
        assert ([key[0]] + parts[0])[1..] == parts[0];
        assert ([[key[0]] + parts[0]] + parts[1..])[1..] == parts[1..];
      }
    }
  }

  /** Bytes that are no separators go to the first piece. */
  lemma {:induction false} SplitAfter(head: seq<byte>, s: seq<byte>)
    requires SLASH !in head
    ensures Split(head + s, SLASH) == [head + Split(s, SLASH)[0]] + Split(s, SLASH)[1..]
  {
    if |head| == 0 {
      assert head + s == s && head + Split(s, SLASH)[0] == Split(s, SLASH)[0];
    } else {
      assert (head + s)[1..] == head[1..] + s;
      SplitAfter(head[1..], s);
      assert [head[0]] + (head[1..] + Split(s, SLASH)[0]) == head + Split(s, SLASH)[0];
    }
  }

  lemma {:induction false} JoinEncoded(escape: byte -> bool, segments: seq<seq<byte>>)
    requires !escape(SLASH)
    ensures Join(EncodeAll(escape, segments), SLASH) == PercentEncode(escape, Join(segments, SLASH))
  {
    if |segments| > 1 {
      JoinEncoded(escape, segments[1..]);
      EncodeConcat(escape, segments[0] + [SLASH], Join(segments[1..], SLASH));
      EncodeConcat(escape, segments[0], [SLASH]);
      EncodePlain(escape, [SLASH]);
    }
  }

  lemma {:induction false} EncodeAllTwice(segments: seq<seq<byte>>)
    ensures EncodeAll(PathEscape, EncodeAll(KeyEscape, segments)) == EncodeAll(BothEscape, segments)
  {
    if |segments| > 0 {
      EncodeAllTwice(segments[1..]);
      EncodeTwice(segments[0]);
    }
  }

  lemma AfterEncodedDot(s: seq<byte>)
    ensures AfterDot(PercentEncode(KeyEscape, s)) ==
            if |s| > 0 && s[0] == DOT then Some(PercentEncode(KeyEscape, s[1..])) else None
  {
    if |s| > 0 {
      EncodeCons(KeyEscape, s);
      hide PercentEncode;
      var encoded := PercentEncode(KeyEscape, s);
      if MustEscape(KeyEscape, s[0]) {
        assert encoded[1] == HexDigit(s[0] / 16) && encoded[2] == HexDigit(s[0] % 16);
      } else {
        assert encoded[0] == s[0] && encoded[1..] == PercentEncode(KeyEscape, s[1..]);
      }
    }
  }

  /** A segment of the encoded key is a dot segment just where the key has one, plainly written. */
  lemma DotsEncoded(s: seq<byte>)
    ensures UrlDots(PercentEncode(KeyEscape, s)) == KeyDots(s)
  {
    AfterEncodedDot(s);
    if |s| > 0 && s[0] == DOT {
      AfterEncodedDot(s[1..]);
      assert s == [DOT] + s[1..];
      if |s| > 1 && s[1] == DOT {
        assert s == [DOT, DOT] + s[2..] && s[1..][1..] == s[2..];
      }
    }
  }

  lemma {:induction false} EncodeAllConcat(escape: byte -> bool, a: seq<seq<byte>>, b: seq<seq<byte>>)
    ensures |EncodeAll(escape, a)| == |a|
    ensures EncodeAll(escape, a + b) == EncodeAll(escape, a) + EncodeAll(escape, b)
  {
    if |a| == 0 {
      assert a + b == b;
    } else {
      assert (a + b)[1..] == a[1..] + b;
      EncodeAllConcat(escape, a[1..], b);
    }
  }

  lemma KeepEncoded(dots: nat, kept: seq<seq<byte>>, segment: seq<byte>, final: bool)
    ensures Keep(dots, EncodeAll(KeyEscape, kept), PercentEncode(KeyEscape, segment), final) ==
            EncodeAll(KeyEscape, Keep(dots, kept, segment, final))
  {
    EncodeAllConcat(KeyEscape, kept, [segment]);
    assert EncodeAll(KeyEscape, [segment]) == [PercentEncode(KeyEscape, segment)];
    assert EncodeAll(KeyEscape, [[]]) == [[]];
    EncodeAllConcat(KeyEscape, kept, [[]]);
    if |kept| > 0 {
      var up := kept[..|kept| - 1];
      assert kept == up + [kept[|kept| - 1]];
      EncodeAllConcat(KeyEscape, up, [kept[|kept| - 1]]);
      EncodeAllConcat(KeyEscape, up, [[]]);
    }
  }

  lemma {:induction false} ResolveEncoded(kept: seq<seq<byte>>, segments: seq<seq<byte>>)
    ensures Resolve(UrlDots, EncodeAll(KeyEscape, kept), EncodeAll(KeyEscape, segments)) ==
            EncodeAll(KeyEscape, Resolve(KeyDots, kept, segments))
    decreases |segments|
  {
    if |segments| > 0 {
      hide UrlDots, KeyDots, PercentEncode, Keep;
      DotsEncoded(segments[0]);
      EncodeAllConcat(KeyEscape, segments, []);
      var d, final := KeyDots(segments[0]), |segments| == 1;
      KeepEncoded(d, kept, segments[0], final);
      ResolveEncoded(Keep(d, kept, segments[0], final), segments[1..]);
    }
  }

  /** Splitting, resolving and encoding the encoded key, then decoding, is resolving the key. */
  lemma PathOfKey(key: seq<byte>)
    ensures var segments := Resolve(UrlDots, [], Split(PercentEncode(KeyEscape, key), SLASH));
            PercentDecode(Join(EncodeAll(PathEscape, segments), SLASH)) ==
            Join(Resolve(KeyDots, [], Split(key, SLASH)), SLASH)
  {
    hide Resolve, Split, Join, PercentEncode, PercentDecode;
    var resolved := Resolve(KeyDots, [], Split(key, SLASH));
    SplitEncoded(key);
    ResolveEncoded([], Split(key, SLASH));
    EncodeAllTwice(resolved);
    JoinEncoded(BothEscape, resolved);
    KeyRoundTrip(BothEscape, Join(resolved, SLASH));
  }

  // ----- What parsing does around a key -----

  lemma {:induction false} DropLastEncoded(key: seq<byte>)
    ensures DropLast(IsControlOrSpace, PercentEncode(KeyEscape, key)) ==
            PercentEncode(KeyEscape, DropLast(IsSpace, key))
  {
    if |key| > 0 {
      var init, last := key[..|key| - 1], key[|key| - 1];
      assert key == init + [last];
      EncodeConcat(KeyEscape, init, [last]);
      assert PercentEncode(KeyEscape, [last]) == EncodeByte(KeyEscape, last) + [];
      if last == SPACE {
        var encoded := PercentEncode(KeyEscape, key);
        assert encoded[..|encoded| - 1] == PercentEncode(KeyEscape, init);
        DropLastEncoded(init);
      }
    }
  }

  lemma {:induction false} DropLastBehind(drop: byte -> bool, head: seq<byte>, tail: seq<byte>)
    requires |head| > 0 && !drop(head[|head| - 1])
    ensures DropLast(drop, head + tail) == head + DropLast(drop, tail)
  {
    var s := head + tail;
    if |tail| == 0 {
      assert s == head;
    } else if drop(tail[|tail| - 1]) {
      assert s[..|s| - 1] == head + tail[..|tail| - 1];
      DropLastBehind(drop, head, tail[..|tail| - 1]);
    }
  }

  lemma {:induction false} WithoutTabsConcat(a: seq<byte>, b: seq<byte>)
    ensures WithoutTabs(a + b) == WithoutTabs(a) + WithoutTabs(b)
  {
    if |a| == 0 {
      assert a + b == b;
    } else {
      assert (a + b)[1..] == a[1..] + b;
      WithoutTabsConcat(a[1..], b);
    }
  }

  lemma {:induction false} NoTabs(s: seq<byte>)
    requires forall b :: b in s ==> !IsTabOrNewline(b)
    ensures WithoutTabs(s) == s
  {
    if |s| > 0 {
      NoTabs(s[1..]);
      assert s == [s[0]] + s[1..];
    }
  }

  lemma {:induction false} SplitOnceAt(head: seq<byte>, sep: byte, tail: seq<byte>)
    requires sep !in head
    ensures SplitOnce(head + [sep] + tail, sep) == (head, tail)
  {
    var s := head + [sep] + tail;
    if |head| == 0 {
      assert s[1..] == tail;
    } else {
      assert s[1..] == head[1..] + [sep] + tail;
      SplitOnceAt(head[1..], sep, tail);
      assert head == [head[0]] + head[1..];
    }
  }

  lemma {:induction false} TakeUntilStop(stop: byte -> bool, head: seq<byte>, tail: seq<byte>)
    requires forall b :: b in head ==> !stop(b)
    requires |tail| > 0 ==> stop(tail[0])
    ensures TakeUntil(stop, head + tail) == head
  {
    if |head| > 0 {
      assert (head + tail)[1..] == head[1..] + tail;
      TakeUntilStop(stop, head[1..], tail);
      assert head == [head[0]] + head[1..];
    }
  }

  /** Where a byte stops, the part taken ends, and what follows does not matter. */
  lemma {:induction false} TakeUntilWithin(stop: byte -> bool, head: seq<byte>, tail: seq<byte>)
    requires exists b :: b in head && stop(b)
    ensures TakeUntil(stop, head + tail) == TakeUntil(stop, head)
    ensures |TakeUntil(stop, head)| < |head| && stop(head[|TakeUntil(stop, head)|])
  {
    if !stop(head[0]) {
      assert (head + tail)[1..] == head[1..] + tail;
      TakeUntilWithin(stop, head[1..], tail);
    }
  }

  lemma {:induction false} SplitOnceBefore(s: seq<byte>, sep: byte)
    ensures sep !in SplitOnce(s, sep).0
    ensures forall b :: b in SplitOnce(s, sep).0 ==> b in s
  {
    if |s| > 0 && s[0] != sep {
      SplitOnceBefore(s[1..], sep);
    }
  }

  lemma {:induction false} WithoutTabsKeeps(s: seq<byte>, b: byte)
    requires !IsTabOrNewline(b)
    ensures b in WithoutTabs(s) <==> b in s
  {
    if |s| > 0 {
      WithoutTabsKeeps(s[1..], b);
      assert s == [s[0]] + s[1..];
    }
  }

  /** The schemes this URL is built for. */
  predicate IsS3Scheme(scheme: seq<byte>) {
    scheme == [0x73, 0x33] || scheme == [0x73, 0x33, 0x61]
  }

  /** Trimmed, and without tabs and newlines, the URL is that of the key without its last spaces. */
  lemma TrimmedUrl(scheme: seq<byte>, bucket: seq<byte>, key: seq<byte>)
    requires IsS3Scheme(scheme)
    ensures var url := scheme + [COLON, SLASH, SLASH] + bucket + [SLASH] + PercentEncode(KeyEscape, key);
            var tail := PercentEncode(KeyEscape, DropLast(IsSpace, key));
            WithoutTabs(DropLast(IsControlOrSpace, DropFirst(IsControlOrSpace, url))) ==
            scheme + [COLON] + ([SLASH, SLASH] + (WithoutTabs(bucket) + ([SLASH] + tail)))
  {
    hide PercentEncode, KeyEscape, DropLast;
    var head := scheme + [COLON, SLASH, SLASH] + bucket + [SLASH];
    var encoded, tail := PercentEncode(KeyEscape, key), PercentEncode(KeyEscape, DropLast(IsSpace, key));
    assert DropFirst(IsControlOrSpace, head + encoded) == head + encoded;
    hide DropFirst;
    DropLastBehind(IsControlOrSpace, head, encoded);
    DropLastEncoded(key);
    TailIsClean(DropLast(IsSpace, key));
    HeadWithoutTabs(scheme, bucket);
    WithoutTabsConcat(head, tail);
    NoTabs(tail);
    hide WithoutTabs;
    var plain := WithoutTabs(bucket);
    Regrouped(scheme, plain, tail);
  }

  lemma Regrouped(scheme: seq<byte>, bucket: seq<byte>, tail: seq<byte>)
    ensures scheme + [COLON, SLASH, SLASH] + bucket + [SLASH] + tail ==
            scheme + [COLON] + ([SLASH, SLASH] + (bucket + ([SLASH] + tail)))
  {
  }

  lemma HeadWithoutTabs(scheme: seq<byte>, bucket: seq<byte>)
    requires IsS3Scheme(scheme)
    ensures WithoutTabs(scheme + [COLON, SLASH, SLASH] + bucket + [SLASH]) ==
            scheme + [COLON, SLASH, SLASH] + WithoutTabs(bucket) + [SLASH]
  {
    var head := scheme + [COLON, SLASH, SLASH];
    WithoutTabsConcat(head + bucket, [SLASH]);
    WithoutTabsConcat(head, bucket);
    NoTabs(head);
    NoTabs([SLASH]);
  }

  lemma TailIsClean(key: seq<byte>)
    ensures forall b :: b in PercentEncode(KeyEscape, key) ==> !IsTabOrNewline(b) && !EndsPath(b)
  {
    EncodingIsClean(key);
  }

  /** The authority and path that a parser reads from what follows `://`. */
  lemma AuthorityAndPath(bucket: seq<byte>, tail: seq<byte>)
    requires SLASH !in bucket && forall b :: b in tail ==> !EndsPath(b)
    ensures var s := bucket + ([SLASH] + tail);
            var authority := TakeUntil(EndsAuthority, s);
            authority == TakeUntil(EndsPath, bucket) &&
            TakeUntil(EndsPath, s[|authority|..]) ==
            if QUESTION in bucket || HASH in bucket then [] else [SLASH] + tail
  {
    var s := bucket + ([SLASH] + tail);
    if QUESTION in bucket || HASH in bucket {
      TakeUntilWithin(EndsAuthority, bucket, [SLASH] + tail);
      TakeUntilSame(bucket);
    } else {
      TakeUntilStop(EndsAuthority, bucket, [SLASH] + tail);
      TakeUntilStop(EndsPath, bucket, []);
      assert bucket + [] == bucket;
      assert s[|bucket|..] == [SLASH] + tail;
      TakeUntilStop(EndsPath, [SLASH] + tail, []);
      assert [SLASH] + tail + [] == [SLASH] + tail;
    }
  }

  lemma {:induction false} TakeUntilSame(s: seq<byte>)
    requires SLASH !in s
    ensures TakeUntil(EndsAuthority, s) == TakeUntil(EndsPath, s)
  {
    if |s| > 0 {
      TakeUntilSame(s[1..]);
    }
  }

  /** What comes back, for every bucket and key: no URL if the parser does not accept the bucket, and
      otherwise the scheme, the bucket without tabs and newlines up to a `?` or `#`, and as key nothing
      if it holds such a byte, or the resolved key. */
  lemma KeyRead(accepts: seq<byte> -> bool, scheme: seq<byte>, rest: seq<byte>)
    requires IsS3Scheme(scheme)
    ensures var (bucket, key) := SplitOnce(rest, SLASH);
            var url := ParseUrl(accepts, EncodeS3Url(scheme, rest));
            var authority := TakeUntil(EndsPath, WithoutTabs(bucket));
            if !accepts(authority) then url == None
            else
              url.Some? && url.value.scheme == scheme && url.value.authority == authority &&
              RemoteKey(url.value) == if QUESTION in bucket || HASH in bucket then [] else ResolvedKey(key)
  {
    hide WithoutTabs, TakeUntil, DropLast, DropFirst, Resolve, Split, Join, PercentEncode;
    var (bucket, key) := SplitOnce(rest, SLASH);
    var plain := WithoutTabs(bucket);
    var encoded := PercentEncode(KeyEscape, DropLast(IsSpace, key));
    TrimmedUrl(scheme, bucket, key);
    SplitOnceBefore(rest, SLASH);
    WithoutTabsKeeps(bucket, SLASH);
    WithoutTabsKeeps(bucket, QUESTION);
    WithoutTabsKeeps(bucket, HASH);
    var authorityAndPath := plain + ([SLASH] + encoded);
    SplitOnceAt(scheme, COLON, [SLASH, SLASH] + authorityAndPath);
    assert ([SLASH, SLASH] + authorityAndPath)[..2] == [SLASH, SLASH];
    assert ([SLASH, SLASH] + authorityAndPath)[2..] == authorityAndPath;
    hide SplitOnce;
    TailIsClean(DropLast(IsSpace, key));
    AuthorityAndPath(plain, encoded);
    var authority := TakeUntil(EndsAuthority, authorityAndPath);
    assert ([SLASH, SLASH] + authorityAndPath)[2 + |authority|..] == authorityAndPath[|authority|..];
    PathOfKey(DropLast(IsSpace, key));
    assert ([SLASH] + encoded)[1..] == encoded;
    var path := Join(EncodeAll(PathEscape, Resolve(UrlDots, [], Split(encoded, SLASH))), SLASH);
    assert ([SLASH] + path)[1..] == path;
  }

  // ----- Which keys come back unchanged -----

  /** The length of the joined segments, and one. */
  function Weight(segments: seq<seq<byte>>): nat {
    if |segments| == 0 then 0 else |segments[0]| + 1 + Weight(segments[1..])
  }

  lemma {:induction false} WeightConcat(a: seq<seq<byte>>, b: seq<seq<byte>>)
    ensures Weight(a + b) == Weight(a) + Weight(b)
  {
    if |a| == 0 {
      assert a + b == b;
    } else {
      assert (a + b)[1..] == a[1..] + b;
      WeightConcat(a[1..], b);
    }
  }

  lemma {:induction false} JoinWeight(segments: seq<seq<byte>>)
    requires |segments| > 0
    ensures |Join(segments, SLASH)| == Weight(segments) - 1
  {
    if |segments| > 1 {
      JoinWeight(segments[1..]);
    } else {
      assert Weight(segments[1..]) == 0;
    }
  }

  ghost predicate HasDots(segments: seq<seq<byte>>) {
    exists segment :: segment in segments && KeyDots(segment) != 0
  }

  lemma KeepShortens(kept: seq<seq<byte>>, segment: seq<byte>, final: bool)
    ensures var d := KeyDots(segment);
            var next := Keep(d, kept, segment, final);
            (final ==> |next| > 0) &&
            Weight(next) <= Weight(kept) + |segment| + 1 &&
            if d == 0 then next == kept + [segment] else Weight(next) < Weight(kept) + |segment| + 1
  {
    WeightConcat(kept, [segment]);
    WeightConcat(kept, [[]]);
    assert Weight([[]]) == 1 && Weight([segment]) == |segment| + 1;
    if |kept| > 0 {
      var up := kept[..|kept| - 1];
      assert kept == up + [kept[|kept| - 1]];
      WeightConcat(up, [kept[|kept| - 1]]);
      WeightConcat(up, [[]]);
    }
  }

  /** Resolving dot segments shortens; without any, it changes nothing. */
  lemma {:induction false} ResolveShortens(kept: seq<seq<byte>>, segments: seq<seq<byte>>)
    ensures var resolved := Resolve(KeyDots, kept, segments);
            (|segments| > 0 ==> |resolved| > 0) &&
            if HasDots(segments) then Weight(resolved) < Weight(kept) + Weight(segments)
            else resolved == kept + segments
    decreases |segments|
  {
    if |segments| == 0 {
      assert kept + segments == kept;
    } else {
      hide Keep, KeyDots, HasDots;
      var s, rest := segments[0], segments[1..];
      var next := Keep(KeyDots(s), kept, s, |segments| == 1);
      KeepShortens(kept, s, |segments| == 1);
      ResolveShortens(next, rest);
      WeightConcat(next, rest);
      DotsInTail(segments);
      assert kept + [s] + rest == kept + segments;
    }
  }

  lemma DotsInTail(segments: seq<seq<byte>>)
    requires |segments| > 0
    ensures HasDots(segments) <==> KeyDots(segments[0]) != 0 || HasDots(segments[1..])
  {
    assert segments == [segments[0]] + segments[1..];
  }

  lemma {:induction false} DropLastShortens(drop: byte -> bool, s: seq<byte>)
    ensures |DropLast(drop, s)| <= |s|
    ensures DropLast(drop, s) == s <==> |s| == 0 || !drop(s[|s| - 1])
  {
    if |s| > 0 && drop(s[|s| - 1]) {
      DropLastShortens(drop, s[..|s| - 1]);
    }
  }

  /** A key is its resolved form if and only if it does not end in a space and none of its segments is
      `.` or `..`. */
  lemma ResolvedExact(key: seq<byte>)
    ensures ResolvedKey(key) == key <==>
            (key == [] || key[|key| - 1] != SPACE) &&
            forall segment :: segment in Split(key, SLASH) ==> segment != [DOT] && segment != [DOT, DOT]
  {
    var trimmed := DropLast(IsSpace, key);
    DropLastShortens(IsSpace, key);
    var segments := Split(trimmed, SLASH);
    JoinSplit(trimmed, SLASH);
    JoinWeight(segments);
    ResolveShortens([], segments);
    assert [] + segments == segments;
    var resolved := Resolve(KeyDots, [], segments);
    JoinWeight(resolved);
    if trimmed == key {
      assert HasDots(segments) <==>
        !forall segment :: segment in segments ==> segment != [DOT] && segment != [DOT, DOT];
    }
  }

  /** Once the URL parses, the key comes back unchanged if and only if it is empty, or the bucket's part
      holds no `?` or `#`, no segment of the key is `.` or `..`, and it does not end in a space. */
  lemma RemoteKeyExact(accepts: seq<byte> -> bool, scheme: seq<byte>, rest: seq<byte>)
    requires IsS3Scheme(scheme) && ParseUrl(accepts, EncodeS3Url(scheme, rest)).Some?
    ensures var (bucket, key) := SplitOnce(rest, SLASH);
            RemoteKey(ParseUrl(accepts, EncodeS3Url(scheme, rest)).value) == key <==>
            key == [] ||
            (QUESTION !in bucket && HASH !in bucket && key[|key| - 1] != SPACE &&
             forall segment :: segment in Split(key, SLASH) ==> segment != [DOT] && segment != [DOT, DOT])
  {
    hide ParseUrl, EncodeS3Url, RemoteKey, ResolvedKey, Split, SplitOnce;
    var (bucket, key) := SplitOnce(rest, SLASH);
    KeyRead(accepts, scheme, rest);
    ResolvedExact(key);
    if key == [] {
      SplitNoSeparator(key, SLASH);
    }
  }

  /** Keys that do not come back: `a/../c` is read as `c`, `a/.` as `a/`, and `a` and a space as `a`. */
  lemma KeysLost()
    ensures ResolvedKey([0x61, SLASH, DOT, DOT, SLASH, 0x63]) == [0x63]
    ensures ResolvedKey([0x61, SLASH, DOT]) == [0x61, SLASH]
    ensures ResolvedKey([0x61, SPACE]) == [0x61]
  {
    hide Resolve, Split;
    var a, dot, up, c: seq<byte> := [0x61], [DOT], [DOT, DOT], [0x63];
    assert a + [SLASH] + (up + [SLASH] + c) == [0x61, SLASH, DOT, DOT, SLASH, 0x63];
    assert a + [SLASH] + dot == [0x61, SLASH, DOT];
    SplitAtSeparator(a, SLASH, up + [SLASH] + c);
    SplitAtSeparator(up, SLASH, c);
    SplitAtSeparator(a, SLASH, dot);
    SplitNoSeparator(c, SLASH);
    SplitNoSeparator(a, SLASH);
    SplitNoSeparator(dot, SLASH);
    UpOne(a, c);
    assert [a] + ([up] + [c]) == [a, up, c] && [a] + [dot] == [a, dot];
    assert Join([a, []], SLASH) == a + [SLASH];
    assert [0x61, SPACE][..1] == a;
    assert DropLast(IsSpace, [0x61, SPACE]) == DropLast(IsSpace, a) == a;
  }

  lemma UpOne(a: seq<byte>, c: seq<byte>)
    requires KeyDots(a) == 0 && KeyDots(c) == 0
    ensures Resolve(KeyDots, [], [a, [DOT, DOT], c]) == [c]
    ensures Resolve(KeyDots, [], [a, [DOT]]) == [a, []]
    ensures Resolve(KeyDots, [], [a]) == [a]
  {
    assert KeyDots([DOT, DOT]) == 2 && KeyDots([DOT]) == 1;
    hide KeyDots;
    var two, one := [[DOT, DOT], c], [c];
    assert [a, [DOT, DOT], c][1..] == two && two[1..] == one && one[1..] == [] && [a][1..] == [];
    assert [] + [a] == [a] && [a][..0] == [] && [] + [c] == [c];
    assert Resolve(KeyDots, [], one) == Resolve(KeyDots, [c], []);
    assert Resolve(KeyDots, [a], two) == Resolve(KeyDots, [], one);
    assert Resolve(KeyDots, [], [a]) == Resolve(KeyDots, [a], []);
    assert [a, [DOT]][1..] == [[DOT]] && [[DOT]][1..] == [] && [a] + [[]] == [a, []];
    assert Resolve(KeyDots, [a], [[DOT]]) == Resolve(KeyDots, [a, []], []);
  }
}

/** Streams as they are written, record by record, against the frames that parsing finds in them. */
module Streams {
  import opened Bytes
  import opened Wrappers
  import opened Mrt
  import opened Framing

  /** A record to write: the first eight bytes of its header, and its body. */
  datatype Item = Item(start: seq<byte>, body: seq<byte>)

  const MAX_BODY: nat := 0x1_0000_0000

  ghost predicate Writable(item: Item) {
    |item.start| == 8 && |item.body| < MAX_BODY
  }

  /** The header announces the body's length in four bytes, the most significant first. */
  function Header(item: Item): seq<byte>
    requires Writable(item)
  {
    var n := |item.body|;
    item.start + [n / 0x100_0000, n / 0x1_0000 % 256, n / 0x100 % 256, n % 256]
  }

  function Written(items: seq<Item>): seq<byte>
    requires forall item :: item in items ==> Writable(item)
  {
    if |items| == 0 then [] else Header(items[0]) + items[0].body + Written(items[1..])
  }

  /** The bytes that items take: twelve of header each, and the bodies. */
  function Size(items: seq<Item>): nat {
    if |items| == 0 then 0 else 12 + |items[0].body| + Size(items[1..])
  }

  /** Decoding the item neither tears the stream nor reports its end. */
  ghost predicate Aligns(fmt: Format, item: Item)
    requires Writable(item)
  {
    var outcome := fmt.decode(Header(item), item.body);
    outcome.Ok? || IsRecoverable(outcome.error)
  }

  lemma FourBytes(four: seq<byte>)
    requires |four| == 4
    ensures BigEndian(four) == 256 * (256 * (256 * (four[0] as int) + four[1]) + four[2]) + four[3]
  {
    assert four[..3][..2] == four[..2] && four[..2][..1] == four[..1] && four[..1][..0] == [];
    assert BigEndian(four[..1]) == four[0];
    assert BigEndian(four[..2]) == 256 * BigEndian(four[..1]) + four[1];
    assert BigEndian(four[..3]) == 256 * BigEndian(four[..2]) + four[2];
  }

  lemma FourDigits(n: nat, a: byte, b: byte, c: byte, d: byte)
    requires n < MAX_BODY
    ensures n == 256 * (256 * (256 * (a as int) + b) + c) + d <==>
            a == n / 0x100_0000 && b == n / 0x1_0000 % 256 && c == n / 0x100 % 256 && d == n % 256
  {
  }

  lemma LengthBytes(header: seq<byte>, n: nat)
    requires |header| == HEADER_LEN && n < MAX_BODY
    ensures BodyLength(header) < MAX_BODY
    ensures BodyLength(header) == n <==>
            header[8..] == [n / 0x100_0000, n / 0x1_0000 % 256, n / 0x100 % 256, n % 256]
  {
    var four := header[8..];
    FourBytes(four);
    hide BigEndian;
    FourDigits(n, four[0], four[1], four[2], four[3]);
  }

  /** Where an item was written, parsing reads its body, whatever surrounds it. */
  lemma ParseItem(fmt: Format, data: seq<byte>, pos: nat, item: Item, rest: seq<byte>)
    requires Writable(item) && pos <= |data| && data[pos..] == Header(item) + item.body + rest
    ensures ParseAt(fmt, data, pos) == Parsed(fmt.decode(Header(item), item.body), pos + 12 + |item.body|)
  {
    var header, tail := Header(item), data[pos..];
    assert data[pos..pos + 12] == tail[..12] == header;
    LengthBytes(header, |item.body|);
    assert header[8..] == Header(item)[8..];
    var end := pos + 12 + |item.body|;
    assert data[pos + 12..end] == tail[12..12 + |item.body|] == item.body;
  }

  lemma {:induction false} FramesWritten(fmt: Format, data: seq<byte>, pos: nat, items: seq<Item>, rest: seq<byte>)
    requires forall item :: item in items ==> Writable(item) && Aligns(fmt, item)
    requires pos <= |data| && data[pos..] == Written(items) + rest
    ensures var fs, end := FramesFrom(fmt, data, pos), pos + Size(items);
            end <= |data| && data[end..] == rest && |fs| >= |items| &&
            fs[|items|..] == FramesFrom(fmt, data, end) &&
            forall k :: 0 <= k < |items| ==>
              fs[k] == Parsed(fmt.decode(Header(items[k]), items[k].body), pos + Size(items[..k + 1]))
    decreases |items|
  {
    hide ParseAt, Header, Aligns;
    if |items| > 0 {
      var first, more := items[0], items[1..];
      ItemFirst(fmt, data, pos, items, rest);
      var next := pos + 12 + |first.body|;
      FramesWritten(fmt, data, next, more, rest);
      var fs, later := FramesFrom(fmt, data, pos), FramesFrom(fmt, data, next);
      assert fs == [ParseAt(fmt, data, pos)] + later;
      assert fs[|items|..] == later[|more|..];
      forall k | 0 <= k < |items|
        ensures fs[k] == Parsed(fmt.decode(Header(items[k]), items[k].body), pos + Size(items[..k + 1]))
      {
        assert items[..k + 1][0] == first && items[..k + 1][1..] == more[..k];
        assert k == 0 ==> Size(more[..0]) == 0;
      }
    }
  }

  lemma ItemFirst(fmt: Format, data: seq<byte>, pos: nat, items: seq<Item>, rest: seq<byte>)
    requires |items| > 0 && forall item :: item in items ==> Writable(item) && Aligns(fmt, item)
    requires pos <= |data| && data[pos..] == Written(items) + rest
    ensures var item := items[0];
            var next := pos + 12 + |item.body|;
            ParseAt(fmt, data, pos) == Parsed(fmt.decode(Header(item), item.body), next) &&
            next <= |data| && data[next..] == Written(items[1..]) + rest &&
            var p := ParseAt(fmt, data, pos);
            p.outcome != Err(EofExpected) && !IsTorn(p)
  {
    var item, later := items[0], Written(items[1..]) + rest;
    assert data[pos..] == Header(item) + item.body + later;
    ParseItem(fmt, data, pos, item, later);
    var next := pos + 12 + |item.body|;
    assert data[next..] == data[pos..][12 + |item.body|..] == later;
    assert Aligns(fmt, item);
  }

  /** Parsing undoes writing: the stream of any items that decode without tearing it has exactly one
      frame an item, holding what the item's header and body decode to and ending where it ends. */
  lemma WrittenFrames(fmt: Format, items: seq<Item>)
    requires forall item :: item in items ==> Writable(item) && Aligns(fmt, item)
    ensures var fs := Frames(fmt, Written(items));
            |fs| == |items| && |Written(items)| == Size(items) &&
            forall k :: 0 <= k < |items| ==>
              fs[k] == Parsed(fmt.decode(Header(items[k]), items[k].body), Size(items[..k + 1]))
  {
    hide ParseAt, Header, Aligns, Written, Size;
    var data := Written(items);
    assert data[0..] == data + [];
    FramesWritten(fmt, data, 0, items, []);
    var fs := Frames(fmt, data);
    assert data[Size(items)..] == [];
    assert FramesFrom(fmt, data, |data|) == [] by {
      assert ParseAt(fmt, data, |data|).outcome == Err(EofExpected);
    }
    assert fs[|items|..] == [];
  }

  // ----- Every stream that is not torn was written so -----

  lemma HeaderOf(header: seq<byte>, body: seq<byte>)
    requires |header| == HEADER_LEN && |body| == BodyLength(header)
    ensures Writable(Item(header[..8], body)) && Header(Item(header[..8], body)) == header
  {
    LengthBytes(header, 0);
    LengthBytes(header, |body|);
    hide BodyLength;
    assert header == header[..8] + header[8..];
  }

  lemma FirstItem(fmt: Format, data: seq<byte>, pos: nat) returns (item: Item)
    requires pos <= |data| && var p := ParseAt(fmt, data, pos); p.outcome != Err(EofExpected) && !IsTorn(p)
    ensures Writable(item)
    ensures Aligns(fmt, item)
    ensures var end := ParseAt(fmt, data, pos).end; data[pos..] == Header(item) + item.body + data[end..]
  {
    hide BodyLength;
    var p := ParseAt(fmt, data, pos);
    var header, body := data[pos..pos + HEADER_LEN], data[pos + HEADER_LEN..p.end];
    item := Item(header[..8], body);
    HeaderOf(header, body);
    assert data[pos..] == header + body + data[p.end..];
  }

  lemma {:induction false} ItemsOf(fmt: Format, data: seq<byte>, pos: nat)
    returns (items: seq<Item>, rest: seq<byte>)
    requires pos <= |data| && forall f :: f in FramesFrom(fmt, data, pos) ==> !IsTorn(f)
    ensures forall item :: item in items ==> Writable(item) && Aligns(fmt, item)
    ensures |items| == |FramesFrom(fmt, data, pos)| && |rest| <= |data|
    ensures data[pos..] == Written(items) + rest
    ensures ParseAt(fmt, data, |data| - |rest|).outcome == Err(EofExpected)
    decreases |data| - pos
  {
    hide ParseAt, Header, Aligns, Writable;
    var p := ParseAt(fmt, data, pos);
    if p.outcome == Err(EofExpected) {
      items, rest := [], data[pos..];
    } else {
      assert !IsTorn(p) by {
        assert p in FramesFrom(fmt, data, pos);
      }
      var item := FirstItem(fmt, data, pos);
      assert FramesFrom(fmt, data, pos) == [p] + FramesFrom(fmt, data, p.end);
      var later;
      later, rest := ItemsOf(fmt, data, p.end);
      items := [item] + later;
      assert items[1..] == later;
    }
  }

  /** Writing undoes parsing: a stream without a torn frame is the items of its frames as they are
      written, up to where parsing takes it to end. */
  lemma StreamIsWritten(fmt: Format, data: seq<byte>)
    requires forall f :: f in Frames(fmt, data) ==> !IsTorn(f)
    ensures exists items, rest ::
              (forall item :: item in items ==> Writable(item) && Aligns(fmt, item)) &&
              |items| == |Frames(fmt, data)| && |rest| <= |data| && data == Written(items) + rest &&
              ParseAt(fmt, data, |data| - |rest|).outcome == Err(EofExpected)
  {
    hide FramesFrom, ParseAt;
    var items, rest := ItemsOf(fmt, data, 0);
    assert data[0..] == data;
  }
}

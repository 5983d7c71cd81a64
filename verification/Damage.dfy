/** Damage stays local: an undecodable body costs its own rows, a truncated source only its tail. */
module Damage {
  import opened Bytes
  import opened Wrappers
  import opened Mrt
  import opened Framing
  import opened Decode
  import opened Scan
  import opened ScanProofs
  import opened Resume

  // ----- Framing is local -----

  /** A parse attempt depends only on the bytes it consumes. */
  lemma ParseIsLocal(fmt: Format, data: seq<byte>, other: seq<byte>, pos: nat)
    requires pos <= |data| == |other|
    requires data[pos..ParseAt(fmt, data, pos).end] == other[pos..ParseAt(fmt, data, pos).end]
    ensures ParseAt(fmt, other, pos) == ParseAt(fmt, data, pos)
  {
    var end := ParseAt(fmt, data, pos).end;
    var used, used' := data[pos..end], other[pos..end];
    if |data| - pos >= HEADER_LEN {
      assert data[pos..pos + HEADER_LEN] == used[..HEADER_LEN] == used'[..HEADER_LEN] == other[pos..pos + HEADER_LEN];
      assert data[pos + HEADER_LEN..end] == used[HEADER_LEN..] == used'[HEADER_LEN..] == other[pos + HEADER_LEN..end];
    }
  }

  lemma {:induction false} FramesOfSameSuffix(fmt: Format, data: seq<byte>, other: seq<byte>, pos: nat)
    requires pos <= |data| == |other| && data[pos..] == other[pos..]
    ensures FramesFrom(fmt, other, pos) == FramesFrom(fmt, data, pos)
    decreases |data| - pos
  {
    var p := ParseAt(fmt, data, pos);
    assert data[pos..p.end] == data[pos..][..p.end - pos] == other[pos..][..p.end - pos] == other[pos..p.end];
    ParseIsLocal(fmt, data, other, pos);
    if p.outcome != Err(EofExpected) && !IsTorn(p) {
      assert data[p.end..] == data[pos..][p.end - pos..] == other[pos..][p.end - pos..] == other[p.end..];
      FramesOfSameSuffix(fmt, data, other, p.end);
    }
  }

  // ----- One undecodable body -----

  /** `other` is `data` with the body of the complete frame at `pos` replaced by bytes of the same
      length that do not decode, for the reason `err`. */
  ghost predicate BodySpoiled(fmt: Format, data: seq<byte>, other: seq<byte>, pos: nat, end: nat, err: ParserError) {
    pos + HEADER_LEN <= end <= |data| == |other| &&
    other[..pos + HEADER_LEN] == data[..pos + HEADER_LEN] && other[end..] == data[end..] &&
    fmt.decode(other[pos..pos + HEADER_LEN], other[pos + HEADER_LEN..end]) == Err(err) && IsRecoverable(err)
  }

  lemma SpoiledParse(fmt: Format, data: seq<byte>, other: seq<byte>, pos: nat, err: ParserError)
    requires pos <= |data| && ParseAt(fmt, data, pos).outcome.Ok?
    requires BodySpoiled(fmt, data, other, pos, ParseAt(fmt, data, pos).end, err)
    ensures ParseAt(fmt, other, pos) == Parsed(Err(err), ParseAt(fmt, data, pos).end)
  {
    var head := data[..pos + HEADER_LEN];
    assert data[pos..pos + HEADER_LEN] == head[pos..] == other[pos..pos + HEADER_LEN];
  }

  lemma SpoiledFirst(fmt: Format, data: seq<byte>, other: seq<byte>, pos: nat, err: ParserError)
    requires pos <= |data| && ParseAt(fmt, data, pos).outcome.Ok?
    requires BodySpoiled(fmt, data, other, pos, ParseAt(fmt, data, pos).end, err)
    ensures FramesFrom(fmt, other, pos) ==
            FramesFrom(fmt, data, pos)[0 := Parsed(Err(err), ParseAt(fmt, data, pos).end)]
  {
    hide ParseAt;
    var p := ParseAt(fmt, data, pos);
    var rest := FramesFrom(fmt, data, p.end);
    var bad: Frame := Parsed(Err(err), p.end);
    SpoiledParse(fmt, data, other, pos, err);
    FramesOfSameSuffix(fmt, data, other, p.end);
    assert ([p] + rest)[0 := bad] == [bad] + rest;
  }

  lemma SameHead(fmt: Format, data: seq<byte>, other: seq<byte>, pos: nat, k: nat, f: Frame)
    requires pos <= |data| && pos <= |other| && 0 < k < |FramesFrom(fmt, data, pos)|
    requires ParseAt(fmt, other, pos) == ParseAt(fmt, data, pos)
    requires var end := ParseAt(fmt, data, pos).end;
             end <= |data| && k - 1 < |FramesFrom(fmt, data, end)| &&
             FramesFrom(fmt, other, end) == FramesFrom(fmt, data, end)[k - 1 := f]
    ensures FramesFrom(fmt, other, pos) == FramesFrom(fmt, data, pos)[k := f]
  {
    hide ParseAt;
    var p := ParseAt(fmt, data, pos);
    var rest := FramesFrom(fmt, data, p.end);
    assert ([p] + rest)[k := f] == [p] + rest[k - 1 := f];
  }

  lemma {:induction false} SpoiledFramesFrom(
      fmt: Format, data: seq<byte>, other: seq<byte>, pos: nat, at: nat, end: nat, k: nat, err: ParserError)
    requires pos <= |data| && k < |FramesFrom(fmt, data, pos)|
    requires at == if k == 0 then pos else FramesFrom(fmt, data, pos)[k - 1].end
    requires FramesFrom(fmt, data, pos)[k].outcome.Ok? && end == FramesFrom(fmt, data, pos)[k].end
    requires BodySpoiled(fmt, data, other, at, end, err)
    ensures FramesFrom(fmt, other, pos) == FramesFrom(fmt, data, pos)[k := Parsed(Err(err), end)]
    decreases k
  {
    hide ParseAt;
    var p := ParseAt(fmt, data, pos);
    var fs := FramesFrom(fmt, data, pos);
    if k == 0 {
      SpoiledFirst(fmt, data, other, pos, err);
    } else {
      assert fs == [p] + FramesFrom(fmt, data, p.end);
      EndsIncrease(fmt, data, p.end, k - 1);
      assert data[pos..p.end] == data[..at + HEADER_LEN][pos..p.end] ==
             other[..at + HEADER_LEN][pos..p.end] == other[pos..p.end];
      ParseIsLocal(fmt, data, other, pos);
      SpoiledFramesFrom(fmt, data, other, p.end, at, end, k - 1, err);
      SameHead(fmt, data, other, pos, k, Parsed(Err(err), end));
    }
  }

  lemma {:induction false} EndsIncrease(fmt: Format, data: seq<byte>, pos: nat, k: nat)
    requires pos <= |data| && k < |FramesFrom(fmt, data, pos)|
    ensures pos <= (if k == 0 then pos else FramesFrom(fmt, data, pos)[k - 1].end) < FramesFrom(fmt, data, pos)[k].end
    decreases k
  {
    if k > 0 {
      var p := ParseAt(fmt, data, pos);
      assert FramesFrom(fmt, data, pos) == [p] + FramesFrom(fmt, data, p.end);
      EndsIncrease(fmt, data, p.end, k - 1);
    }
  }

  /** The frame does not change the decoder: it is not a decoded PEER_INDEX_TABLE. */
  ghost predicate LeavesDecoder(f: Frame) {
    f.outcome.Ok? ==> !f.outcome.value.message.PeerIndex?
  }

  /** Replacing a frame that does not feed the decoder leaves every decoder state as it was. */
  lemma {:induction false} DecoderUnaffected(fs: seq<Frame>, k: nat, f: Frame, j: nat)
    requires k < |fs| && j <= |fs|
    requires LeavesDecoder(fs[k]) && LeavesDecoder(f)
    ensures DecoderAt(fs[k := f], j) == DecoderAt(fs, j)
  {
    if j > 0 {
      DecoderUnaffected(fs, k, f, j - 1);
    }
  }

  lemma {:induction false} RowsUnaffected(name: string, fs: seq<Frame>, k: nat, f: Frame, a: nat, b: nat)
    requires k < |fs| && a <= b <= |fs| && !(a <= k < b)
    requires LeavesDecoder(fs[k]) && LeavesDecoder(f)
    ensures RowsBetween(name, fs[k := f], a, b) == RowsBetween(name, fs, a, b)
    decreases b - a
  {
    hide DecoderAt, RowsOf;
    if a < b {
      DecoderUnaffected(fs, k, f, a);
      RowsUnaffected(name, fs, k, f, a + 1, b);
    }
  }

  /** The rows of sources before `i`. */
  function EarlierRows(cfg: Config, i: nat): seq<MrtRow>
    requires i <= |cfg.sources|
  {
    if i == 0 then [] else EarlierRows(cfg, i - 1) + SourceRows(cfg, i - 1)
  }

  lemma {:induction false} ScanSplit(cfg: Config, i: nat)
    requires i <= |cfg.sources|
    ensures LaterRows(cfg, 0) == EarlierRows(cfg, i) + LaterRows(cfg, i)
  {
    if i > 0 {
      ScanSplit(cfg, i - 1);
      Regroup(EarlierRows(cfg, i - 1), SourceRows(cfg, i - 1), LaterRows(cfg, i));
    }
  }

  function WithData(cfg: Config, i: nat, data: seq<byte>): Config
    requires i < |cfg.sources|
  {
    cfg.(sources := cfg.sources[i := cfg.sources[i].(data := data)])
  }

  lemma {:induction false} OtherSourcesUnaffected(cfg: Config, i: nat, data: seq<byte>, j: nat)
    requires i < |cfg.sources| && j <= |cfg.sources|
    ensures j <= i ==> EarlierRows(WithData(cfg, i, data), j) == EarlierRows(cfg, j)
    ensures j > i ==> LaterRows(WithData(cfg, i, data), j) == LaterRows(cfg, j)
    decreases if j <= i then j else |cfg.sources| - j
  {
    hide FramesFrom, RowsBetween, RowsAt;
    var other := WithData(cfg, i, data);
    if 0 < j <= i {
      OtherSourcesUnaffected(cfg, i, data, j - 1);
      assert FramesOf(other, j - 1) == FramesOf(cfg, j - 1);
    } else if i < j < |cfg.sources| {
      OtherSourcesUnaffected(cfg, i, data, j + 1);
      assert FramesOf(other, j) == FramesOf(cfg, j);
    }
  }

  /** The full scan, split around frame `k` of source `i`. */
  lemma SplitAtFrame(cfg: Config, i: nat, k: nat)
    requires i < |cfg.sources| && k < |FramesOf(cfg, i)|
    ensures var fs := FramesOf(cfg, i);
            var name := cfg.sources[i].name;
            LaterRows(cfg, 0) ==
            (EarlierRows(cfg, i) + RowsBetween(name, fs, 0, k)) + RowsAt(name, fs, k)
            + (RowsBetween(name, fs, k + 1, |fs|) + LaterRows(cfg, i + 1))
  {
    var fs := FramesOf(cfg, i);
    var name := cfg.sources[i].name;
    ScanSplit(cfg, i);
    RowsBetweenSplit(name, fs, 0, k, |fs|);
    Associate(EarlierRows(cfg, i), RowsBetween(name, fs, 0, k), RowsAt(name, fs, k),
              RowsBetween(name, fs, k + 1, |fs|), LaterRows(cfg, i + 1));
  }

  lemma Associate<T>(a: seq<T>, b: seq<T>, c: seq<T>, d: seq<T>, e: seq<T>)
    ensures a + ((b + (c + d)) + e) == (a + b) + c + (d + e)
  {
  }

  lemma SpoiledSource(cfg: Config, i: nat, k: nat, other: seq<byte>, err: ParserError)
    requires i < |cfg.sources| && k < |FramesOf(cfg, i)|
    requires FramesOf(cfg, i)[k].outcome.Ok? && !FramesOf(cfg, i)[k].outcome.value.message.PeerIndex?
    requires BodySpoiled(cfg.fmt, cfg.sources[i].data, other,
                         Boundary(FramesOf(cfg, i), k), FramesOf(cfg, i)[k].end, err)
    ensures var fs := FramesOf(cfg, i);
            var gs := FramesOf(WithData(cfg, i, other), i);
            var name := cfg.sources[i].name;
            |gs| == |fs| && RowsAt(name, gs, k) == [ErrorRow(ErrorText(name, err))] &&
            RowsBetween(name, gs, 0, k) == RowsBetween(name, fs, 0, k) &&
            RowsBetween(name, gs, k + 1, |fs|) == RowsBetween(name, fs, k + 1, |fs|)
  {
    var fs := FramesOf(cfg, i);
    var name := cfg.sources[i].name;
    var bad: Frame := Parsed(Err(err), fs[k].end);
    SpoiledFramesFrom(cfg.fmt, cfg.sources[i].data, other, 0, Boundary(fs, k), fs[k].end, k, err);
    RowsUnaffected(name, fs, k, bad, 0, k);
    RowsUnaffected(name, fs, k, bad, k + 1, |fs|);
  }

  /** Damage locality: spoiling the body of a decodable frame that is not a PEER_INDEX_TABLE turns its
      rows into one error row, and leaves every other row of the whole scan, in its place. */
  lemma SpoiledBodyIsLocal(cfg: Config, i: nat, k: nat, other: seq<byte>, err: ParserError)
    requires i < |cfg.sources| && k < |FramesOf(cfg, i)|
    requires FramesOf(cfg, i)[k].outcome.Ok? && !FramesOf(cfg, i)[k].outcome.value.message.PeerIndex?
    requires BodySpoiled(cfg.fmt, cfg.sources[i].data, other,
                         Boundary(FramesOf(cfg, i), k), FramesOf(cfg, i)[k].end, err)
    ensures var fs := FramesOf(cfg, i);
            var name := cfg.sources[i].name;
            var before := EarlierRows(cfg, i) + RowsBetween(name, fs, 0, k);
            var after := RowsBetween(name, fs, k + 1, |fs|) + LaterRows(cfg, i + 1);
            LaterRows(cfg, 0) == before + RowsAt(name, fs, k) + after &&
            LaterRows(WithData(cfg, i, other), 0) == before + [ErrorRow(ErrorText(name, err))] + after
  {
    hide FramesFrom, RowsAt, RowsBetween;
    SpoiledSource(cfg, i, k, other, err);
    SplitAtFrame(cfg, i, k);
    SplitAtFrame(WithData(cfg, i, other), i, k);
    OtherSourcesUnaffected(cfg, i, other, i);
    OtherSourcesUnaffected(cfg, i, other, i + 1);
  }

  // ----- A truncated source -----

  /** Byte `m` lies inside the record that starts at `start`: past its start, and before its end or,
      within the header, where the format does not take a partial header for the end of the stream. */
  predicate CutInside(fmt: Format, data: seq<byte>, start: nat, m: nat)
    requires start <= m <= |data|
  {
    start < m &&
    if m - start < HEADER_LEN then !fmt.partialHeaderIsEnd
    else start + HEADER_LEN + BodyLength(data[start..start + HEADER_LEN]) > m
  }

  /** The frame of a short read up to `m`. */
  ghost predicate IsShortRead(fmt: Format, f: Frame, m: nat) {
    IsTorn(f) && Display(f.outcome.error) == fmt.shortReadText && f.end == m
  }

  /** The frames of `data` from `pos` on, cut after the frames that end by `m`; a short read follows
      exactly if the frames read were not torn already and the cut is inside the next record. */
  lemma {:induction false} TruncatedFrames(fmt: Format, data: seq<byte>, m: nat, pos: nat)
    returns (j: nat, tail: seq<Frame>)
    requires pos <= m <= |data|
    ensures var fs := FramesFrom(fmt, data, pos);
            j <= |fs| && FramesFrom(fmt, data[..m], pos) == fs[..j] + tail &&
            (forall q :: 0 <= q < |fs| ==> (q < j <==> fs[q].end <= m)) &&
            var start := if j == 0 then pos else fs[j - 1].end;
            start <= m &&
            if !TornAt(fs, j) && CutInside(fmt, data, start, m) then |tail| == 1 && IsShortRead(fmt, tail[0], m)
            else tail == []
    decreases |data| - pos
  {
    hide ParseAt;
    var cut := data[..m];
    var p, p' := ParseAt(fmt, data, pos), ParseAt(fmt, cut, pos);
    var fs := FramesFrom(fmt, data, pos);
    ParseTruncated(fmt, data, m, pos);
    if p.end <= m && p.outcome != Err(EofExpected) && !IsTorn(p) {
      j, tail := TruncatedFrames(fmt, data, m, p.end);
      var rest := FramesFrom(fmt, data, p.end);
      assert fs == [p] + rest;
      assert fs[..j + 1] == [p] + rest[..j];
      j := j + 1;
    } else if p.end <= m && p.outcome != Err(EofExpected) {
      j, tail := 1, [];
    } else {
      j, tail := 0, FramesFrom(fmt, cut, pos);
      forall q | 0 <= q < |fs|
        ensures fs[q].end > m
      {
        EndsIncrease(fmt, data, pos, q);
        if q > 0 {
          FirstEnds(fmt, data, pos, q);
        }
      }
    }
  }

  lemma {:induction false} FirstEnds(fmt: Format, data: seq<byte>, pos: nat, k: nat)
    requires pos <= |data| && k < |FramesFrom(fmt, data, pos)|
    ensures FramesFrom(fmt, data, pos)[0].end <= FramesFrom(fmt, data, pos)[k].end
  {
    if k > 0 {
      FirstEnds(fmt, data, pos, k - 1);
      EndsIncrease(fmt, data, pos, k);
    }
  }

  lemma ParseTruncated(fmt: Format, data: seq<byte>, m: nat, pos: nat)
    requires pos <= m <= |data|
    ensures var p, p' := ParseAt(fmt, data, pos), ParseAt(fmt, data[..m], pos);
            if p.end <= m && p.outcome != Err(EofExpected) then p' == p
            else if CutInside(fmt, data, pos, m) then
              p'.outcome.Err? && p'.outcome != Err(EofExpected) && IsShortRead(fmt, p', m)
            else p'.outcome == Err(EofExpected)
  {
    var cut := data[..m];
    var p := ParseAt(fmt, data, pos);
    if m == |data| {
      assert cut == data;
    } else if m - pos >= HEADER_LEN {
      assert cut[pos..pos + HEADER_LEN] == data[pos..pos + HEADER_LEN];
      var bodyEnd := pos + HEADER_LEN + BodyLength(data[pos..pos + HEADER_LEN]);
      if bodyEnd <= m {
        assert cut[pos + HEADER_LEN..bodyEnd] == data[pos + HEADER_LEN..bodyEnd];
      }
    }
  }

  lemma {:induction false} DecoderOfPrefix(fs: seq<Frame>, gs: seq<Frame>, k: nat)
    requires k <= |fs| && k <= |gs| && fs[..k] == gs[..k]
    ensures DecoderAt(fs, k) == DecoderAt(gs, k)
  {
    if k > 0 {
      assert fs[..k - 1] == fs[..k][..k - 1] == gs[..k][..k - 1] == gs[..k - 1];
      assert fs[k - 1] == fs[..k][k - 1] == gs[..k][k - 1] == gs[k - 1];
      DecoderOfPrefix(fs, gs, k - 1);
    }
  }

  lemma RowsAtPrefix(name: string, fs: seq<Frame>, gs: seq<Frame>, a: nat, b: nat)
    requires a < b <= |fs| && b <= |gs| && fs[..b] == gs[..b]
    ensures RowsAt(name, fs, a) == RowsAt(name, gs, a)
  {
    assert fs[..a] == fs[..b][..a] == gs[..b][..a] == gs[..a];
    assert fs[a] == fs[..b][a] == gs[..b][a] == gs[a];
    DecoderOfPrefix(fs, gs, a);
    hide RowsOf, DecoderAt;
  }

  lemma {:induction false} RowsOfPrefix(name: string, fs: seq<Frame>, gs: seq<Frame>, a: nat, b: nat)
    requires a <= b <= |fs| && b <= |gs| && fs[..b] == gs[..b]
    ensures RowsBetween(name, fs, a, b) == RowsBetween(name, gs, a, b)
    decreases b - a
  {
    hide RowsAt;
    if a < b {
      RowsAtPrefix(name, fs, gs, a, b);
      RowsOfPrefix(name, fs, gs, a + 1, b);
    }
  }

  lemma TruncatedSource(cfg: Config, i: nat, m: nat) returns (j: nat)
    requires i < |cfg.sources| && m <= |cfg.sources[i].data|
    ensures EndBy(FramesOf(cfg, i), j, m) && Boundary(FramesOf(cfg, i), j) <= m
    ensures SourceRows(WithData(cfg, i, cfg.sources[i].data[..m]), i) ==
            RowsBetween(cfg.sources[i].name, FramesOf(cfg, i), 0, j) + CutRows(cfg, i, j, m)
  {
    hide FramesFrom;
    var fs := FramesOf(cfg, i);
    var name := cfg.sources[i].name;
    var tail;
    j, tail := TruncatedFrames(cfg.fmt, cfg.sources[i].data, m, 0);
    var gs := fs[..j] + tail;
    assert FramesOf(WithData(cfg, i, cfg.sources[i].data[..m]), i) == gs;
    assert gs[..j] == fs[..j];
    RowsBetweenSplit(name, gs, 0, j, |gs|);
    RowsOfPrefix(name, fs, gs, 0, j);
    if |tail| == 1 {
      assert gs[j] == tail[0];
      assert RowsBetween(name, gs, j, |gs|) == RowsAt(name, gs, j) + RowsBetween(name, gs, j + 1, |gs|);
    }
  }

  /** The first `j` frames are those that end by byte `m`. */
  ghost predicate EndBy(fs: seq<Frame>, j: nat, m: nat) {
    j <= |fs| && forall q :: 0 <= q < |fs| ==> (q < j <==> fs[q].end <= m)
  }

  /** What a cut at `m`, after the first `j` frames of source `i`, adds: a row for the short read if the
      cut is inside a record that would have been read, and nothing otherwise. */
  function CutRows(cfg: Config, i: nat, j: nat, m: nat): seq<MrtRow>
    requires i < |cfg.sources| && j <= |FramesOf(cfg, i)|
    requires Boundary(FramesOf(cfg, i), j) <= m <= |cfg.sources[i].data|
  {
    var fs := FramesOf(cfg, i);
    if (j == 0 || !IsTorn(fs[j - 1])) && CutInside(cfg.fmt, cfg.sources[i].data, Boundary(fs, j), m)
    then [ErrorRow(cfg.sources[i].name + ": " + cfg.fmt.shortReadText)]
    else []
  }

  /** Truncating a source at any byte keeps exactly the rows of the frames that end by then, adds one
      short-read error row exactly if the cut is inside a record, and leaves every other source's rows,
      in their place. */
  lemma TruncationIsLocal(cfg: Config, i: nat, m: nat)
    requires i < |cfg.sources| && m <= |cfg.sources[i].data|
    ensures exists j: nat ::
              EndBy(FramesOf(cfg, i), j, m) && Boundary(FramesOf(cfg, i), j) <= m &&
              LaterRows(WithData(cfg, i, cfg.sources[i].data[..m]), 0) ==
              EarlierRows(cfg, i)
              + (RowsBetween(cfg.sources[i].name, FramesOf(cfg, i), 0, j) + CutRows(cfg, i, j, m))
              + LaterRows(cfg, i + 1)
  {
    hide FramesFrom, RowsAt, RowsBetween;
    var cut := cfg.sources[i].data[..m];
    var j := TruncatedSource(cfg, i, m);
    OtherSourcesUnaffected(cfg, i, cut, i);
    OtherSourcesUnaffected(cfg, i, cut, i + 1);
    ScanSplit(WithData(cfg, i, cut), i);
    Regroup(EarlierRows(cfg, i), SourceRows(WithData(cfg, i, cut), i), LaterRows(cfg, i + 1));
  }
}

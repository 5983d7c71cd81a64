/** Record framing (RFC 6396, section 2): a 12-byte common header whose last four bytes are the
    big-endian body length, then that many body bytes. A stream becomes a list of frames. */
module Framing {
  import opened Bytes
  import opened Wrappers
  import opened Mrt

  const HEADER_LEN: nat := 12

  /** What the parsing library decides: how a complete header and body decode, whether a partial
      header counts as a clean end of stream, and the text of a short-read error. */
  datatype Format = Format(
    decode: (seq<byte>, seq<byte>) -> Result<MrtRecord, ParserError>,
    partialHeaderIsEnd: bool,
    shortReadText: string)

  /** One attempt to parse a record: its outcome and the stream position it leaves. */
  datatype Parsed = Parsed(outcome: Result<MrtRecord, ParserError>, end: nat)

  function BodyLength(header: seq<byte>): nat
    requires |header| == HEADER_LEN
  {
    BigEndian(header[8..])
  }

  function ParseAt(fmt: Format, data: seq<byte>, pos: nat): (p: Parsed)
    requires pos <= |data|
    ensures pos <= p.end <= |data|
    ensures p.end == pos ==> p.outcome == Err(EofExpected)
  {
    var left := |data| - pos;
    if left == 0 then
      Parsed(Err(EofExpected), pos)
    else if left < HEADER_LEN then
      Parsed(Err(if fmt.partialHeaderIsEnd then EofExpected else EofError(fmt.shortReadText)), |data|)
    else
      var header := data[pos..pos + HEADER_LEN];
      var bodyEnd := pos + HEADER_LEN + BodyLength(header);
      if bodyEnd > |data| then
        Parsed(Err(IoError(fmt.shortReadText)), |data|)
      else
        Parsed(fmt.decode(header, data[pos + HEADER_LEN..bodyEnd]), bodyEnd)
  }

  /** A frame is a parse attempt other than a clean end of stream. */
  type Frame = p: Parsed | p.outcome != Err(EofExpected)
    witness Parsed(Err(IoError("")), 0)

  predicate IsGood(f: Frame) {
    f.outcome.Ok?
  }

  /** A complete body that does not decode: the stream stays aligned. */
  predicate IsBad(f: Frame) {
    f.outcome.Err? && IsRecoverable(f.outcome.error)
  }

  /** A failure that leaves the stream unaligned: nothing after it is read. */
  predicate IsTorn(f: Frame) {
    f.outcome.Err? && !IsRecoverable(f.outcome.error)
  }

  /** The first frame at or after `k` that is not good, if there is one. */
  function FirstFailure(fs: seq<Frame>, k: nat): (f: nat)
    requires k <= |fs|
    ensures k <= f <= |fs|
    ensures forall j :: k <= j < f ==> IsGood(fs[j])
    ensures f < |fs| ==> !IsGood(fs[f])
    decreases |fs| - k
  {
    if k == |fs| || !IsGood(fs[k]) then k else FirstFailure(fs, k + 1)
  }

  /** All frames of `data` from `pos` on; a torn frame is the last. */
  function FramesFrom(fmt: Format, data: seq<byte>, pos: nat): (fs: seq<Frame>)
    requires pos <= |data|
    decreases |data| - pos
  {
    var p := ParseAt(fmt, data, pos);
    if p.outcome == Err(EofExpected) then []
    else if IsTorn(p) then [p]
    else [p] + FramesFrom(fmt, data, p.end)
  }

  function Frames(fmt: Format, data: seq<byte>): seq<Frame> {
    FramesFrom(fmt, data, 0)
  }

  /** The stream position after the first `k` frames. */
  function Boundary(fs: seq<Frame>, k: nat): nat
    requires k <= |fs|
  {
    if k == 0 then 0 else fs[k - 1].end
  }

  ghost predicate TornAt(fs: seq<Frame>, k: nat)
    requires k <= |fs|
  {
    k > 0 && IsTorn(fs[k - 1])
  }

  lemma {:induction false} FramesFromAt(fmt: Format, data: seq<byte>, pos: nat, k: nat)
    requires pos <= |data|
    requires k <= |FramesFrom(fmt, data, pos)|
    ensures forall j :: 0 <= j < |FramesFrom(fmt, data, pos)| ==> FramesFrom(fmt, data, pos)[j].end <= |data|
    ensures !TornAt(FramesFrom(fmt, data, pos), k) ==>
              var fs := FramesFrom(fmt, data, pos);
              FramesFrom(fmt, data, if k == 0 then pos else fs[k - 1].end) == fs[k..]
    decreases |data| - pos
  {
    hide ParseAt;
    var fs := FramesFrom(fmt, data, pos);
    var p := ParseAt(fmt, data, pos);
    if p.outcome != Err(EofExpected) && !IsTorn(p) {
      var rest := FramesFrom(fmt, data, p.end);
      FramesFromAt(fmt, data, p.end, if k == 0 then 0 else k - 1);
      assert forall j :: 1 <= j < |fs| ==> fs[j] == rest[j - 1];
      if k > 0 {
        assert fs[k..] == rest[k - 1..];
      }
    }
  }

  /** Parsing at the `k`-th boundary finds the `k`-th frame, or the clean end after the last. */
  lemma ParseAtBoundary(fmt: Format, data: seq<byte>, k: nat)
    requires k <= |Frames(fmt, data)|
    ensures Boundary(Frames(fmt, data), k) <= |data|
    ensures !TornAt(Frames(fmt, data), k) ==>
              var p := ParseAt(fmt, data, Boundary(Frames(fmt, data), k));
              if k < |Frames(fmt, data)| then p == Frames(fmt, data)[k] else p.outcome == Err(EofExpected)
  {
    FramesFromAt(fmt, data, 0, k);
  }

  /** Only the last frame can be torn, and frame ends strictly increase. */
  lemma FramesShape(fmt: Format, data: seq<byte>, k: nat)
    requires k < |Frames(fmt, data)|
    ensures IsTorn(Frames(fmt, data)[k]) ==> k == |Frames(fmt, data)| - 1
    ensures Boundary(Frames(fmt, data), k) < Frames(fmt, data)[k].end <= |data|
  {
    TornIsLast(fmt, data, 0, k);
    if k > 0 {
      TornIsLast(fmt, data, 0, k - 1);
    }
    ParseAtBoundary(fmt, data, k);
  }

  lemma {:induction false} TornIsLast(fmt: Format, data: seq<byte>, pos: nat, k: nat)
    requires pos <= |data|
    requires k < |FramesFrom(fmt, data, pos)|
    ensures IsTorn(FramesFrom(fmt, data, pos)[k]) ==> k == |FramesFrom(fmt, data, pos)| - 1
    decreases |data| - pos
  {
    var p := ParseAt(fmt, data, pos);
    if k > 0 {
      TornIsLast(fmt, data, p.end, k - 1);
    }
  }
}

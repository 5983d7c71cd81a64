/** The resumable scan as a state machine, and the reference scan it is compared with.
    The reference scan knows frames and a decoder fold only: no batches, states or checkpoints. */
module Scan {
  import opened Bytes
  import opened Wrappers
  import opened Mrt
  import opened Framing
  import opened Decode

  datatype Source = Source(name: string, data: seq<byte>)

  datatype Config = Config(sources: seq<Source>, strict: bool, fmt: Format)

  // ----- The reference scan -----

  function FramesOf(cfg: Config, i: nat): seq<Frame>
    requires i < |cfg.sources|
  {
    Frames(cfg.fmt, cfg.sources[i].data)
  }

  function Feed(dec: DecoderState, f: Frame): DecoderState {
    if f.outcome.Ok? then FeedRecord(dec, f.outcome.value) else dec
  }

  /** A fresh decoder after the first `k` frames. */
  function DecoderAt(fs: seq<Frame>, k: nat): DecoderState
    requires k <= |fs|
  {
    if k == 0 then FRESH else Feed(DecoderAt(fs, k - 1), fs[k - 1])
  }

  function ErrorText(name: string, err: ParserError): string {
    name + ": " + Display(err)
  }

  /** The rows of frame `k`: its record's rows, or one error row. */
  function RowsAt(name: string, fs: seq<Frame>, k: nat): seq<MrtRow>
    requires k < |fs|
  {
    match fs[k].outcome
    case Ok(record) => RowsOf(DecoderAt(fs, k), record)
    case Err(err) => [ErrorRow(ErrorText(name, err))]
  }

  function RowsBetween(name: string, fs: seq<Frame>, a: nat, b: nat): seq<MrtRow>
    requires b <= |fs|
    decreases b - a
  {
    if a >= b then [] else RowsAt(name, fs, a) + RowsBetween(name, fs, a + 1, b)
  }

  function SourceRows(cfg: Config, i: nat): seq<MrtRow>
    requires i < |cfg.sources|
  {
    RowsBetween(cfg.sources[i].name, FramesOf(cfg, i), 0, |FramesOf(cfg, i)|)
  }

  /** All rows of sources `i` and later. */
  function LaterRows(cfg: Config, i: nat): seq<MrtRow>
    decreases |cfg.sources| - i
  {
    if i >= |cfg.sources| then [] else SourceRows(cfg, i) + LaterRows(cfg, i + 1)
  }

  // ----- The state machine -----

  /** The producer's mutable state; `at` is the byte count of the open reader, if there is one. */
  datatype ScanState = ScanState(
    idx: nat,
    at: Option<nat>,
    dec: DecoderState,
    offset: nat,
    skipTo: Option<nat>,
    done: bool)

  const INITIAL := ScanState(0, None, FRESH, 0, None, false)

  predicate WellFormed(cfg: Config, st: ScanState) {
    st.idx <= |cfg.sources| &&
    (st.at.Some? ==> st.idx < |cfg.sources| && st.at.value <= |cfg.sources[st.idx].data|)
  }

  function OpenCurrent(cfg: Config, st: ScanState): ScanState
    requires st.idx < |cfg.sources|
  {
    st.(at := Some(0), dec := FRESH, offset := 0)
  }

  /** The stale `offset` survives. */
  function Advance(st: ScanState): ScanState {
    st.(at := None, idx := st.idx + 1, skipTo := None)
  }

  predicate Skipped(skipTo: Option<nat>, end: nat) {
    skipTo.Some? && end <= skipTo.value
  }

  datatype Iteration =
    | Stopped(next: ScanState)
    | Raised(msg: string, next: ScanState)
    | Emitted(rows: seq<MrtRow>, next: ScanState)

  function ReadOne(cfg: Config, st: ScanState): (it: Iteration)
    requires WellFormed(cfg, st) && st.at.Some?
    ensures WellFormed(cfg, it.next)
    ensures it.Emitted? ==> Fuel(cfg, it.next) < Fuel(cfg, st)
  {
    var source := cfg.sources[st.idx];
    var p := ParseAt(cfg.fmt, source.data, st.at.value);
    var read := st.(at := Some(p.end));
    match p.outcome
    case Ok(record) =>
      var fed := read.(dec := FeedRecord(st.dec, record), offset := p.end);
      if Skipped(st.skipTo, p.end) then Emitted([], fed)
      else Emitted(RowsOf(st.dec, record), fed.(skipTo := None))
    case Err(err) =>
      if IsCleanEof(err) then Emitted([], Advance(read))
      else if cfg.strict then Raised(ErrorText(source.name, err), read)
      else
        var rows := if Skipped(st.skipTo, p.end) then [] else [ErrorRow(ErrorText(source.name, err))];
        var counted := read.(offset := p.end);
        Emitted(rows, if IsRecoverable(err) then counted.(skipTo := None) else Advance(counted))
  }

  /** Bytes of source `i` and later, two extra units a source: one to open it, one to leave it. */
  ghost function LaterFuel(cfg: Config, i: nat): nat
    decreases |cfg.sources| - i
  {
    if i >= |cfg.sources| then 0 else |cfg.sources[i].data| + 2 + LaterFuel(cfg, i + 1)
  }

  /** What is left to read: every iteration lowers it, through clean ends, bad frames, torn tails
      and fast-forwarded frames. */
  ghost function Fuel(cfg: Config, st: ScanState): nat
    requires WellFormed(cfg, st)
  {
    match st.at
    case None => LaterFuel(cfg, st.idx)
    case Some(pos) => |cfg.sources[st.idx].data| - pos + 1 + LaterFuel(cfg, st.idx + 1)
  }

  function Iterate(cfg: Config, st: ScanState): (it: Iteration)
    requires WellFormed(cfg, st)
    ensures WellFormed(cfg, it.next)
    ensures it.Emitted? ==> Fuel(cfg, it.next) < Fuel(cfg, st)
  {
    if st.at.Some? then ReadOne(cfg, st)
    else if st.idx >= |cfg.sources| then Stopped(st.(done := true))
    else ReadOne(cfg, OpenCurrent(cfg, st))
  }

  datatype Pulled =
    | Batch(rows: seq<MrtRow>)
    | Exhausted
    | Failed(msg: string)

  function Finish(pending: seq<MrtRow>): Pulled {
    if pending == [] then Exhausted else Batch(pending)
  }

  function Loop(cfg: Config, st: ScanState, pending: seq<MrtRow>, target: nat): (r: (Pulled, ScanState))
    requires WellFormed(cfg, st)
    ensures WellFormed(cfg, r.1)
    decreases Fuel(cfg, st)
  {
    match Iterate(cfg, st)
    case Stopped(next) => (Finish(pending), next)
    case Raised(msg, next) => (Failed(msg), next)
    case Emitted(rows, next) =>
      if |pending + rows| >= target then (Finish(pending + rows), next)
      else Loop(cfg, next, pending + rows, target)
  }

  function Pull(cfg: Config, st: ScanState, target: nat): (r: (Pulled, ScanState))
    requires WellFormed(cfg, st)
    ensures WellFormed(cfg, r.1)
  {
    if st.done then (Exhausted, st) else Loop(cfg, st, [], target)
  }

  // ----- Checkpoints -----

  /** `[source_idx u64 LE][byte_offset u64 LE]` */
  function EncodeResume(st: ScanState): (bytes: seq<byte>)
    ensures |bytes| == 16
  {
    ToLittleEndian(st.idx, 8) + ToLittleEndian(st.offset, 8)
  }

  function RestoreAt(cfg: Config, st: ScanState, idx: nat, offset: nat): (r: ScanState)
    ensures WellFormed(cfg, r)
  {
    var clamped := if idx < |cfg.sources| then idx else |cfg.sources|;
    st.(idx := clamped,
        at := None,
        done := clamped >= |cfg.sources|,
        skipTo := if offset > 0 then Some(offset) else None)
  }

  /** Short states are ignored. */
  function RestoreResume(cfg: Config, st: ScanState, bytes: seq<byte>): (r: ScanState)
    ensures WellFormed(cfg, st) ==> WellFormed(cfg, r)
  {
    if |bytes| < 16 then st
    else RestoreAt(cfg, st, LittleEndian(bytes[0..8]), LittleEndian(bytes[8..16]))
  }

  /** Byte counts and indexes fit the program's 64-bit integers. */
  ghost predicate Fits64(cfg: Config) {
    |cfg.sources| < Pow256(8) && forall i :: 0 <= i < |cfg.sources| ==> |cfg.sources[i].data| < Pow256(8)
  }
}

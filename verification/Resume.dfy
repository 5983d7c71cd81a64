/** Resuming from a checkpoint: exactly which rows a restored scan delivers, when that is what the
    uninterrupted scan would have delivered, and that restarts at such checkpoints change nothing. */
module Resume {
  import opened Bytes
  import opened Wrappers
  import opened Mrt
  import opened Framing
  import opened Decode
  import opened Scan
  import opened ScanProofs
  import opened Runs
  import opened Strict

  // ----- The checkpoint bytes -----

  /** Reading the sixteen bytes back gives the position that was written. */
  lemma ResumeBytesRoundTrip(cfg: Config, base: ScanState, st: ScanState)
    requires st.idx < Pow256(8) && st.offset < Pow256(8)
    ensures RestoreResume(cfg, base, EncodeResume(st)) == RestoreAt(cfg, base, st.idx, st.offset)
  {
    LittleEndianRoundTrip(st.idx, 8);
    LittleEndianRoundTrip(st.offset, 8);
    assert EncodeResume(st)[0..8] == ToLittleEndian(st.idx, 8);
    assert EncodeResume(st)[8..16] == ToLittleEndian(st.offset, 8);
  }

  /** The sixteen bytes are the index and then the offset, each with its least significant byte first. */
  lemma CheckpointLayout(st: ScanState, i: nat)
    requires i < 8
    ensures EncodeResume(st)[i] == st.idx / Pow256(i) % 256
    ensures EncodeResume(st)[8 + i] == st.offset / Pow256(i) % 256
  {
    LittleEndianByte(st.idx, 8, i);
    LittleEndianByte(st.offset, 8, i);
    hide ToLittleEndian, Pow256;
  }

  /** The index and offset that sixteen bytes or more hold. */
  function Checkpoint(bytes: seq<byte>): (nat, nat)
    requires |bytes| >= 16
  {
    (LittleEndian(bytes[0..8]), LittleEndian(bytes[8..16]))
  }

  /** Encoding a producer just restored does not undo the restoring: the offset encoded is 0 until the
      next pull. The bytes come back if and only if they hold offset 0 and no index past the end. */
  lemma EncodeOfRestored(cfg: Config, bytes: seq<byte>)
    requires |bytes| >= 16 && |cfg.sources| < Pow256(8)
    ensures var (idx, t) := Checkpoint(bytes);
            var again := EncodeResume(RestoreResume(cfg, INITIAL, bytes));
            again[8..] == ToLittleEndian(0, 8) &&
            (again == bytes[..16] <==> t == 0 && idx <= |cfg.sources|)
  {
    hide LittleEndian, ToLittleEndian, Pow256;
    var (idx, t) := Checkpoint(bytes);
    var st := RestoreResume(cfg, INITIAL, bytes);
    var again := EncodeResume(st);
    assert again[..8] == ToLittleEndian(st.idx, 8) && again[8..] == ToLittleEndian(0, 8);
    assert bytes[..16][..8] == bytes[0..8] && bytes[..16][8..] == bytes[8..16];
    assert bytes[..16] == bytes[0..8] + bytes[8..16] && again == again[..8] + again[8..];
    LittleEndianInverse(bytes[0..8]);
    LittleEndianInverse(bytes[8..16]);
    LittleEndianRoundTrip(st.idx, 8);
    Pow256Positive();
    LittleEndianRoundTrip(0, 8);
  }

  lemma Pow256Positive()
    ensures 0 < Pow256(8)
  {
  }

  lemma IterateFits(cfg: Config, st: ScanState)
    requires WellFormed(cfg, st) && Fits64(cfg) && st.offset < Pow256(8)
    ensures Iterate(cfg, st).next.offset < Pow256(8)
  {
    hide RowsOf, FeedRecord, ParseAt, Pow256;
    assert Pow256(8) > 0;
  }

  lemma {:induction false} LoopFits(cfg: Config, st: ScanState, pending: seq<MrtRow>, target: nat)
    requires WellFormed(cfg, st) && Fits64(cfg) && st.offset < Pow256(8)
    ensures Loop(cfg, st, pending, target).1.offset < Pow256(8)
    decreases Fuel(cfg, st)
  {
    hide Pow256;
    IterateFits(cfg, st);
    hide Iterate;
    match Iterate(cfg, st)
    case Stopped(_) =>
    case Raised(_, _) =>
    case Emitted(rows, next) =>
      if |pending + rows| < target {
        LoopFits(cfg, next, pending + rows, target);
      }
  }

  // ----- What a restored scan delivers -----

  /** Frame `k` is delivered by a scan fast-forwarding to `t`: it ends past `t`, or a bad frame
      before it has already ended the fast-forward. */
  ghost predicate Resumes(fs: seq<Frame>, t: nat, k: nat)
    requires k < |fs|
  {
    fs[k].end > t || exists j :: 0 <= j < k && IsBad(fs[j])
  }

  lemma {:induction false} CutIsResume(fmt: Format, data: seq<byte>, t: nat, a: nat, k: nat)
    requires a <= |Frames(fmt, data)| && k < |Frames(fmt, data)|
    requires forall j :: 0 <= j < a ==> !IsBad(Frames(fmt, data)[j]) && Frames(fmt, data)[j].end <= t
    ensures k >= CutFrom(Frames(fmt, data), a, Some(t)) <==> Resumes(Frames(fmt, data), t, k)
    decreases |Frames(fmt, data)| - a
  {
    var fs := Frames(fmt, data);
    if a < |fs| && Skipped(Some(t), fs[a].end) {
      if !IsBad(fs[a]) {
        CutIsResume(fmt, data, t, a + 1, k);
      }
    } else if a < |fs| && k >= a {
      BoundaryIncreases(fmt, data, a + 1, k + 1);
    }
  }

  /** `rows` are, of source `idx`, exactly those of the frames that `Resumes` names -- each with the rows
      a full replay gives it -- and then every later source. */
  ghost predicate FromCheckpoint(cfg: Config, idx: nat, t: nat, rows: seq<MrtRow>) {
    if idx >= |cfg.sources| then rows == []
    else
      var fs := FramesOf(cfg, idx);
      exists c: nat :: c <= |fs| &&
        rows == RowsBetween(cfg.sources[idx].name, fs, c, |fs|) + LaterRows(cfg, idx + 1) &&
        (forall k: nat :: k < |fs| ==> (k >= c <==> Resumes(fs, t, k)))
  }

  lemma RestoredScan(cfg: Config, base: ScanState, idx: nat, t: nat)
    ensures Inv(cfg, RestoreAt(cfg, base, idx, t))
    ensures FromCheckpoint(cfg, idx, t, Remaining(cfg, RestoreAt(cfg, base, idx, t)))
  {
    if idx < |cfg.sources| {
      var fs := FramesOf(cfg, idx);
      var st := RestoreAt(cfg, base, idx, t);
      var c := CutFrom(fs, 0, st.skipTo);
      forall k: nat | k < |fs|
        ensures k >= c <==> Resumes(fs, t, k)
      {
        CutIsResume(cfg.fmt, cfg.sources[idx].data, t, 0, k);
        FramesShape(cfg.fmt, cfg.sources[idx].data, 0);
      }
      assert Remaining(cfg, st) == RowsBetween(cfg.sources[idx].name, fs, c, |fs|) + LaterRows(cfg, idx + 1);
    }
  }

  /** Where a fast-forward to `st`'s checkpoint starts delivering. */
  ghost function Cut(cfg: Config, st: ScanState): nat
    requires st.idx < |cfg.sources|
  {
    CutFrom(FramesOf(cfg, st.idx), 0, Some(st.offset))
  }

  lemma {:induction false} RowsBetweenSplit(name: string, fs: seq<Frame>, a: nat, m: nat, b: nat)
    requires a <= m <= b <= |fs|
    ensures RowsBetween(name, fs, a, b) == RowsBetween(name, fs, a, m) + RowsBetween(name, fs, m, b)
    decreases m - a
  {
    hide RowsAt;
    if a < m {
      RowsBetweenSplit(name, fs, a + 1, m, b);
    }
  }

  lemma {:induction false} CutBelow(fs: seq<Frame>, a: nat, k: nat, t: nat)
    requires a <= k <= |fs| && (k < |fs| ==> fs[k].end > t)
    ensures CutFrom(fs, a, Some(t)) <= k
    decreases k - a
  {
    if a < k && Skipped(Some(t), fs[a].end) && !IsBad(fs[a]) {
      CutBelow(fs, a + 1, k, t);
    }
  }

  lemma RestoredRemaining(cfg: Config, base: ScanState, st: ScanState)
    requires Inv(cfg, st) && st.idx < |cfg.sources|
    ensures var r := RestoreAt(cfg, base, st.idx, st.offset);
            var fs := FramesOf(cfg, st.idx);
            Inv(cfg, r) &&
            Remaining(cfg, r) ==
            RowsBetween(cfg.sources[st.idx].name, fs, Cut(cfg, st), |fs|) + LaterRows(cfg, st.idx + 1)
  {
    hide FramesFrom, RowsAt, RowsBetween, DecoderAt, LaterRows;
    var fs := FramesOf(cfg, st.idx);
    if st.offset == 0 && |fs| > 0 {
      FramesShape(cfg.fmt, cfg.sources[st.idx].data, 0);
    }
  }

  /** At-least-once: with the reader still open, resuming repeats the rows of the frames between the
      first bad frame and the checkpoint, and then delivers everything still to come. */
  lemma OpenResume(cfg: Config, base: ScanState, st: ScanState, k: nat)
    requires Inv(cfg, st) && st.skipTo.None? && IsAt(cfg, st, k)
    ensures var r := RestoreAt(cfg, base, st.idx, st.offset);
            Inv(cfg, r) && Cut(cfg, st) <= k &&
            Remaining(cfg, r) ==
            RowsBetween(cfg.sources[st.idx].name, FramesOf(cfg, st.idx), Cut(cfg, st), k) + Remaining(cfg, st)
  {
    hide FramesFrom, RowsAt, RowsBetween, DecoderAt, LaterRows;
    var fs := FramesOf(cfg, st.idx);
    var name := cfg.sources[st.idx].name;
    if k < |fs| {
      FramesShape(cfg.fmt, cfg.sources[st.idx].data, k);
    }
    CutBelow(fs, 0, k, st.offset);
    RestoredRemaining(cfg, base, st);
    RemainingAt(cfg, st, k);
    RowsBetweenSplit(name, fs, Cut(cfg, st), k, |fs|);
    Regroup(RowsBetween(name, fs, Cut(cfg, st), k), RowsBetween(name, fs, k, |fs|), LaterRows(cfg, st.idx + 1));
  }

  /** With the reader closed before a further source, the stale offset is applied to that source:
      resuming loses the rows of its frames before the cut, and nothing else. */
  lemma ClosedResume(cfg: Config, base: ScanState, st: ScanState)
    requires Inv(cfg, st) && st.skipTo.None? && st.at.None? && st.idx < |cfg.sources|
    ensures var r := RestoreAt(cfg, base, st.idx, st.offset);
            Inv(cfg, r) &&
            Remaining(cfg, st) ==
            RowsBetween(cfg.sources[st.idx].name, FramesOf(cfg, st.idx), 0, Cut(cfg, st)) + Remaining(cfg, r)
  {
    hide FramesFrom, RowsAt, RowsBetween, DecoderAt, LaterRows;
    var fs := FramesOf(cfg, st.idx);
    var name := cfg.sources[st.idx].name;
    var c := Cut(cfg, st);
    RestoredRemaining(cfg, base, st);
    RowsBetweenSplit(name, fs, 0, c, |fs|);
    Regroup(RowsBetween(name, fs, 0, c), RowsBetween(name, fs, c, |fs|), LaterRows(cfg, st.idx + 1));
  }

  // ----- End to end: the batches of a restored producer -----

  lemma RowsFromCutAtMost(cfg: Config, idx: nat, c: nat)
    requires idx < |cfg.sources| && c <= |FramesOf(cfg, idx)|
    ensures var fs := FramesOf(cfg, idx);
            |RowsBetween(cfg.sources[idx].name, fs, c, |fs|)| + |LaterRows(cfg, idx + 1)| <= |LaterRows(cfg, idx)|
  {
    hide FramesFrom, RowsAt, RowsBetween;
    var fs := FramesOf(cfg, idx);
    RowsBetweenSplit(cfg.sources[idx].name, fs, 0, c, |fs|);
  }

  lemma CutFromBounds(fs: seq<Frame>, k: nat, skipTo: Option<nat>)
    requires k <= |fs|
    ensures k <= CutFrom(fs, k, skipTo) <= |fs|
  {
  }

  /** No more rows are to come than the current source and those after it hold. */
  lemma RemainingAtMost(cfg: Config, st: ScanState)
    requires Inv(cfg, st)
    ensures |Remaining(cfg, st)| <= |LaterRows(cfg, st.idx)|
  {
    hide FramesFrom, RowsAt, RowsBetween, LaterRows, CutFrom, DecoderAt;
    if st.idx < |cfg.sources| {
      var fs, k := FramesOf(cfg, st.idx), Index(cfg, st);
      CutFromBounds(fs, k, st.skipTo);
      RowsFromCutAtMost(cfg, st.idx, CutFrom(fs, k, st.skipTo));
    }
  }

  /** For any sixteen bytes and enough pulls, the batches of a lenient producer restored from them hold
      exactly the rows of the frames that `Resumes` names and of all later sources; then the scan ends. */
  lemma RestoredRun(cfg: Config, base: ScanState, bytes: seq<byte>, targets: seq<Target>)
    requires !cfg.strict && |bytes| >= 16
    requires |targets| > |LaterRows(cfg, Checkpoint(bytes).0)|
    ensures var (idx, t) := Checkpoint(bytes);
            var run := Run(cfg, RestoreAt(cfg, base, idx, t), targets);
            RestoreResume(cfg, base, bytes) == RestoreAt(cfg, base, idx, t) &&
            FromCheckpoint(cfg, idx, t, Delivered(run)) && EndsWith(run, Exhausted)
  {
    var (idx, t) := Checkpoint(bytes);
    RestoredScan(cfg, base, idx, t);
    RestoredAtMost(cfg, base, idx, t);
    hide FromCheckpoint, LaterRows, Run, Remaining, Inv;
    EnoughPulls(cfg, RestoreAt(cfg, base, idx, t), targets);
  }

  lemma RestoredAtMost(cfg: Config, base: ScanState, idx: nat, t: nat)
    ensures var r := RestoreAt(cfg, base, idx, t); Inv(cfg, r) && |Remaining(cfg, r)| <= |LaterRows(cfg, idx)|
  {
    hide FramesFrom, RowsAt, RowsBetween, CutFrom, DecoderAt;
    RemainingAtMost(cfg, RestoreAt(cfg, base, idx, t));
  }

  lemma {:induction false} CutBeforeFailure(fmt: Format, data: seq<byte>, t: nat, k: nat)
    requires k < FirstFailure(Frames(fmt, data), 0)
    ensures k >= CutFrom(Frames(fmt, data), 0, Some(t)) <==> Frames(fmt, data)[k].end > t
  {
    CutIsResume(fmt, data, t, 0, k);
  }

  /** A strict producer restored from any sixteen bytes fails on the first frame that is not good from
      the checkpoint's source on, even one that ends by the checkpoint; before that it delivers a start
      of the rows of the frames past the checkpoint. Without such a frame it delivers them all. */
  lemma RestoredStrictRun(cfg: Config, base: ScanState, bytes: seq<byte>, targets: seq<Target>)
    requires cfg.strict && |bytes| >= 16
    ensures var (idx, t) := Checkpoint(bytes);
            var run := Run(cfg, RestoreAt(cfg, base, idx, t), targets);
            RestoreResume(cfg, base, bytes) == RestoreAt(cfg, base, idx, t) &&
            if idx >= |cfg.sources| then EndsStrictly(run, [], None, |targets|)
            else
              var fs := FramesOf(cfg, idx);
              exists c: nat ::
                EndsStrictly(run, GoodRowsFrom(cfg, idx, 0, c), TextFrom(cfg, idx, 0), |targets|) &&
                (forall k: nat :: k < FirstFailure(fs, 0) ==> (k >= c <==> fs[k].end > t))
  {
    hide FramesFrom, RowsAt, RowsBetween, Run, EndsStrictly, GoodRowsFrom, TextFrom;
    var (idx, t) := Checkpoint(bytes);
    var st := RestoreAt(cfg, base, idx, t);
    StrictRunExact(cfg, st, targets);
    if idx < |cfg.sources| {
      var fs := FramesOf(cfg, idx);
      var c := CutFrom(fs, 0, st.skipTo);
      forall k: nat | k < FirstFailure(fs, 0)
        ensures k >= c <==> fs[k].end > t
      {
        CutBeforeFailure(cfg.fmt, cfg.sources[idx].data, t, k);
        FramesShape(cfg.fmt, cfg.sources[idx].data, 0);
      }
      assert EndsStrictly(Run(cfg, st, targets), GoodRowsFrom(cfg, idx, 0, c), TextFrom(cfg, idx, 0), |targets|);
    }
  }
}

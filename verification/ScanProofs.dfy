/** What every pull keeps: the rows still to come, and the shape of every state between pulls. */
module ScanProofs {
  import opened Bytes
  import opened Wrappers
  import opened Mrt
  import opened Framing
  import opened Scan

  // ----- Canonical states -----

  /** The reader is open just after `k` frames, and everything the state holds agrees with that. */
  ghost predicate IsAt(cfg: Config, st: ScanState, k: nat) {
    st.idx < |cfg.sources| &&
    k <= |FramesOf(cfg, st.idx)| &&
    !TornAt(FramesOf(cfg, st.idx), k) &&
    st.at == Some(Boundary(FramesOf(cfg, st.idx), k)) &&
    st.offset == Boundary(FramesOf(cfg, st.idx), k) &&
    st.dec == DecoderAt(FramesOf(cfg, st.idx), k) &&
    !st.done
  }

  /** The invariant of the scan: the reader is open at some frame boundary, or closed. */
  ghost predicate Inv(cfg: Config, st: ScanState) {
    st.idx <= |cfg.sources| &&
    (st.done ==> st.idx == |cfg.sources|) &&
    (st.at.Some? ==> exists k :: IsAt(cfg, st, k))
  }

  lemma {:induction false} BoundaryIncreases(fmt: Format, data: seq<byte>, a: nat, b: nat)
    requires a <= b <= |Frames(fmt, data)|
    ensures Boundary(Frames(fmt, data), a) <= Boundary(Frames(fmt, data), b) <= |data|
    ensures a < b ==> Boundary(Frames(fmt, data), a) < Boundary(Frames(fmt, data), b)
  {
    if a < b {
      FramesShape(fmt, data, b - 1);
      BoundaryIncreases(fmt, data, a, b - 1);
    } else if b > 0 {
      FramesShape(fmt, data, b - 1);
    }
  }

  lemma IsAtUnique(cfg: Config, st: ScanState, j: nat, k: nat)
    requires IsAt(cfg, st, j) && IsAt(cfg, st, k)
    ensures j == k
  {
    BoundaryIncreases(cfg.fmt, cfg.sources[st.idx].data, if j < k then j else k, if j < k then k else j);
  }

  lemma InvWellFormed(cfg: Config, st: ScanState)
    requires Inv(cfg, st)
    ensures WellFormed(cfg, st)
  {
    if st.at.Some? {
      var k :| IsAt(cfg, st, k);
      ParseAtBoundary(cfg.fmt, cfg.sources[st.idx].data, k);
    }
  }

  ghost function Index(cfg: Config, st: ScanState): (k: nat)
    requires Inv(cfg, st)
    ensures st.at.Some? ==> IsAt(cfg, st, k)
    ensures st.at.None? ==> k == 0
  {
    if st.at.None? then 0 else var k: nat :| IsAt(cfg, st, k); k
  }

  // ----- The rows to come -----

  /** The first frame at or after `k` that a reader fast-forwarding to `skipTo` emits: the frame
      after the first bad one, or the first that ends past the checkpoint. */
  function CutFrom(fs: seq<Frame>, k: nat, skipTo: Option<nat>): (c: nat)
    requires k <= |fs|
    ensures k <= c <= |fs|
    decreases |fs| - k
  {
    if k == |fs| || !Skipped(skipTo, fs[k].end) then k
    else if IsBad(fs[k]) then k + 1
    else CutFrom(fs, k + 1, skipTo)
  }

  /** The rows a non-strict scan still delivers from `st` on. */
  ghost function Remaining(cfg: Config, st: ScanState): seq<MrtRow>
    requires Inv(cfg, st)
  {
    if st.idx >= |cfg.sources| then []
    else
      var fs := FramesOf(cfg, st.idx);
      RowsBetween(cfg.sources[st.idx].name, fs, CutFrom(fs, Index(cfg, st), st.skipTo), |fs|)
      + LaterRows(cfg, st.idx + 1)
  }

  lemma RemainingAt(cfg: Config, st: ScanState, k: nat)
    requires Inv(cfg, st) && IsAt(cfg, st, k)
    ensures Index(cfg, st) == k
  {
    IsAtUnique(cfg, st, k, Index(cfg, st));
  }

  lemma RemainingInitially(cfg: Config)
    ensures Inv(cfg, INITIAL) && Remaining(cfg, INITIAL) == LaterRows(cfg, 0)
  {
    hide FramesFrom, RowsAt, RowsBetween, DecoderAt;
  }

  // ----- One iteration -----

  /** The state after reading frame `k` of an open source. */
  ghost function AfterFrame(cfg: Config, st: ScanState, k: nat): ScanState
    requires IsAt(cfg, st, k) && k < |FramesOf(cfg, st.idx)|
  {
    var fs := FramesOf(cfg, st.idx);
    var skip := if IsGood(fs[k]) && Skipped(st.skipTo, fs[k].end) then st.skipTo else None;
    var next := ScanState(st.idx, Some(fs[k].end), DecoderAt(fs, k + 1), fs[k].end, skip, false);
    if IsTorn(fs[k]) then Advance(next) else next
  }

  lemma ReadAt(cfg: Config, st: ScanState, k: nat)
    requires WellFormed(cfg, st) && IsAt(cfg, st, k)
    ensures var fs := FramesOf(cfg, st.idx);
            if k == |fs| then ReadOne(cfg, st) == Emitted([], Advance(st))
            else if cfg.strict && !IsGood(fs[k]) then
              ReadOne(cfg, st).Raised? &&
              ReadOne(cfg, st).msg == ErrorText(cfg.sources[st.idx].name, fs[k].outcome.error)
            else
              var rows := if Skipped(st.skipTo, fs[k].end) then [] else RowsAt(cfg.sources[st.idx].name, fs, k);
              ReadOne(cfg, st) == Emitted(rows, AfterFrame(cfg, st, k)) &&
              (!IsTorn(fs[k]) ==> IsAt(cfg, AfterFrame(cfg, st, k), k + 1)) &&
              (IsTorn(fs[k]) ==> k == |fs| - 1)
  {
    hide FramesFrom, RowsBetween, LaterRows, ParseAt;
    var fs := FramesOf(cfg, st.idx);
    ParseAtBoundary(cfg.fmt, cfg.sources[st.idx].data, k);
    if k < |fs| {
      FramesShape(cfg.fmt, cfg.sources[st.idx].data, k);
      assert Boundary(fs, k + 1) == fs[k].end;
    }
  }

  lemma OpenIsAt(cfg: Config, st: ScanState)
    requires Inv(cfg, st) && st.at.None? && st.idx < |cfg.sources|
    ensures IsAt(cfg, OpenCurrent(cfg, st), 0) && Inv(cfg, OpenCurrent(cfg, st))
    ensures WellFormed(cfg, OpenCurrent(cfg, st))
    ensures Remaining(cfg, OpenCurrent(cfg, st)) == Remaining(cfg, st)
  {
    hide FramesFrom, RowsAt, RowsBetween, LaterRows;
    var open := OpenCurrent(cfg, st);
    assert IsAt(cfg, open, 0);
    RemainingAt(cfg, open, 0);
    InvWellFormed(cfg, open);
  }

  ghost predicate FrameRowsAtMost(cfg: Config, most: nat) {
    forall i, k :: 0 <= i < |cfg.sources| && 0 <= k < |FramesOf(cfg, i)| ==>
      |RowsAt(cfg.sources[i].name, FramesOf(cfg, i), k)| <= most
  }

  lemma ClosedRemaining(cfg: Config, st: ScanState)
    requires st.idx <= |cfg.sources| && st.at.None? && st.skipTo.None? && !st.done
    ensures Inv(cfg, st) && Remaining(cfg, st) == LaterRows(cfg, st.idx)
  {
    hide FramesFrom, RowsAt, RowsBetween, DecoderAt;
  }

  lemma CutStep(name: string, fs: seq<Frame>, k: nat, skipTo: Option<nat>)
    requires k < |fs| && (IsTorn(fs[k]) ==> k == |fs| - 1)
    ensures var rows := if Skipped(skipTo, fs[k].end) then [] else RowsAt(name, fs, k);
            var skip := if IsGood(fs[k]) && Skipped(skipTo, fs[k].end) then skipTo else None;
            RowsBetween(name, fs, CutFrom(fs, k, skipTo), |fs|)
            == rows + RowsBetween(name, fs, CutFrom(fs, k + 1, skip), |fs|)
  {
    if IsTorn(fs[k]) {
      assert RowsBetween(name, fs, k + 1, |fs|) == [];
    }
  }

  lemma LastCut(name: string, fs: seq<Frame>, skipTo: Option<nat>)
    requires fs != [] && IsTorn(fs[|fs| - 1])
    ensures RowsBetween(name, fs, CutFrom(fs, |fs| - 1, skipTo), |fs|) ==
            if Skipped(skipTo, fs[|fs| - 1].end) then [] else RowsAt(name, fs, |fs| - 1)
  {
    var k := |fs| - 1;
    assert RowsBetween(name, fs, k + 1, |fs|) == [];
    assert RowsBetween(name, fs, k, |fs|) == RowsAt(name, fs, k) + [];
  }

  lemma Regroup<T>(a: seq<T>, b: seq<T>, c: seq<T>)
    ensures (a + b) + c == a + (b + c)
  {
  }

  lemma AlignedConserves(cfg: Config, st: ScanState, k: nat, next: ScanState)
    requires Inv(cfg, st) && IsAt(cfg, st, k) && k < |FramesOf(cfg, st.idx)|
    requires Inv(cfg, next) && IsAt(cfg, next, k + 1) && next.idx == st.idx
    requires var f := FramesOf(cfg, st.idx)[k];
             !IsTorn(f) && next.skipTo == if IsGood(f) && Skipped(st.skipTo, f.end) then st.skipTo else None
    ensures var fs := FramesOf(cfg, st.idx);
            var rows := if Skipped(st.skipTo, fs[k].end) then [] else RowsAt(cfg.sources[st.idx].name, fs, k);
            Remaining(cfg, st) == rows + Remaining(cfg, next)
  {
    hide FramesFrom, RowsAt, RowsBetween, CutFrom, DecoderAt, LaterRows;
    var fs := FramesOf(cfg, st.idx);
    var name := cfg.sources[st.idx].name;
    var rows := if Skipped(st.skipTo, fs[k].end) then [] else RowsAt(name, fs, k);
    RemainingAt(cfg, st, k);
    RemainingAt(cfg, next, k + 1);
    CutStep(name, fs, k, st.skipTo);
    Regroup(rows, RowsBetween(name, fs, CutFrom(fs, k + 1, next.skipTo), |fs|), LaterRows(cfg, st.idx + 1));
  }

  lemma TornConserves(cfg: Config, st: ScanState, k: nat, next: ScanState)
    requires Inv(cfg, st) && IsAt(cfg, st, k) && k == |FramesOf(cfg, st.idx)| - 1
    requires IsTorn(FramesOf(cfg, st.idx)[k])
    requires next.idx == st.idx + 1 && next.at.None? && next.skipTo.None? && !next.done
    ensures Inv(cfg, next)
    ensures var fs := FramesOf(cfg, st.idx);
            var rows := if Skipped(st.skipTo, fs[k].end) then [] else RowsAt(cfg.sources[st.idx].name, fs, k);
            Remaining(cfg, st) == rows + Remaining(cfg, next)
  {
    hide FramesFrom, RowsAt, RowsBetween, CutFrom, DecoderAt, LaterRows;
    var fs := FramesOf(cfg, st.idx);
    var name := cfg.sources[st.idx].name;
    RemainingAt(cfg, st, k);
    LastCut(name, fs, st.skipTo);
    ClosedRemaining(cfg, next);
  }

  lemma FrameConserves(cfg: Config, st: ScanState, k: nat)
    requires Inv(cfg, st) && WellFormed(cfg, st) && IsAt(cfg, st, k) && !cfg.strict
    requires k < |FramesOf(cfg, st.idx)|
    ensures Inv(cfg, AfterFrame(cfg, st, k))
    ensures var fs := FramesOf(cfg, st.idx);
            var rows := if Skipped(st.skipTo, fs[k].end) then [] else RowsAt(cfg.sources[st.idx].name, fs, k);
            Remaining(cfg, st) == rows + Remaining(cfg, AfterFrame(cfg, st, k))
  {
    hide FramesFrom, RowsAt, RowsBetween, CutFrom, DecoderAt, LaterRows;
    ReadAt(cfg, st, k);
    if IsTorn(FramesOf(cfg, st.idx)[k]) {
      TornConserves(cfg, st, k, AfterFrame(cfg, st, k));
    } else {
      AlignedConserves(cfg, st, k, AfterFrame(cfg, st, k));
    }
  }

  /** One iteration of a non-strict scan moves rows from "to come" to "emitted", and nothing else. */
  lemma IterateConserves(cfg: Config, st: ScanState)
    requires Inv(cfg, st) && WellFormed(cfg, st) && !cfg.strict && !st.done
    ensures Inv(cfg, Iterate(cfg, st).next)
    ensures match Iterate(cfg, st)
            case Stopped(next) => next.done && Remaining(cfg, st) == [] == Remaining(cfg, next)
            case Raised(_, _) => false
            case Emitted(rows, next) =>
              !next.done && Remaining(cfg, st) == rows + Remaining(cfg, next) &&
              (rows != [] ==> next.skipTo.None?)
  {
    hide FramesFrom, RowsAt, RowsBetween, CutFrom, DecoderAt, LaterRows, ReadOne;
    if st.at.None? && st.idx < |cfg.sources| {
      OpenIsAt(cfg, st);
      ReadConserves(cfg, OpenCurrent(cfg, st), 0);
    } else if st.at.Some? {
      ReadConserves(cfg, st, Index(cfg, st));
    }
  }

  lemma ReadConserves(cfg: Config, st: ScanState, k: nat)
    requires Inv(cfg, st) && WellFormed(cfg, st) && IsAt(cfg, st, k) && !cfg.strict
    ensures Inv(cfg, ReadOne(cfg, st).next)
    ensures match ReadOne(cfg, st)
            case Stopped(_) => false
            case Raised(_, _) => false
            case Emitted(rows, next) =>
              !next.done && Remaining(cfg, st) == rows + Remaining(cfg, next) &&
              (rows != [] ==> next.skipTo.None?)
  {
    hide FramesFrom, RowsAt, DecoderAt, LaterRows, ReadOne;
    ReadAt(cfg, st, k);
    RemainingAt(cfg, st, k);
    var fs := FramesOf(cfg, st.idx);
    if k == |fs| {
      ClosedRemaining(cfg, Advance(st));
    } else {
      FrameConserves(cfg, st, k);
    }
  }

  // ----- One pull -----

  function RowsIn(pulled: Pulled): seq<MrtRow> {
    if pulled.Batch? then pulled.rows else []
  }

  lemma {:induction false} LoopConserves(cfg: Config, st: ScanState, pending: seq<MrtRow>, target: nat)
    requires Inv(cfg, st) && WellFormed(cfg, st) && !cfg.strict && !st.done
    requires |pending| < target && (pending != [] ==> st.skipTo.None?)
    ensures var (pulled, next) := Loop(cfg, st, pending, target);
            Inv(cfg, next) && !pulled.Failed? &&
            pending + Remaining(cfg, st) == RowsIn(pulled) + Remaining(cfg, next) &&
            (pulled.Batch? ==> pulled.rows != [] && next.skipTo.None? && (next.done || |pulled.rows| >= target)) &&
            (pulled.Exhausted? ==> next.done)
    decreases Fuel(cfg, st)
  {
    hide FramesFrom, RowsAt, RowsBetween, CutFrom, DecoderAt, LaterRows;
    IterateConserves(cfg, st);
    match Iterate(cfg, st)
    case Stopped(next) =>
    case Emitted(rows, next) =>
      Regroup(pending, rows, Remaining(cfg, next));
      if |pending + rows| < target {
        LoopConserves(cfg, next, pending + rows, target);
      }
  }

  /** One non-strict pull, from any state of the scan: it takes the next rows to come, in order, and
      nothing else changes about the rows to come; a batch is never empty, is full unless it ends the
      scan, and overshoots by less than one record; no batch means the scan is over, with nothing left. */
  lemma PullConserves(cfg: Config, st: ScanState, target: nat)
    requires Inv(cfg, st) && !cfg.strict && target > 0
    ensures WellFormed(cfg, st)
    ensures var (pulled, next) := Pull(cfg, st, target);
            Inv(cfg, next) && !pulled.Failed? &&
            Remaining(cfg, st) == RowsIn(pulled) + Remaining(cfg, next) &&
            (pulled.Batch? ==> pulled.rows != [] && next.skipTo.None? && (next.done || |pulled.rows| >= target)) &&
            (pulled.Exhausted? ==> next.done && Remaining(cfg, next) == [])
  {
    InvWellFormed(cfg, st);
    if !st.done {
      LoopConserves(cfg, st, [], target);
      assert [] + Remaining(cfg, st) == Remaining(cfg, st);
    }
  }

  // ----- Batch sizes and the end of the scan -----

  lemma IterateBound(cfg: Config, st: ScanState, most: nat)
    requires Inv(cfg, st) && WellFormed(cfg, st) && !cfg.strict && FrameRowsAtMost(cfg, most)
    ensures Iterate(cfg, st).Emitted? ==> |Iterate(cfg, st).rows| <= most
  {
    if st.at.None? && st.idx < |cfg.sources| {
      OpenIsAt(cfg, st);
      ReadAt(cfg, OpenCurrent(cfg, st), 0);
    } else if st.at.Some? {
      ReadAt(cfg, st, Index(cfg, st));
    }
  }

  lemma {:induction false} LoopBound(cfg: Config, st: ScanState, pending: seq<MrtRow>, target: nat, most: nat)
    requires Inv(cfg, st) && WellFormed(cfg, st) && !cfg.strict && !st.done && FrameRowsAtMost(cfg, most)
    requires |pending| < target
    ensures |RowsIn(Loop(cfg, st, pending, target).0)| <= target - 1 + most
    decreases Fuel(cfg, st)
  {
    IterateConserves(cfg, st);
    IterateBound(cfg, st, most);
    match Iterate(cfg, st)
    case Stopped(next) =>
    case Emitted(rows, next) =>
      if |pending + rows| < target {
        LoopBound(cfg, next, pending + rows, target, most);
      }
  }

  lemma LenientPullBound(cfg: Config, st: ScanState, target: nat, most: nat)
    requires Inv(cfg, st) && !cfg.strict && target > 0 && FrameRowsAtMost(cfg, most)
    ensures WellFormed(cfg, st)
    ensures |RowsIn(Pull(cfg, st, target).0)| <= target - 1 + most
  {
    InvWellFormed(cfg, st);
    if !st.done {
      LoopBound(cfg, st, [], target, most);
    }
  }

  lemma {:induction false} LoopExhausted(cfg: Config, st: ScanState, pending: seq<MrtRow>, target: nat)
    requires WellFormed(cfg, st) && target > 0
    ensures Loop(cfg, st, pending, target).0.Exhausted? ==> Loop(cfg, st, pending, target).1.done
    decreases Fuel(cfg, st)
  {
    match Iterate(cfg, st)
    case Stopped(_) =>
    case Raised(_, _) =>
    case Emitted(rows, next) =>
      if |pending + rows| < target {
        LoopExhausted(cfg, next, pending + rows, target);
      }
  }

  /** Strict or not, a pull without a batch is final: every later pull says the same. */
  lemma ExhaustedForever(cfg: Config, st: ScanState, target: nat, later: nat)
    requires WellFormed(cfg, st) && target > 0 && Pull(cfg, st, target).0.Exhausted?
    ensures var next := Pull(cfg, st, target).1; Pull(cfg, next, later) == (Exhausted, next)
  {
    if !st.done {
      LoopExhausted(cfg, st, [], target);
    }
  }
}

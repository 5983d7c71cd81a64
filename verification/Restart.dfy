/** Restarting a scan from its own checkpoints: when every later pull is the same, batch by batch. */
module Restart {
  import opened Bytes
  import opened Wrappers
  import opened Mrt
  import opened Framing
  import opened Scan
  import opened ScanProofs
  import opened Runs
  import opened Strict
  import opened Resume

  // ----- Fast-forwarding is silent -----

  ghost predicate Silent(name: string, fs: seq<Frame>, a: nat, b: nat)
    requires b <= |fs|
  {
    RowsBetween(name, fs, a, b) == []
  }

  ghost predicate GoodBefore(fs: seq<Frame>, k: nat)
    requires k <= |fs|
  {
    forall j :: 0 <= j < k ==> IsGood(fs[j])
  }

  lemma SilentStep(name: string, fs: seq<Frame>, a: nat, b: nat, skipTo: Option<nat>)
    requires a < b <= |fs| && !TornAt(fs, b) && (IsTorn(fs[a]) ==> a == |fs| - 1)
    requires Silent(name, fs, CutFrom(fs, a, skipTo), b)
    ensures !IsTorn(fs[a]) && (IsGood(fs[a]) || Skipped(skipTo, fs[a].end))
    ensures Skipped(skipTo, fs[a].end) || RowsAt(name, fs, a) == []
    ensures var skip := if IsGood(fs[a]) && Skipped(skipTo, fs[a].end) then skipTo else None;
            Silent(name, fs, CutFrom(fs, a + 1, skip), b) &&
            (skip.Some? ==> CutFrom(fs, a + 1, skip) == CutFrom(fs, a, skipTo))
  {
    if !Skipped(skipTo, fs[a].end) {
      assert |RowsBetween(name, fs, a, b)| == |RowsAt(name, fs, a)| + |RowsBetween(name, fs, a + 1, b)|;
    }
  }

  lemma SilentMove(cfg: Config, st: ScanState, a: nat, target: Target)
    returns (next: ScanState)
    requires WellFormed(cfg, st) && IsAt(cfg, st, a) && a < |FramesOf(cfg, st.idx)|
    requires var f := FramesOf(cfg, st.idx)[a];
             !IsTorn(f) && (cfg.strict ==> IsGood(f)) &&
             (Skipped(st.skipTo, f.end) || RowsAt(cfg.sources[st.idx].name, FramesOf(cfg, st.idx), a) == [])
    ensures WellFormed(cfg, next) && IsAt(cfg, next, a + 1) && next.idx == st.idx
    ensures Loop(cfg, st, [], target) == Loop(cfg, next, [], target)
    ensures var f := FramesOf(cfg, st.idx)[a];
            next.skipTo == if IsGood(f) && Skipped(st.skipTo, f.end) then st.skipTo else None
  {
    ReadAt(cfg, st, a);
    next := AfterFrame(cfg, st, a);
    assert Iterate(cfg, st) == Emitted([], next);
  }

  /** Frames that emit nothing move the reader along without being seen by the pull. */
  lemma {:induction false} SilentRun(cfg: Config, st: ScanState, a: nat, b: nat, target: Target)
    returns (end: ScanState)
    requires WellFormed(cfg, st) && IsAt(cfg, st, a)
    requires a <= b <= |FramesOf(cfg, st.idx)| && !TornAt(FramesOf(cfg, st.idx), b)
    requires cfg.strict ==> GoodBefore(FramesOf(cfg, st.idx), b)
    requires var fs := FramesOf(cfg, st.idx);
             Silent(cfg.sources[st.idx].name, fs, CutFrom(fs, a, st.skipTo), b)
    ensures WellFormed(cfg, end) && IsAt(cfg, end, b) && end.idx == st.idx
    ensures Loop(cfg, st, [], target) == Loop(cfg, end, [], target)
    ensures end.skipTo.Some? ==>
              end.skipTo == st.skipTo &&
              CutFrom(FramesOf(cfg, st.idx), a, st.skipTo) == CutFrom(FramesOf(cfg, st.idx), b, st.skipTo)
    decreases b - a
  {
    hide FramesFrom, CutFrom, RowsAt, RowsBetween, DecoderAt, LaterRows, ReadOne, Loop, Iterate;
    var fs := FramesOf(cfg, st.idx);
    if a == b {
      end := st;
    } else {
      if IsTorn(fs[a]) {
        FramesShape(cfg.fmt, cfg.sources[st.idx].data, a);
      }
      SilentStep(cfg.sources[st.idx].name, fs, a, b, st.skipTo);
      var next := SilentMove(cfg, st, a, target);
      end := SilentRun(cfg, next, a + 1, b, target);
    }
  }

  ghost predicate SamePull(a: (Pulled, ScanState), b: (Pulled, ScanState)) {
    a.0 == b.0 && (a.0.Batch? ==> a.1 == b.1)
  }

  /** Once the next frame lies past the checkpoint, having a checkpoint or not makes no difference. */
  lemma SkipIrrelevant(cfg: Config, s: ScanState, r: ScanState, k: nat, target: Target)
    requires WellFormed(cfg, s) && WellFormed(cfg, r)
    requires IsAt(cfg, s, k) && IsAt(cfg, r, k) && s.idx == r.idx
    requires k < |FramesOf(cfg, s.idx)| ==>
               !Skipped(s.skipTo, FramesOf(cfg, s.idx)[k].end) && !Skipped(r.skipTo, FramesOf(cfg, s.idx)[k].end)
    ensures SamePull(Loop(cfg, s, [], target), Loop(cfg, r, [], target))
  {
    hide FramesFrom, RowsAt, DecoderAt, ReadOne;
    ReadAt(cfg, s, k);
    ReadAt(cfg, r, k);
  }

  lemma OpenFirst(cfg: Config, st: ScanState, target: Target)
    requires WellFormed(cfg, st) && st.at.None? && st.idx < |cfg.sources|
    ensures Loop(cfg, st, [], target) == Loop(cfg, OpenCurrent(cfg, st), [], target)
  {
    assert Iterate(cfg, st) == Iterate(cfg, OpenCurrent(cfg, st));
  }

  // ----- Safe checkpoints -----

  /** Resuming here repeats no row (reader open) and loses none (reader closed): the frames between
      the cut and the checkpoint, or before the cut, yield no rows. */
  ghost predicate Safe(cfg: Config, st: ScanState)
    requires Inv(cfg, st)
  {
    st.idx < |cfg.sources| ==>
      var fs := FramesOf(cfg, st.idx);
      if st.at.Some? then Silent(cfg.sources[st.idx].name, fs, Cut(cfg, st), Index(cfg, st))
      else Silent(cfg.sources[st.idx].name, fs, 0, Cut(cfg, st))
  }

  /** What a strict scan adds: nothing before the checkpoint failed. */
  ghost predicate StrictlyReached(cfg: Config, st: ScanState)
    requires Inv(cfg, st)
  {
    st.idx < |cfg.sources| ==> st.at.Some? && GoodBefore(FramesOf(cfg, st.idx), Index(cfg, st))
  }

  lemma OpenSame(cfg: Config, base: ScanState, st: ScanState, k: nat, target: Target)
    requires Inv(cfg, st) && st.skipTo.None? && IsAt(cfg, st, k) && Safe(cfg, st) && WellFormed(cfg, st)
    requires cfg.strict ==> StrictlyReached(cfg, st)
    ensures SamePull(Loop(cfg, RestoreAt(cfg, base, st.idx, st.offset), [], target), Loop(cfg, st, [], target))
  {
    hide FramesFrom, CutFrom, RowsAt, RowsBetween, LaterRows, ReadOne, Loop, Iterate;
    var r := RestoreAt(cfg, base, st.idx, st.offset);
    var fs := FramesOf(cfg, st.idx);
    var data := cfg.sources[st.idx].data;
    RemainingAt(cfg, st, k);
    OpenFirst(cfg, r, target);
    assert r.idx == st.idx && !r.done;
    var open := OpenCurrent(cfg, r);
    assert IsAt(cfg, open, 0);
    if k == 0 {
      assert open == st;
    } else {
      BoundaryIncreases(cfg.fmt, data, 0, k);
      assert open.skipTo == Some(st.offset);
      var end := SilentRun(cfg, open, 0, k, target);
      if k < |fs| {
        FramesShape(cfg.fmt, data, k);
      }
      SkipIrrelevant(cfg, end, st, k, target);
    }
  }

  lemma FailureHasRow(name: string, fs: seq<Frame>, k: nat)
    requires k < |fs| && !IsGood(fs[k])
    ensures RowsAt(name, fs, k) != []
  {
  }

  lemma {:induction false} SilentHasNoFailure(name: string, fs: seq<Frame>, a: nat, b: nat)
    requires a <= b <= |fs| && Silent(name, fs, a, b)
    ensures forall j :: a <= j < b ==> IsGood(fs[j])
    decreases b - a
  {
    hide RowsAt;
    if a < b {
      if !IsGood(fs[a]) {
        FailureHasRow(name, fs, a);
      }
      SilentHasNoFailure(name, fs, a + 1, b);
    }
  }

  lemma {:induction false} CutStops(fs: seq<Frame>, a: nat, t: nat)
    requires a <= |fs|
    ensures var c := CutFrom(fs, a, Some(t));
            (c > a && IsBad(fs[c - 1])) || c == |fs| || fs[c].end > t
    decreases |fs| - a
  {
    if a < |fs| && Skipped(Some(t), fs[a].end) && !IsBad(fs[a]) {
      CutStops(fs, a + 1, t);
    }
  }

  lemma ClosedSame(cfg: Config, base: ScanState, st: ScanState, target: Target)
    requires Inv(cfg, st) && st.skipTo.None? && st.at.None? && st.idx < |cfg.sources| && Safe(cfg, st)
    requires WellFormed(cfg, st)
    ensures SamePull(Loop(cfg, RestoreAt(cfg, base, st.idx, st.offset), [], target), Loop(cfg, st, [], target))
  {
    hide FramesFrom, RowsAt, LaterRows, ReadOne, Loop, Iterate;
    var r := RestoreAt(cfg, base, st.idx, st.offset);
    var fs := FramesOf(cfg, st.idx);
    var name := cfg.sources[st.idx].name;
    OpenFirst(cfg, r, target);
    OpenFirst(cfg, st, target);
    var openR, openS := OpenCurrent(cfg, r), OpenCurrent(cfg, st);
    assert r.idx == st.idx && !r.done;
    if st.offset == 0 {
      assert openR == openS;
    } else {
      var c := Cut(cfg, st);
      SilentHasNoFailure(name, fs, 0, c);
      CutStops(fs, 0, st.offset);
      assert IsAt(cfg, openR, 0) && IsAt(cfg, openS, 0);
      var endR := SilentRun(cfg, openR, 0, c, target);
      var endS := SilentRun(cfg, openS, 0, c, target);
      SkipIrrelevant(cfg, endR, endS, c, target);
    }
  }

  /** Resuming from the checkpoint bytes of a safe state is invisible to the next pull. */
  lemma ResumeSame(cfg: Config, base: ScanState, st: ScanState, target: Target)
    requires Inv(cfg, st) && st.skipTo.None? && Safe(cfg, st) && WellFormed(cfg, st)
    requires cfg.strict ==> StrictlyReached(cfg, st)
    ensures SamePull(Pull(cfg, RestoreAt(cfg, base, st.idx, st.offset), target), Pull(cfg, st, target))
  {
    if st.idx < |cfg.sources| {
      if st.at.Some? {
        OpenSame(cfg, base, st, Index(cfg, st), target);
      } else {
        ClosedSame(cfg, base, st, target);
      }
    }
  }

  // ----- Which checkpoints a scan reaches -----

  lemma {:induction false} CutWithoutBad(fs: seq<Frame>, a: nat, k: nat, t: nat)
    requires a <= k <= |fs|
    requires (forall j :: a <= j < k - 1 ==> !IsBad(fs[j])) && forall j :: a <= j < k ==> fs[j].end <= t
    ensures CutFrom(fs, a, Some(t)) >= k
    decreases k - a
  {
    if a < k - 1 {
      CutWithoutBad(fs, a + 1, k, t);
    }
  }

  /** A checkpoint with the reader open is safe if no bad frame of its source ends before it. */
  lemma NoBadBeforeIsSafe(cfg: Config, st: ScanState)
    requires Inv(cfg, st) && st.skipTo.None? && st.at.Some?
    requires forall f :: f in FramesOf(cfg, st.idx) && IsBad(f) ==> f.end >= st.offset
    ensures Safe(cfg, st)
  {
    var fs, k := FramesOf(cfg, st.idx), Index(cfg, st);
    forall j | 0 <= j < k
      ensures fs[j].end <= st.offset && (j < k - 1 ==> !IsBad(fs[j]))
    {
      BoundaryIncreases(cfg.fmt, cfg.sources[st.idx].data, j + 1, k);
      assert fs[j] in fs;
    }
    CutWithoutBad(fs, 0, k, st.offset);
  }

  lemma GoodIsSafe(cfg: Config, st: ScanState)
    requires Inv(cfg, st) && st.skipTo.None? && st.at.Some?
    requires GoodBefore(FramesOf(cfg, st.idx), Index(cfg, st))
    ensures Safe(cfg, st)
  {
    hide Safe;
    var fs, k := FramesOf(cfg, st.idx), Index(cfg, st);
    forall f | f in fs && IsBad(f)
      ensures f.end >= st.offset
    {
      var j :| 0 <= j < |fs| && fs[j] == f;
      BoundaryIncreases(cfg.fmt, cfg.sources[st.idx].data, k, j + 1);
    }
    NoBadBeforeIsSafe(cfg, st);
  }

  ghost predicate OpenIsGood(cfg: Config, st: ScanState)
    requires Inv(cfg, st)
  {
    st.at.Some? ==> GoodBefore(FramesOf(cfg, st.idx), Index(cfg, st))
  }

  lemma StrictRead(cfg: Config, st: ScanState, k: nat)
    requires Inv(cfg, st) && WellFormed(cfg, st) && IsAt(cfg, st, k) && cfg.strict
    requires GoodBefore(FramesOf(cfg, st.idx), k)
    ensures var it := ReadOne(cfg, st);
            it.Emitted? ==>
              Inv(cfg, it.next) && OpenIsGood(cfg, it.next) && !it.next.done &&
              (it.rows != [] ==> it.next.at.Some?)
  {
    hide FramesFrom, CutFrom, RowsAt, RowsBetween, DecoderAt, LaterRows, ReadOne;
    ReadAt(cfg, st, k);
    var it := ReadOne(cfg, st);
    if it.Emitted? && it.next.at.Some? {
      assert IsAt(cfg, it.next, k + 1);
      RemainingAt(cfg, it.next, k + 1);
    }
  }

  lemma {:induction false} StrictLoopReach(cfg: Config, st: ScanState, pending: seq<MrtRow>, target: nat)
    requires Inv(cfg, st) && WellFormed(cfg, st) && OpenIsGood(cfg, st) && cfg.strict && !st.done
    requires |pending| < target
    ensures var (pulled, next) := Loop(cfg, st, pending, target);
            pulled.Batch? ==> Inv(cfg, next) && StrictlyReached(cfg, next) && (next.at.None? ==> next.done)
    decreases Fuel(cfg, st)
  {
    if st.at.Some? {
      StrictRead(cfg, st, Index(cfg, st));
    } else if st.idx < |cfg.sources| {
      OpenIsAt(cfg, st);
      StrictRead(cfg, OpenCurrent(cfg, st), 0);
    }
    match Iterate(cfg, st)
    case Stopped(next) =>
    case Raised(_, _) =>
    case Emitted(rows, next) =>
      if |pending + rows| < target {
        StrictLoopReach(cfg, next, pending + rows, target);
      }
  }

  /** In a lenient scan, a batch leaves the reader closed before the end only by filling exactly on
      the error row of a torn source; the offset is then where that source was torn. */
  ghost predicate LeftByTorn(cfg: Config, st: ScanState) {
    0 < st.idx <= |cfg.sources| &&
    var fs := FramesOf(cfg, st.idx - 1);
    TornAt(fs, |fs|) && st.offset == Boundary(fs, |fs|)
  }

  lemma TornRead(cfg: Config, st: ScanState, k: nat)
    requires Inv(cfg, st) && WellFormed(cfg, st) && IsAt(cfg, st, k) && !cfg.strict
    ensures var it := ReadOne(cfg, st);
            it.Emitted? && (it.rows != [] && it.next.at.None? ==> LeftByTorn(cfg, it.next))
  {
    hide FramesFrom, CutFrom, RowsAt, RowsBetween, DecoderAt, LaterRows, ReadOne;
    ReadAt(cfg, st, k);
  }

  lemma {:induction false} LoopClosed(cfg: Config, st: ScanState, pending: seq<MrtRow>, target: nat)
    requires Inv(cfg, st) && WellFormed(cfg, st) && !cfg.strict && !st.done
    requires |pending| < target
    ensures var (pulled, next) := Loop(cfg, st, pending, target);
            pulled.Batch? && next.at.None? && !next.done ==> LeftByTorn(cfg, next)
    decreases Fuel(cfg, st)
  {
    IterateConserves(cfg, st);
    if st.at.Some? {
      TornRead(cfg, st, Index(cfg, st));
    } else if st.idx < |cfg.sources| {
      OpenIsAt(cfg, st);
      TornRead(cfg, OpenCurrent(cfg, st), 0);
    }
    match Iterate(cfg, st)
    case Stopped(next) =>
    case Emitted(rows, next) =>
      if |pending + rows| < target {
        LoopClosed(cfg, next, pending + rows, target);
      }
  }

  /** The checkpoint after a batch: the fast-forward is over; with the reader open, the offset is its
      count, a frame boundary, and the decoder is a fresh one fed exactly the frames that end by it;
      with the reader closed before the end, a lenient scan has just left a torn source. */
  lemma CheckpointInvariant(cfg: Config, st: ScanState, target: Target)
    requires Inv(cfg, st) && WellFormed(cfg, st) && Pull(cfg, st, target).0.Batch?
    requires !cfg.strict || OpenIsGood(cfg, st)
    ensures var next := Pull(cfg, st, target).1;
            Inv(cfg, next) && next.skipTo.None? &&
            (next.at.Some? ==> exists k: nat ::
              IsAt(cfg, next, k) && next.at == Some(next.offset) &&
              forall j :: 0 <= j < |FramesOf(cfg, next.idx)| ==>
                (j < k <==> FramesOf(cfg, next.idx)[j].end <= next.offset)) &&
            (next.at.None? && !next.done ==> !cfg.strict && LeftByTorn(cfg, next))
  {
    PullKeepsInv(cfg, st, target);
    var next := Pull(cfg, st, target).1;
    if next.at.Some? {
      var k := Index(cfg, next);
      var fs := FramesOf(cfg, next.idx);
      assert IsAt(cfg, next, k);
      forall j | 0 <= j < |fs|
        ensures j < k <==> fs[j].end <= next.offset
      {
        if j < k {
          BoundaryIncreases(cfg.fmt, cfg.sources[next.idx].data, j + 1, k);
        } else {
          BoundaryIncreases(cfg.fmt, cfg.sources[next.idx].data, k, j + 1);
        }
      }
    } else if cfg.strict {
      StrictLoopReach(cfg, st, [], target);
    } else {
      LoopClosed(cfg, st, [], target);
    }
  }

  /** No bad frame anywhere, and no torn source but the last. */
  ghost predicate Undamaged(cfg: Config) {
    forall i, k :: 0 <= i < |cfg.sources| && 0 <= k < |FramesOf(cfg, i)| ==>
      IsGood(FramesOf(cfg, i)[k]) || (IsTorn(FramesOf(cfg, i)[k]) && i == |cfg.sources| - 1)
  }

  lemma UndamagedIsSafe(cfg: Config, st: ScanState, target: Target)
    requires Inv(cfg, st) && !cfg.strict && Undamaged(cfg) && WellFormed(cfg, st)
    requires Pull(cfg, st, target).0.Batch?
    ensures var next := Pull(cfg, st, target).1; Inv(cfg, next) && Safe(cfg, next)
  {
    hide FramesFrom, CutFrom, RowsAt, RowsBetween, DecoderAt, LaterRows, Loop, Iterate;
    PullConserves(cfg, st, target);
    LoopClosed(cfg, st, [], target);
    var next := Pull(cfg, st, target).1;
    if next.idx < |cfg.sources| {
      if next.at.Some? {
        var fs, k := FramesOf(cfg, next.idx), Index(cfg, next);
        forall j | 0 <= j < k
          ensures IsGood(fs[j])
        {
          FramesShape(cfg.fmt, cfg.sources[next.idx].data, j);
        }
        GoodIsSafe(cfg, next);
      } else {
        assert false;
      }
    }
  }

  // ----- Whole runs with restarts -----

  datatype Turn = Turn(target: Target, restart: bool)

  /** A new producer, given the checkpoint bytes of `st`. */
  function Resumed(cfg: Config, st: ScanState): (r: ScanState)
    ensures WellFormed(cfg, r)
  {
    RestoreResume(cfg, INITIAL, EncodeResume(st))
  }

  /** A run in which, after some of its batches, a new producer takes over from the checkpoint bytes. */
  function RunRestarting(cfg: Config, st: ScanState, turns: seq<Turn>): seq<Pulled>
    requires WellFormed(cfg, st)
    decreases |turns|
  {
    if |turns| == 0 then []
    else
      var (pulled, next) := Pull(cfg, st, turns[0].target);
      [pulled] +
      if pulled.Batch? then
        RunRestarting(cfg, if turns[0].restart then Resumed(cfg, next) else next, turns[1..])
      else []
  }

  function Targets(turns: seq<Turn>): seq<Target> {
    if |turns| == 0 then [] else [turns[0].target] + Targets(turns[1..])
  }

  /** Every restart of the plan happens at a safe checkpoint of the uninterrupted run. */
  ghost predicate RestartsSafe(cfg: Config, st: ScanState, turns: seq<Turn>)
    requires WellFormed(cfg, st)
    decreases |turns|
  {
    |turns| > 0 ==>
      var (pulled, next) := Pull(cfg, st, turns[0].target);
      pulled.Batch? ==>
        Inv(cfg, next) && next.skipTo.None? && (turns[0].restart ==> Safe(cfg, next)) &&
        (cfg.strict ==> StrictlyReached(cfg, next)) &&
        RestartsSafe(cfg, next, turns[1..])
  }

  ghost predicate Twins(cfg: Config, r: ScanState, st: ScanState)
    requires WellFormed(cfg, r) && WellFormed(cfg, st)
  {
    forall t: Target :: SamePull(Pull(cfg, r, t), Pull(cfg, st, t))
  }

  lemma ResumedIsTwin(cfg: Config, st: ScanState)
    requires Inv(cfg, st) && st.skipTo.None? && Safe(cfg, st) && WellFormed(cfg, st)
    requires |cfg.sources| < Pow256(8) && st.offset < Pow256(8)
    requires cfg.strict ==> StrictlyReached(cfg, st)
    ensures Twins(cfg, Resumed(cfg, st), st)
  {
    ResumeBytesRoundTrip(cfg, INITIAL, st);
    forall t: Target
      ensures SamePull(Pull(cfg, Resumed(cfg, st), t), Pull(cfg, st, t))
    {
      ResumeSame(cfg, INITIAL, st, t);
    }
  }

  lemma {:induction false} RestartsInvisible(cfg: Config, st: ScanState, r: ScanState, turns: seq<Turn>)
    requires WellFormed(cfg, st) && WellFormed(cfg, r) && Twins(cfg, r, st)
    requires Fits64(cfg) && st.offset < Pow256(8) && RestartsSafe(cfg, st, turns)
    ensures RunRestarting(cfg, r, turns) == Run(cfg, st, Targets(turns))
    decreases |turns|
  {
    hide Loop, RestoreResume, Safe;
    if |turns| > 0 {
      var target := turns[0].target;
      assert SamePull(Pull(cfg, r, target), Pull(cfg, st, target));
      var (pulled, next) := Pull(cfg, st, target);
      assert Targets(turns)[1..] == Targets(turns[1..]);
      if pulled.Batch? {
        LoopFits(cfg, st, [], target);
        if turns[0].restart {
          ResumedIsTwin(cfg, next);
          RestartsInvisible(cfg, next, Resumed(cfg, next), turns[1..]);
        } else {
          RestartsInvisible(cfg, next, next, turns[1..]);
        }
      }
    }
  }

  lemma {:induction false} StrictRestartsSafe(cfg: Config, st: ScanState, turns: seq<Turn>)
    requires Inv(cfg, st) && WellFormed(cfg, st) && OpenIsGood(cfg, st) && cfg.strict
    ensures RestartsSafe(cfg, st, turns)
    decreases |turns|
  {
    if |turns| > 0 {
      PullKeepsInv(cfg, st, turns[0].target);
      var (pulled, next) := Pull(cfg, st, turns[0].target);
      if pulled.Batch? {
        StrictLoopReach(cfg, st, [], turns[0].target);
        if next.idx < |cfg.sources| {
          GoodIsSafe(cfg, next);
        }
        StrictRestartsSafe(cfg, next, turns[1..]);
      }
    }
  }

  /** Resume is transparent in strict mode: on any input, any number of restarts, at any batches,
      with any targets, changes no batch, no error and no end of the scan. */
  lemma StrictResumeTransparent(cfg: Config, turns: seq<Turn>)
    requires cfg.strict && Fits64(cfg)
    ensures RunRestarting(cfg, INITIAL, turns) == Run(cfg, INITIAL, Targets(turns))
  {
    StrictRestartsSafe(cfg, INITIAL, turns);
    RestartsInvisible(cfg, INITIAL, INITIAL, turns);
  }

  lemma {:induction false} UndamagedRestartsSafe(cfg: Config, st: ScanState, turns: seq<Turn>)
    requires Inv(cfg, st) && WellFormed(cfg, st) && !cfg.strict && Undamaged(cfg)
    ensures RestartsSafe(cfg, st, turns)
    decreases |turns|
  {
    if |turns| > 0 {
      PullConserves(cfg, st, turns[0].target);
      var (pulled, next) := Pull(cfg, st, turns[0].target);
      if pulled.Batch? {
        UndamagedIsSafe(cfg, st, turns[0].target);
        UndamagedRestartsSafe(cfg, next, turns[1..]);
      }
    }
  }

  /** In lenient mode restarts are invisible on undamaged input, a torn last source included. */
  lemma LenientResumeTransparent(cfg: Config, turns: seq<Turn>)
    requires !cfg.strict && Undamaged(cfg) && Fits64(cfg)
    ensures RunRestarting(cfg, INITIAL, turns) == Run(cfg, INITIAL, Targets(turns))
  {
    UndamagedRestartsSafe(cfg, INITIAL, turns);
    RestartsInvisible(cfg, INITIAL, INITIAL, turns);
  }

  // ----- The exact condition, at any checkpoint of a lenient scan -----

  lemma TwinsRun(cfg: Config, r: ScanState, st: ScanState, targets: seq<Target>)
    requires WellFormed(cfg, r) && WellFormed(cfg, st) && Twins(cfg, r, st)
    ensures Run(cfg, r, targets) == Run(cfg, st, targets)
  {
    if |targets| > 0 {
      assert SamePull(Pull(cfg, r, targets[0]), Pull(cfg, st, targets[0]));
    }
  }

  /** No sequence of pulls can tell a new producer resumed from `st`'s checkpoint bytes from `st`. */
  ghost predicate ResumeInvisible(cfg: Config, st: ScanState)
    requires WellFormed(cfg, st)
  {
    forall targets: seq<Target> :: Run(cfg, Resumed(cfg, st), targets) == Run(cfg, st, targets)
  }

  /** What a resumed lenient scan delivers, against what the uninterrupted one goes on to deliver: with
      the reader open, the rows between the cut and the checkpoint come again; with it closed, those
      before the cut are lost; nothing else differs. */
  lemma ResumedDelivers(cfg: Config, st: ScanState, targets: seq<Target>)
    requires Inv(cfg, st) && st.skipTo.None? && !cfg.strict && WellFormed(cfg, st)
    requires |cfg.sources| < Pow256(8) && st.offset < Pow256(8)
    requires st.idx < |cfg.sources| && |targets| > |LaterRows(cfg, st.idx)|
    ensures var name, fs := cfg.sources[st.idx].name, FramesOf(cfg, st.idx);
            var ours, theirs := Delivered(Run(cfg, st, targets)), Delivered(Run(cfg, Resumed(cfg, st), targets));
            if st.at.Some? then theirs == RowsBetween(name, fs, Cut(cfg, st), Index(cfg, st)) + ours
            else ours == RowsBetween(name, fs, 0, Cut(cfg, st)) + theirs
  {
    var r := RestoreAt(cfg, INITIAL, st.idx, st.offset);
    ResumeBytesRoundTrip(cfg, INITIAL, st);
    assert Resumed(cfg, st) == r;
    RemainingAtMost(cfg, st);
    RestoredAtMost(cfg, INITIAL, st.idx, st.offset);
    if st.at.Some? {
      OpenResume(cfg, INITIAL, st, Index(cfg, st));
    } else {
      ClosedResume(cfg, INITIAL, st);
    }
    hide FramesFrom, RowsAt, RowsBetween, LaterRows, Run, Inv, CutFrom, RestoreResume, Remaining;
    EnoughPulls(cfg, st, targets);
    EnoughPulls(cfg, r, targets);
  }

  /** Equal runs deliver equal rows, so an unsafe checkpoint shows in some run. */
  lemma EqualRunsAreSafe(cfg: Config, st: ScanState)
    requires Inv(cfg, st) && st.skipTo.None? && !cfg.strict && WellFormed(cfg, st)
    requires |cfg.sources| < Pow256(8) && st.offset < Pow256(8)
    requires ResumeInvisible(cfg, st)
    ensures Safe(cfg, st)
  {
    if st.idx < |cfg.sources| {
      var one: Target := 1;
      var targets := seq(|LaterRows(cfg, st.idx)| + 1, _ => one);
      assert Run(cfg, Resumed(cfg, st), targets) == Run(cfg, st, targets);
      ResumedDelivers(cfg, st, targets);
    }
  }

  /** The exact condition: at a checkpoint of a lenient scan, resuming is invisible to every later
      sequence of pulls if and only if the checkpoint is safe. */
  lemma LenientResumeExact(cfg: Config, st: ScanState)
    requires Inv(cfg, st) && st.skipTo.None? && !cfg.strict && WellFormed(cfg, st)
    requires |cfg.sources| < Pow256(8) && st.offset < Pow256(8)
    ensures ResumeInvisible(cfg, st) <==> Safe(cfg, st)
  {
    if Safe(cfg, st) {
      ResumedIsTwin(cfg, st);
      forall targets: seq<Target>
        ensures Run(cfg, Resumed(cfg, st), targets) == Run(cfg, st, targets)
      {
        TwinsRun(cfg, Resumed(cfg, st), st, targets);
      }
    }
    if ResumeInvisible(cfg, st) {
      EqualRunsAreSafe(cfg, st);
    }
  }
}

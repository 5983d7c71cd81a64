/** Strict against non-strict: the same scan, stopped by its first error row. */
module Strict {
  import opened Wrappers
  import opened Mrt
  import opened Framing
  import opened Scan
  import opened ScanProofs
  import opened Runs

  ghost predicate NoErrors(rows: seq<MrtRow>) {
    forall j :: 0 <= j < |rows| ==> rows[j].error.None?
  }

  /** The error text of the first error row. */
  function FirstError(rows: seq<MrtRow>): Option<string> {
    if |rows| == 0 then None
    else if rows[0].error.Some? then rows[0].error
    else FirstError(rows[1..])
  }

  function Lenient(cfg: Config): Config {
    cfg.(strict := false)
  }

  lemma {:induction false} FirstErrorOfConcat(a: seq<MrtRow>, b: seq<MrtRow>)
    ensures FirstError(a + b) == if FirstError(a).Some? then FirstError(a) else FirstError(b)
    ensures FirstError(a).None? <==> NoErrors(a)
  {
    if |a| == 0 {
      assert a + b == b;
    } else {
      assert (a + b)[1..] == a[1..] + b;
      FirstErrorOfConcat(a[1..], b);
      assert a == [a[0]] + a[1..];
    }
  }

  lemma {:induction false} LoopExtends(cfg: Config, st: ScanState, pending: seq<MrtRow>, target: nat)
    requires WellFormed(cfg, st) && !cfg.strict
    ensures var pulled := Loop(cfg, st, pending, target).0;
            !pulled.Failed? && |pending| <= |RowsIn(pulled)| && RowsIn(pulled)[..|pending|] == pending
    decreases Fuel(cfg, st)
  {
    match Iterate(cfg, st)
    case Stopped(_) =>
    case Emitted(rows, next) =>
      if |pending + rows| < target {
        LoopExtends(cfg, next, pending + rows, target);
        assert RowsIn(Loop(cfg, next, pending + rows, target).0)[..|pending|] == (pending + rows)[..|pending|];
      }
  }

  /** Outside a fast-forward, a strict step fails exactly where a lenient one emits an error row. */
  lemma StrictIterate(cfg: Config, st: ScanState)
    requires WellFormed(cfg, st) && cfg.strict
    ensures WellFormed(Lenient(cfg), st)
    ensures var s, l := Iterate(cfg, st), Iterate(Lenient(cfg), st);
            (s.Raised? || (s == l && (l.Emitted? ==> NoErrors(l.rows)))) &&
            (s.Raised? ==> l.Emitted?) &&
            (s.Raised? && st.skipTo.None? ==> FirstError(l.rows) == Some(s.msg)) &&
            (!s.Raised? && st.skipTo.None? ==> s.next.skipTo.None?)
  {
  }

  /** A pull, strict, outside a fast-forward: it fails iff the lenient pull of the same state holds an
      error row, with the text of the first one; otherwise both return and leave the same. */
  lemma {:induction false} StrictLoop(cfg: Config, st: ScanState, pending: seq<MrtRow>, target: nat)
    requires WellFormed(cfg, st) && cfg.strict && NoErrors(pending)
    ensures WellFormed(Lenient(cfg), st)
    ensures var s, l := Loop(cfg, st, pending, target), Loop(Lenient(cfg), st, pending, target);
            (s.0.Failed? || (s == l && NoErrors(RowsIn(l.0)))) &&
            (s.0.Failed? && st.skipTo.None? ==> FirstError(RowsIn(l.0)) == Some(s.0.msg))
    decreases Fuel(cfg, st)
  {
    hide ReadOne, Iterate;
    StrictIterate(cfg, st);
    var s, l := Iterate(cfg, st), Iterate(Lenient(cfg), st);
    if s.Raised? {
      LoopExtends(Lenient(cfg), l.next, pending + l.rows, target);
      var all := RowsIn(Loop(Lenient(cfg), st, pending, target).0);
      assert all[..|pending + l.rows|] == pending + l.rows;
      assert all == (pending + l.rows) + all[|pending + l.rows|..];
      FirstErrorOfConcat(pending + l.rows, all[|pending + l.rows|..]);
      FirstErrorOfConcat(pending, l.rows);
    } else if s.Emitted? && |pending + s.rows| < target {
      StrictLoop(cfg, s.next, pending + s.rows, target);
    }
  }

  /** Outside a fast-forward, a strict pull against the lenient pull of the same state. */
  lemma StrictPull(cfg: Config, st: ScanState, target: Target)
    requires WellFormed(cfg, st) && cfg.strict && st.skipTo.None?
    ensures WellFormed(Lenient(cfg), st)
    ensures var s, l := Pull(cfg, st, target), Pull(Lenient(cfg), st, target);
            match FirstError(RowsIn(l.0))
            case Some(text) => s.0 == Failed(text)
            case None => s == l
  {
    if !st.done {
      StrictLoop(cfg, st, [], target);
      FirstErrorOfConcat(RowsIn(Loop(Lenient(cfg), st, [], target).0), []);
    }
  }

  lemma LenientInv(cfg: Config, st: ScanState)
    requires Inv(cfg, st)
    ensures Inv(Lenient(cfg), st)
  {
    if st.at.Some? {
      var k :| IsAt(cfg, st, k);
      assert IsAt(Lenient(cfg), st, k);
    }
  }

  lemma {:induction false} LenientRows(cfg: Config, i: nat)
    ensures LaterRows(Lenient(cfg), i) == LaterRows(cfg, i)
    decreases |cfg.sources| - i
  {
    if i < |cfg.sources| {
      assert FramesOf(Lenient(cfg), i) == FramesOf(cfg, i);
      LenientRows(cfg, i + 1);
    }
  }

  /** Every checkpoint-to-checkpoint pull keeps the invariant, strict or not. */
  lemma PullKeepsInv(cfg: Config, st: ScanState, target: Target)
    requires Inv(cfg, st)
    ensures WellFormed(cfg, st)
    ensures var (pulled, next) := Pull(cfg, st, target);
            pulled.Failed? || Inv(cfg, next)
    ensures var (pulled, next) := Pull(cfg, st, target);
            pulled.Batch? ==> next.skipTo.None?
  {
    InvWellFormed(cfg, st);
    if !cfg.strict {
      PullConserves(cfg, st, target);
    } else if !st.done {
      LenientInv(cfg, st);
      PullConserves(Lenient(cfg), st, target);
      StrictLoop(cfg, st, [], target);
      var (pulled, next) := Pull(cfg, st, target);
      if !pulled.Failed? && next.at.Some? {
        var k :| IsAt(Lenient(cfg), next, k);
        assert IsAt(cfg, next, k);
      }
    }
  }

  /** Strict or not, a batch overshoots its target by less than the largest record. */
  lemma PullBound(cfg: Config, st: ScanState, target: Target, most: nat)
    requires Inv(cfg, st) && FrameRowsAtMost(cfg, most)
    ensures WellFormed(cfg, st)
    ensures |RowsIn(Pull(cfg, st, target).0)| <= target - 1 + most
  {
    InvWellFormed(cfg, st);
    LenientInv(cfg, st);
    LenientPullBound(Lenient(cfg), st, target, most) by {
      assert forall i :: 0 <= i < |cfg.sources| ==> FramesOf(Lenient(cfg), i) == FramesOf(cfg, i);
    }
    if cfg.strict && !st.done {
      StrictLoop(cfg, st, [], target);
    }
  }

  /** `run` delivers an error-free start of `all`, fails only at its end and only with the text of the
      first error in `all`, and does fail if it had pulls enough and `all` holds an error row. */
  ghost predicate StopsAtFirstError(run: seq<Pulled>, all: seq<MrtRow>, pulls: nat) {
    NoErrors(Delivered(run)) && Delivered(run) <= all &&
    (pulls > |all| && FirstError(all).Some? ==> EndsWith(run, Failed(FirstError(all).value))) &&
    (forall j :: 0 <= j < |run| && run[j].Failed? ==> j == |run| - 1 && FirstError(all) == Some(run[j].msg))
  }

  lemma StopsAtFirstErrorCons(pulled: Pulled, tail: seq<Pulled>, rest: seq<MrtRow>, pulls: nat)
    requires pulled.Batch? && pulled.rows != [] && FirstError(pulled.rows).None?
    requires StopsAtFirstError(tail, rest, pulls)
    ensures StopsAtFirstError([pulled] + tail, pulled.rows + rest, pulls + 1)
  {
    var run := [pulled] + tail;
    assert run[1..] == tail;
    FirstErrorOfConcat(pulled.rows, rest);
    FirstErrorOfConcat(pulled.rows, Delivered(tail));
  }

  /** A strict run that starts outside a fast-forward. */
  lemma {:induction false} StrictRun(cfg: Config, st: ScanState, targets: seq<Target>)
    requires WellFormed(cfg, st) && cfg.strict && st.skipTo.None?
    requires Inv(Lenient(cfg), st)
    ensures StopsAtFirstError(Run(cfg, st, targets), Remaining(Lenient(cfg), st), |targets|)
    decreases |targets|
  {
    if |targets| > 0 {
      PullConserves(Lenient(cfg), st, targets[0]);
      StrictPull(cfg, st, targets[0]);
      var (pulled, next) := Pull(Lenient(cfg), st, targets[0]);
      var rest := Remaining(Lenient(cfg), next);
      FirstErrorOfConcat(RowsIn(pulled), rest);
      if FirstError(RowsIn(pulled)).None? && pulled.Batch? {
        StrictRun(cfg, next, targets[1..]);
        StopsAtFirstErrorCons(pulled, Run(cfg, next, targets[1..]), rest, |targets| - 1);
      } else {
        assert |Run(cfg, st, targets)| == 1;
      }
    }
  }

  /** On error-free rows to come, a strict run is the lenient run. */
  lemma {:induction false} StrictRunClean(cfg: Config, st: ScanState, targets: seq<Target>)
    requires WellFormed(cfg, st) && cfg.strict && st.skipTo.None?
    requires Inv(Lenient(cfg), st) && FirstError(Remaining(Lenient(cfg), st)).None?
    ensures Run(cfg, st, targets) == Run(Lenient(cfg), st, targets)
    decreases |targets|
  {
    if |targets| > 0 {
      PullConserves(Lenient(cfg), st, targets[0]);
      StrictPull(cfg, st, targets[0]);
      var (pulled, next) := Pull(Lenient(cfg), st, targets[0]);
      FirstErrorOfConcat(RowsIn(pulled), Remaining(Lenient(cfg), next));
      if pulled.Batch? {
        StrictRunClean(cfg, next, targets[1..]);
      }
    }
  }

  /** The full strict scan against the reference scan: the rows sent are an error-free start of it; it
      ends in an error iff the reference holds an error row, naming the first; without one it is the
      lenient scan, batch by batch. */
  lemma StrictScan(cfg: Config, targets: seq<Target>)
    requires cfg.strict && |targets| > |LaterRows(cfg, 0)|
    ensures var run := Run(cfg, INITIAL, targets);
            var all := LaterRows(cfg, 0);
            NoErrors(Delivered(run)) && Delivered(run) <= all &&
            (EndsWith(run, Exhausted) <==> NoErrors(all)) &&
            (NoErrors(all) ==> Delivered(run) == all && run == Run(Lenient(cfg), INITIAL, targets)) &&
            (!NoErrors(all) ==> FirstError(all).Some? && EndsWith(run, Failed(FirstError(all).value)))
  {
    LenientRows(cfg, 0);
    RemainingInitially(Lenient(cfg));
    StrictRun(cfg, INITIAL, targets);
    FirstErrorOfConcat(LaterRows(cfg, 0), []);
    if NoErrors(LaterRows(cfg, 0)) {
      StrictRunClean(cfg, INITIAL, targets);
      BatchIndependence(Lenient(cfg), targets);
    }
  }

  // ----- Every strict state, fast-forwarding or not -----

  /** The text of the first frame that is not good, in sources `i` and later. */
  function LaterText(cfg: Config, i: nat): Option<string>
    decreases |cfg.sources| - i
  {
    if i >= |cfg.sources| then None
    else
      var fs := FramesOf(cfg, i);
      var f := FirstFailure(fs, 0);
      if f < |fs| then Some(ErrorText(cfg.sources[i].name, fs[f].outcome.error)) else LaterText(cfg, i + 1)
  }

  /** The rows before that frame. */
  function LaterGoodRows(cfg: Config, i: nat): seq<MrtRow>
    decreases |cfg.sources| - i
  {
    if i >= |cfg.sources| then []
    else
      var fs := FramesOf(cfg, i);
      var f := FirstFailure(fs, 0);
      RowsBetween(cfg.sources[i].name, fs, 0, f) + if f < |fs| then [] else LaterGoodRows(cfg, i + 1)
  }

  /** The error a strict scan meets after `k` frames of source `i`, if it meets one. */
  function TextFrom(cfg: Config, i: nat, k: nat): Option<string>
    requires i < |cfg.sources| && k <= |FramesOf(cfg, i)|
  {
    var fs := FramesOf(cfg, i);
    var f := FirstFailure(fs, k);
    if f < |fs| then Some(ErrorText(cfg.sources[i].name, fs[f].outcome.error)) else LaterText(cfg, i + 1)
  }

  /** The rows it has to deliver before that: those of the frames from `c` on before the first that is
      not good, counted from `k`, and of later sources if this one has no such frame. */
  function GoodRowsFrom(cfg: Config, i: nat, k: nat, c: nat): seq<MrtRow>
    requires i < |cfg.sources| && k <= |FramesOf(cfg, i)|
  {
    var fs := FramesOf(cfg, i);
    var f := FirstFailure(fs, k);
    RowsBetween(cfg.sources[i].name, fs, c, f) + if f < |fs| then [] else LaterGoodRows(cfg, i + 1)
  }

  ghost function StrictText(cfg: Config, st: ScanState): Option<string>
    requires Inv(cfg, st)
  {
    if st.idx >= |cfg.sources| then None else TextFrom(cfg, st.idx, Index(cfg, st))
  }

  ghost function StrictToCome(cfg: Config, st: ScanState): seq<MrtRow>
    requires Inv(cfg, st)
  {
    if st.idx >= |cfg.sources| then []
    else
      var k := Index(cfg, st);
      GoodRowsFrom(cfg, st.idx, k, CutFrom(FramesOf(cfg, st.idx), k, st.skipTo))
  }

  lemma GoodStep(cfg: Config, i: nat, k: nat, skipTo: Option<nat>)
    requires i < |cfg.sources| && k < |FramesOf(cfg, i)| && IsGood(FramesOf(cfg, i)[k])
    ensures var fs := FramesOf(cfg, i);
            var rows := if Skipped(skipTo, fs[k].end) then [] else RowsAt(cfg.sources[i].name, fs, k);
            var skip := if Skipped(skipTo, fs[k].end) then skipTo else None;
            GoodRowsFrom(cfg, i, k, CutFrom(fs, k, skipTo))
            == rows + GoodRowsFrom(cfg, i, k + 1, CutFrom(fs, k + 1, skip)) &&
            TextFrom(cfg, i, k) == TextFrom(cfg, i, k + 1)
  {
    hide FramesFrom, RowsAt, LaterText, LaterGoodRows;
    var fs := FramesOf(cfg, i);
    var name := cfg.sources[i].name;
    var f := FirstFailure(fs, k);
    if !Skipped(skipTo, fs[k].end) {
      Regroup(RowsAt(name, fs, k), RowsBetween(name, fs, k + 1, f),
              if f < |fs| then [] else LaterGoodRows(cfg, i + 1));
    }
  }

  /** What one strict step does to the rows and the error to come. */
  ghost predicate StrictStep(cfg: Config, st: ScanState, it: Iteration)
    requires Inv(cfg, st)
  {
    match it
    case Stopped(next) => next.done && StrictToCome(cfg, st) == [] && StrictText(cfg, st) == None
    case Raised(msg, _) => StrictToCome(cfg, st) == [] && StrictText(cfg, st) == Some(msg)
    case Emitted(rows, next) =>
      Inv(cfg, next) && !next.done && StrictToCome(cfg, st) == rows + StrictToCome(cfg, next) &&
      StrictText(cfg, st) == StrictText(cfg, next)
  }

  lemma StrictLeave(cfg: Config, st: ScanState, k: nat)
    requires Inv(cfg, st) && WellFormed(cfg, st) && IsAt(cfg, st, k) && k == |FramesOf(cfg, st.idx)|
    ensures Inv(cfg, Advance(st))
    ensures StrictToCome(cfg, st) == StrictToCome(cfg, Advance(st))
    ensures StrictText(cfg, st) == StrictText(cfg, Advance(st))
  {
    hide FramesFrom, RowsAt, DecoderAt;
    RemainingAt(cfg, st, k);
    var fs := FramesOf(cfg, st.idx);
    var next := Advance(st);
    assert CutFrom(fs, k, st.skipTo) == k && RowsBetween(cfg.sources[st.idx].name, fs, k, k) == [];
    if next.idx < |cfg.sources| {
      assert Index(cfg, next) == 0 && CutFrom(FramesOf(cfg, next.idx), 0, None) == 0;
    }
  }

  lemma StrictReadStep(cfg: Config, st: ScanState, k: nat)
    requires Inv(cfg, st) && WellFormed(cfg, st) && IsAt(cfg, st, k) && cfg.strict
    ensures StrictStep(cfg, st, ReadOne(cfg, st))
  {
    hide FramesFrom, RowsAt, DecoderAt, LaterText, LaterGoodRows, ReadOne;
    ReadAt(cfg, st, k);
    RemainingAt(cfg, st, k);
    var fs := FramesOf(cfg, st.idx);
    if k == |fs| {
      StrictLeave(cfg, st, k);
    } else if IsGood(fs[k]) {
      var next := AfterFrame(cfg, st, k);
      assert IsAt(cfg, next, k + 1);
      RemainingAt(cfg, next, k + 1);
      GoodStep(cfg, st.idx, k, st.skipTo);
    }
  }

  lemma StrictIterateStep(cfg: Config, st: ScanState)
    requires Inv(cfg, st) && WellFormed(cfg, st) && cfg.strict && !st.done
    ensures StrictStep(cfg, st, Iterate(cfg, st))
  {
    hide FramesFrom, RowsAt, DecoderAt, RowsBetween, CutFrom, LaterText, LaterGoodRows, ReadOne;
    if st.at.Some? {
      StrictReadStep(cfg, st, Index(cfg, st));
    } else if st.idx < |cfg.sources| {
      OpenIsAt(cfg, st);
      var open := OpenCurrent(cfg, st);
      RemainingAt(cfg, open, 0);
      StrictReadStep(cfg, open, 0);
    }
  }

  lemma {:induction false} StrictLoopExact(cfg: Config, st: ScanState, pending: seq<MrtRow>, target: nat)
    requires Inv(cfg, st) && WellFormed(cfg, st) && cfg.strict && !st.done && |pending| < target
    ensures var (pulled, next) := Loop(cfg, st, pending, target);
            var all := pending + StrictToCome(cfg, st);
            if StrictText(cfg, st).Some? && |all| < target then pulled == Failed(StrictText(cfg, st).value)
            else
              !pulled.Failed? && Inv(cfg, next) && all == RowsIn(pulled) + StrictToCome(cfg, next) &&
              StrictText(cfg, next) == StrictText(cfg, st) &&
              (pulled.Exhausted? ==> next.done)
    decreases Fuel(cfg, st)
  {
    hide StrictText, StrictToCome, Inv;
    StrictIterateStep(cfg, st);
    match Iterate(cfg, st)
    case Stopped(next) =>
      DoneHasNothing(cfg, next, st);
    case Raised(_, _) =>
    case Emitted(rows, next) =>
      Regroup(pending, rows, StrictToCome(cfg, next));
      if |pending + rows| < target {
        StrictLoopExact(cfg, next, pending + rows, target);
      }
  }

  lemma DoneHasNothing(cfg: Config, next: ScanState, st: ScanState)
    requires Inv(cfg, st) && WellFormed(cfg, st) && Iterate(cfg, st) == Stopped(next)
    ensures Inv(cfg, next) && StrictToCome(cfg, next) == [] && StrictText(cfg, next) == None
  {
  }

  /** One strict pull, from any state of the scan, fast-forwarding or not: it fails iff fewer rows than
      its target are to come before the first frame that is not good -- be that frame already past
      the checkpoint or still before it -- with that frame's text; otherwise it takes the next of those rows. */
  lemma StrictPullExact(cfg: Config, st: ScanState, target: Target)
    requires Inv(cfg, st) && cfg.strict
    ensures WellFormed(cfg, st)
    ensures var (pulled, next) := Pull(cfg, st, target);
            if StrictText(cfg, st).Some? && |StrictToCome(cfg, st)| < target then
              pulled == Failed(StrictText(cfg, st).value)
            else
              !pulled.Failed? && Inv(cfg, next) && StrictToCome(cfg, st) == RowsIn(pulled) + StrictToCome(cfg, next) &&
              StrictText(cfg, next) == StrictText(cfg, st) &&
              (pulled.Batch? ==> pulled.rows != []) && (pulled.Exhausted? ==> next.done)
  {
    InvWellFormed(cfg, st);
    if !st.done {
      StrictLoopExact(cfg, st, [], target);
      assert [] + StrictToCome(cfg, st) == StrictToCome(cfg, st);
      BatchesNotEmpty(cfg, st, [], target);
    }
  }

  lemma {:induction false} BatchesNotEmpty(cfg: Config, st: ScanState, pending: seq<MrtRow>, target: nat)
    requires WellFormed(cfg, st) && target > 0
    ensures Loop(cfg, st, pending, target).0.Batch? ==> Loop(cfg, st, pending, target).0.rows != []
    decreases Fuel(cfg, st)
  {
    hide Iterate;
    match Iterate(cfg, st)
    case Stopped(_) =>
    case Raised(_, _) =>
    case Emitted(rows, next) =>
      if |pending + rows| < target {
        BatchesNotEmpty(cfg, next, pending + rows, target);
      }
  }

  /** `run` delivers a start of `rows`; it fails at its end or not at all, and only with `text`; given
      pulls enough it ends, in that failure if there is a text, else with all of `rows` delivered. */
  ghost predicate EndsStrictly(run: seq<Pulled>, rows: seq<MrtRow>, text: Option<string>, pulls: nat) {
    Delivered(run) <= rows &&
    (forall j :: 0 <= j < |run| && run[j].Failed? ==> j == |run| - 1 && text == Some(run[j].msg)) &&
    (pulls > |rows| ==>
      if text.Some? then EndsWith(run, Failed(text.value)) else EndsWith(run, Exhausted) && Delivered(run) == rows)
  }

  lemma EndsStrictlyCons(pulled: Pulled, tail: seq<Pulled>, rest: seq<MrtRow>, text: Option<string>, pulls: nat)
    requires pulled.Batch? && pulled.rows != [] && EndsStrictly(tail, rest, text, pulls)
    ensures EndsStrictly([pulled] + tail, pulled.rows + rest, text, pulls + 1)
  {
    assert ([pulled] + tail)[1..] == tail;
  }

  /** A strict run from any state of the scan. */
  lemma {:induction false} StrictRunExact(cfg: Config, st: ScanState, targets: seq<Target>)
    requires Inv(cfg, st) && WellFormed(cfg, st) && cfg.strict
    ensures EndsStrictly(Run(cfg, st, targets), StrictToCome(cfg, st), StrictText(cfg, st), |targets|)
    decreases |targets|
  {
    hide StrictToCome, StrictText, Inv;
    if |targets| > 0 {
      StrictPullExact(cfg, st, targets[0]);
      var (pulled, next) := Pull(cfg, st, targets[0]);
      if pulled.Batch? {
        StrictRunExact(cfg, next, targets[1..]);
        var tail := Run(cfg, next, targets[1..]);
        EndsStrictlyCons(pulled, tail, StrictToCome(cfg, next), StrictText(cfg, next), |targets| - 1);
      } else {
        var run := Run(cfg, st, targets);
        assert run == [pulled] && run[1..] == [] && Delivered(run) == [];
        if pulled.Exhausted? {
          ExhaustedStrictly(cfg, next);
        }
      }
    }
  }

  lemma ExhaustedStrictly(cfg: Config, st: ScanState)
    requires Inv(cfg, st) && st.done
    ensures StrictToCome(cfg, st) == [] && StrictText(cfg, st) == None
  {
  }
}

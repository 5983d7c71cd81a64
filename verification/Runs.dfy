/** Whole runs: a sequence of pulls, with a batch target of its own for each. */
module Runs {
  import opened Mrt
  import opened Scan
  import opened ScanProofs

  /** A batch target: the program only honours a positive override of its default, 2048. */
  type Target = t: nat | t > 0 witness 2048

  /** Pull once for every target, until a pull returns no batch. */
  function Run(cfg: Config, st: ScanState, targets: seq<Target>): seq<Pulled>
    requires WellFormed(cfg, st)
    decreases |targets|
  {
    if |targets| == 0 then []
    else
      var (pulled, next) := Pull(cfg, st, targets[0]);
      [pulled] + if pulled.Batch? then Run(cfg, next, targets[1..]) else []
  }

  function RunEnd(cfg: Config, st: ScanState, targets: seq<Target>): (end: ScanState)
    requires WellFormed(cfg, st)
    ensures WellFormed(cfg, end)
    decreases |targets|
  {
    if |targets| == 0 then st
    else
      var (pulled, next) := Pull(cfg, st, targets[0]);
      if pulled.Batch? then RunEnd(cfg, next, targets[1..]) else next
  }

  function Delivered(run: seq<Pulled>): seq<MrtRow> {
    if |run| == 0 then [] else RowsIn(run[0]) + Delivered(run[1..])
  }

  ghost predicate EndsWith(run: seq<Pulled>, last: Pulled) {
    run != [] && run[|run| - 1] == last
  }

  /** The batches of a non-strict run, whatever its targets, are the rows to come cut into pieces. */
  lemma {:induction false} RunConserves(cfg: Config, st: ScanState, targets: seq<Target>)
    requires Inv(cfg, st) && WellFormed(cfg, st) && !cfg.strict
    ensures Inv(cfg, RunEnd(cfg, st, targets))
    ensures Delivered(Run(cfg, st, targets)) + Remaining(cfg, RunEnd(cfg, st, targets)) == Remaining(cfg, st)
    ensures |targets| > |Remaining(cfg, st)| ==> EndsWith(Run(cfg, st, targets), Exhausted)
    decreases |targets|
  {
    hide Pull, Remaining, Inv;
    if |targets| > 0 {
      PullConserves(cfg, st, targets[0]);
      var (pulled, next) := Pull(cfg, st, targets[0]);
      if pulled.Batch? {
        RunConserves(cfg, next, targets[1..]);
        var rest := Run(cfg, next, targets[1..]);
        Regroup(pulled.rows, Delivered(rest), Remaining(cfg, RunEnd(cfg, next, targets[1..])));
        assert Run(cfg, st, targets)[1..] == rest;
      } else {
        assert Run(cfg, st, targets) == [pulled];
        assert Delivered([pulled]) == [];
      }
    }
  }

  /** With more pulls than rows to come, a run delivers them all and then reports the end. */
  lemma EnoughPulls(cfg: Config, st: ScanState, targets: seq<Target>)
    requires Inv(cfg, st) && WellFormed(cfg, st) && !cfg.strict && |targets| > |Remaining(cfg, st)|
    ensures Delivered(Run(cfg, st, targets)) == Remaining(cfg, st)
    ensures EndsWith(Run(cfg, st, targets), Exhausted)
  {
    hide Remaining, Inv, Run, RunEnd;
    RunConserves(cfg, st, targets);
    ExhaustedRunEnd(cfg, st, targets);
    assert Delivered(Run(cfg, st, targets)) + [] == Delivered(Run(cfg, st, targets));
  }

  /** Batch independence: with enough pulls, every sequence of batch targets delivers exactly the
      reference scan, and then reports the end. */
  lemma BatchIndependence(cfg: Config, targets: seq<Target>)
    requires !cfg.strict && |targets| > |LaterRows(cfg, 0)|
    ensures Delivered(Run(cfg, INITIAL, targets)) == LaterRows(cfg, 0)
    ensures EndsWith(Run(cfg, INITIAL, targets), Exhausted)
  {
    RemainingInitially(cfg);
    EnoughPulls(cfg, INITIAL, targets);
  }

  lemma {:induction false} ExhaustedRunEnd(cfg: Config, st: ScanState, targets: seq<Target>)
    requires Inv(cfg, st) && WellFormed(cfg, st) && !cfg.strict
    requires EndsWith(Run(cfg, st, targets), Exhausted)
    ensures Inv(cfg, RunEnd(cfg, st, targets)) && Remaining(cfg, RunEnd(cfg, st, targets)) == []
    decreases |targets|
  {
    hide Pull, Remaining, Inv;
    PullConserves(cfg, st, targets[0]);
    var (pulled, next) := Pull(cfg, st, targets[0]);
    if pulled.Batch? {
      assert Run(cfg, st, targets)[1..] == Run(cfg, next, targets[1..]);
      assert Run(cfg, next, targets[1..]) != [] by {
        assert Run(cfg, st, targets) == [pulled] + Run(cfg, next, targets[1..]);
      }
      ExhaustedRunEnd(cfg, next, targets[1..]);
    }
  }
}

/** Driving producers to the end: in one process, and across a hand-over through checkpoint bytes. */
module Drain {
  import opened Mrt
  import opened Scan
  import opened ScanProofs
  import opened Runs
  import opened Resume
  import opened Restart
  import opened Reader

  /** Pull until there is no batch: a lenient producer yields exactly its rows to come. */
  method DrainProducer(p: MrtProducer, target: Target) returns (rows: seq<MrtRow>)
    requires p.Valid() && Inv(p.cfg, p.State()) && !p.cfg.strict
    modifies p.Repr()
    ensures p.Valid() && fresh(p.Repr() - old(p.Repr()))
    ensures rows == Remaining(p.cfg, old(p.State()))
  {
    hide Remaining, Pull, Inv;
    rows := [];
    while true
      invariant p.Valid() && fresh(p.Repr() - old(p.Repr())) && Inv(p.cfg, p.State())
      invariant rows + Remaining(p.cfg, p.State()) == Remaining(p.cfg, old(p.State()))
      decreases |Remaining(p.cfg, p.State())|
    {
      ghost var st := p.State();
      PullConserves(p.cfg, st, target);
      var pulled := p.PullBatch(target);
      assert (pulled, p.State()) == Pull(p.cfg, st, target);
      if !pulled.Batch? {
        return;
      }
      Regroup(rows, pulled.rows, Remaining(p.cfg, p.State()));
      rows := rows + pulled.rows;
    }
  }

  /** A fresh lenient producer, drained, yields the reference scan, whatever the batch target and
      however the streams hand out their bytes. */
  method FullScan(cfg: Config, chunk: (nat, nat) -> nat, target: Target) returns (rows: seq<MrtRow>)
    requires !cfg.strict
    ensures rows == LaterRows(cfg, 0)
  {
    var p := new MrtProducer(cfg, chunk);
    RemainingInitially(cfg);
    rows := DrainProducer(p, target);
  }

  /** One batch from one producer, the rest from another resumed from its checkpoint bytes: together
      the reference scan, on undamaged input. */
  method ScanAcrossHandOver(cfg: Config, chunk: (nat, nat) -> nat, first: Target, rest: Target)
    returns (rows: seq<MrtRow>)
    requires !cfg.strict && Undamaged(cfg) && Fits64(cfg)
    ensures rows == LaterRows(cfg, 0)
  {
    var p := new MrtProducer(cfg, chunk);
    RemainingInitially(cfg);
    PullConserves(cfg, INITIAL, first);
    ghost var st := Pull(cfg, INITIAL, first).1;
    var pulled := p.PullBatch(first);
    var bytes := p.EncodeResume();
    var q := new MrtProducer(cfg, chunk);
    q.RestoreResume(bytes);
    LoopFits(cfg, INITIAL, [], first);
    ResumeBytesRoundTrip(cfg, INITIAL, st);
    HandOver(cfg, st, first);
    var more := DrainProducer(q, rest);
    rows := (if pulled.Batch? then pulled.rows else []) + more;
  }

  lemma HandOver(cfg: Config, st: ScanState, target: Target)
    requires !cfg.strict && Undamaged(cfg) && st == Pull(cfg, INITIAL, target).1
    ensures Inv(cfg, st) && Inv(cfg, RestoreAt(cfg, INITIAL, st.idx, st.offset))
    ensures Remaining(cfg, RestoreAt(cfg, INITIAL, st.idx, st.offset)) == Remaining(cfg, st)
  {
    RemainingInitially(cfg);
    PullConserves(cfg, INITIAL, target);
    RestoredScan(cfg, INITIAL, st.idx, st.offset);
    if Pull(cfg, INITIAL, target).0.Batch? && st.idx < |cfg.sources| {
      UndamagedIsSafe(cfg, INITIAL, target);
      if st.at.Some? {
        OpenResume(cfg, INITIAL, st, Index(cfg, st));
      } else {
        ClosedResume(cfg, INITIAL, st);
      }
    }
  }
}

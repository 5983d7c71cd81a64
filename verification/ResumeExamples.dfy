/** Inputs on which a lenient resume is not exactly-once: one repeats a row, one loses a row. */
module ResumeExamples {
  import opened Bytes
  import opened Wrappers
  import opened Mrt
  import opened Framing
  import opened Decode
  import opened Scan
  import opened Runs
  import opened Resume
  import opened Restart

  const PEER := Peer(V4([192, 0, 2, 1]), 65001)
  const RECORD := MrtRecord(Header(0, None, 0), Bgp4MpStateChange(PEER, 1, 2))
  const BAD := ParseError("bad body")

  /** Headers that start with a 1 decode to a state change; all others are bad. */
  const FORMAT := Format(
    (header: seq<byte>, body: seq<byte>) => if |header| > 0 && header[0] == 1 then Ok(RECORD) else Err(BAD),
    false, "short read")

  const ZEROS: seq<byte> := [0, 0, 0, 0, 0, 0, 0, 0, 0, 0, 0]

  /** Headers with an empty body: one bad, one good; and one announcing a byte that never comes. */
  const BAD_FRAME: seq<byte> := [0] + ZEROS
  const GOOD_FRAME: seq<byte> := [1] + ZEROS
  const TORN_FRAME: seq<byte> := ZEROS + [1]

  function Row(): MrtRow {
    RowsOf(FRESH, RECORD)[0]
  }

  lemma EmptyBody(data: seq<byte>, pos: nat)
    requires pos + 12 <= |data| && data[pos + 8..pos + 12] == [0, 0, 0, 0]
    ensures ParseAt(FORMAT, data, pos) == Parsed(if data[pos] == 1 then Ok(RECORD) else Err(BAD), pos + 12)
  {
    var header := data[pos..pos + 12];
    assert header[8..] == [0, 0, 0, 0];
    assert [0, 0, 0, 0][..3] == [0, 0, 0] && [0, 0, 0][..2] == [0, 0] && [0, 0][..1] == [0] && [0][..0] == [];
    assert BigEndian([0]) == 0 && BigEndian([0, 0]) == 0 && BigEndian([0, 0, 0]) == 0;
    assert header[0] == data[pos];
  }

  lemma OneByteMissing()
    ensures ParseAt(FORMAT, TORN_FRAME, 0) == Parsed(Err(IoError("short read")), 12)
  {
    var header := TORN_FRAME[0..12];
    assert header[8..] == [0, 0, 0, 1];
    assert [0, 0, 0, 1][..3] == [0, 0, 0] && [0, 0, 0][..2] == [0, 0] && [0, 0][..1] == [0] && [0][..0] == [];
    assert BigEndian([0]) == 0 && BigEndian([0, 0]) == 0 && BigEndian([0, 0, 0]) == 0;
  }

  const REPEATS := Config([Source("s", BAD_FRAME + GOOD_FRAME)], false, FORMAT)

  /** The producer after `k` of the two frames. */
  function After(k: nat): ScanState {
    ScanState(0, Some(12 * k), FRESH, 12 * k, None, false)
  }

  const REPEAT_ERROR := ErrorRow("s: bad body")

  lemma RepeatSteps()
    ensures Iterate(REPEATS, INITIAL) == Emitted([REPEAT_ERROR], After(1))
    ensures Iterate(REPEATS, RestoreAt(REPEATS, INITIAL, 0, 24)) == Emitted([], After(1))
    ensures Iterate(REPEATS, After(1)) == Emitted([Row()], After(2))
    ensures Iterate(REPEATS, After(2)) == Emitted([], ScanState(1, None, FRESH, 24, None, false))
  {
    EmptyBody(BAD_FRAME + GOOD_FRAME, 0);
    EmptyBody(BAD_FRAME + GOOD_FRAME, 12);
    assert "s" + ": " + "bad body" == "s: bad body";
  }

  /** A bad frame before the checkpoint ends the fast-forward early: the row after it comes again. */
  lemma ResumeCanRepeat()
    ensures var (pulled, st) := Pull(REPEATS, INITIAL, 2);
            pulled == Batch([ErrorRow("s: bad body"), Row()]) &&
            Run(REPEATS, st, [1]) == [Exhausted] &&
            Run(REPEATS, Resumed(REPEATS, st), [1]) == [Batch([Row()])]
  {
    RepeatSteps();
    hide ReadOne, Run;
    assert [] + [REPEAT_ERROR] == [REPEAT_ERROR] && [REPEAT_ERROR] + [Row()] == [REPEAT_ERROR, Row()];
    assert Loop(REPEATS, After(1), [REPEAT_ERROR], 2) == (Batch([REPEAT_ERROR, Row()]), After(2));
    assert Loop(REPEATS, ScanState(1, None, FRESH, 24, None, false), [], 1).0 == Exhausted;
    LittleEndianRoundTripOf(After(2));
    assert [] + [Row()] == [Row()];
    assert Loop(REPEATS, After(1), [], 1) == (Batch([Row()]), After(2));
    RunOnce(REPEATS, After(2), 1);
    RunOnce(REPEATS, RestoreAt(REPEATS, INITIAL, 0, 24), 1);
  }

  /** Fast-forwarding, a strict pull can fail where the lenient pull of the same state emits no error:
      the bad frame ends by the checkpoint, so its error row is dropped, but strictness comes first. */
  lemma StrictFailsInFastForward()
    ensures var strict := REPEATS.(strict := true);
            var st := RestoreAt(REPEATS, INITIAL, 0, 24);
            Pull(strict, st, 1).0 == Failed("s: bad body") && Pull(REPEATS, st, 1).0 == Batch([Row()])
  {
    RepeatSteps();
    hide ReadOne;
    var strict := REPEATS.(strict := true);
    var st := RestoreAt(REPEATS, INITIAL, 0, 24);
    StrictRepeatStep();
    assert [] + [] + [Row()] == [Row()];
    assert Loop(REPEATS, After(1), [], 1) == (Batch([Row()]), After(2));
  }

  lemma StrictRepeatStep()
    ensures var st := RestoreAt(REPEATS, INITIAL, 0, 24);
            var it := Iterate(REPEATS.(strict := true), st); it.Raised? && it.msg == "s: bad body"
  {
    EmptyBody(BAD_FRAME + GOOD_FRAME, 0);
    assert "s" + ": " + "bad body" == "s: bad body";
  }

  const LOSES := Config([Source("s", TORN_FRAME), Source("t", GOOD_FRAME)], false, FORMAT)

  /** The producer after the torn source, and after the frame of the second one. */
  function AfterTorn(): ScanState {
    ScanState(1, None, FRESH, 12, None, false)
  }

  function AfterGood(skipTo: Option<nat>): ScanState {
    ScanState(1, Some(12), FRESH, 12, skipTo, false)
  }

  const TORN_ERROR := ErrorRow("s: short read")

  lemma LoseSteps()
    ensures Iterate(LOSES, INITIAL) == Emitted([TORN_ERROR], AfterTorn())
    ensures Iterate(LOSES, AfterTorn()) == Emitted([Row()], AfterGood(None))
    ensures Iterate(LOSES, RestoreAt(LOSES, INITIAL, 1, 12)) == Emitted([], AfterGood(Some(12)))
    ensures Iterate(LOSES, AfterGood(Some(12))) == Emitted([], ScanState(2, None, FRESH, 12, None, false))
  {
    OneByteMissing();
    EmptyBody(GOOD_FRAME, 0);
    assert "s" + ": " + "short read" == "s: short read";
  }

  /** A batch filled exactly by a torn source's error row keeps that source's offset, which then skips
      the first row of the next source. */
  lemma ResumeCanLose()
    ensures var (pulled, st) := Pull(LOSES, INITIAL, 1);
            pulled == Batch([ErrorRow("s: short read")]) &&
            Run(LOSES, st, [1]) == [Batch([Row()])] &&
            Run(LOSES, Resumed(LOSES, st), [1]) == [Exhausted]
  {
    LoseSteps();
    hide ReadOne, Run;
    assert [] + [TORN_ERROR] == [TORN_ERROR] && [] + [Row()] == [Row()];
    LittleEndianRoundTripOf(AfterTorn());
    assert Loop(LOSES, ScanState(2, None, FRESH, 12, None, false), [], 1).0 == Exhausted;
    assert Loop(LOSES, AfterGood(Some(12)), [], 1).0 == Exhausted;
    RunOnce(LOSES, AfterTorn(), 1);
    RunOnce(LOSES, RestoreAt(LOSES, INITIAL, 1, 12), 1);
  }

  lemma LittleEndianRoundTripOf(st: ScanState)
    requires st.idx < 2 && st.offset < 256
    ensures forall cfg :: Resumed(cfg, st) == RestoreAt(cfg, INITIAL, st.idx, st.offset)
  {
    var one := Pow256(1);
    assert Pow256(8) >= 256;
    forall cfg
      ensures Resumed(cfg, st) == RestoreAt(cfg, INITIAL, st.idx, st.offset)
    {
      ResumeBytesRoundTrip(cfg, INITIAL, st);
    }
  }

  lemma RunOnce(cfg: Config, st: ScanState, target: Target)
    requires WellFormed(cfg, st)
    ensures Run(cfg, st, [target]) == [Pull(cfg, st, target).0]
  {
    var pulled, next := Pull(cfg, st, target).0, Pull(cfg, st, target).1;
    assert [target][1..] == [];
    assert Run(cfg, next, []) == [];
  }
}

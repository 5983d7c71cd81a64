/** The streaming producer: an object whose fields move through the states of `Scan`. */
module Reader {
  import opened Bytes
  import opened Wrappers
  import opened Mrt
  import opened Decode
  import opened Readers
  import opened Scan

  class MrtProducer {
    const cfg: Config
    /** Short-read schedule: the most bytes the `c`-th read of source `i` delivers. */
    const chunk: (nat, nat) -> nat
    var idx: nat
    var reader: CountingReader?
    var decoder: Decoder
    var offset: nat
    var skipTo: Option<nat>
    var done: bool

    ghost function Repr(): set<object>
      reads this
    {
      if reader == null then {this, decoder}
      else
        var open: CountingReader := reader;
        {this, decoder, open, open.inner}
    }

    ghost predicate Valid()
      reads this, Repr()
    {
      WellFormed(cfg, State()) &&
      (reader != null ==>
        reader.Valid() && reader.base == 0 && reader.inner.data == cfg.sources[idx].data)
    }

    ghost function State(): ScanState
      reads this, Repr()
    {
      ScanState(idx, if reader == null then None else Some(reader.count), decoder.State(), offset, skipTo, done)
    }

    constructor (cfg: Config, chunk: (nat, nat) -> nat)
      ensures Valid() && fresh(Repr())
      ensures State() == INITIAL && this.cfg == cfg
    {
      this.cfg := cfg;
      this.chunk := chunk;
      idx := 0;
      reader := null;
      decoder := new Decoder();
      offset := 0;
      skipTo := None;
      done := false;
    }

    method OpenCurrent()
      requires Valid() && reader == null && idx < |cfg.sources|
      modifies this
      ensures Valid() && fresh(Repr() - {this}) && reader != null
      ensures State() == Scan.OpenCurrent(cfg, old(State()))
    {
      var i := idx;
      var stream := new ByteStream(cfg.sources[i].data, c => chunk(i, c));
      reader := new CountingReader(stream);
      decoder := new Decoder();
      offset := 0;
    }

    method Advance()
      requires Valid() && reader != null
      modifies this
      ensures Valid() && Repr() <= old(Repr()) && reader == null
      ensures State() == Scan.Advance(old(State()))
    {
      reader := null;
      idx := idx + 1;
      skipTo := None;
    }

    /** One record of the open source: its rows (none while fast-forwarding), or a hard error. */
    method ReadRecord() returns (read: Result<seq<MrtRow>, string>)
      requires Valid() && reader != null
      modifies Repr()
      ensures Valid() && Repr() <= old(Repr())
      ensures ReadOne(cfg, old(State())) ==
              if read.Ok? then Emitted(read.value, State()) else Raised(read.error, State())
    {
      var next := NextRecord(cfg.fmt, reader);
      match next {
        case Ok(Some(record)) =>
          var rows := decoder.RecordRows(record);
          offset := reader.count;
          if skipTo.Some? {
            if offset <= skipTo.value {
              return Ok([]);
            }
            skipTo := None;
          }
          return Ok(rows);
        case Ok(None) =>
          Advance();
          return Ok([]);
        case Err(err) =>
          read := HandleError(err);
      }
    }

    /** A parse error met by the open reader: a hard error if strict, else at most one error row. */
    method HandleError(err: ParserError) returns (read: Result<seq<MrtRow>, string>)
      requires Valid() && reader != null && !IsCleanEof(err)
      modifies this
      ensures Valid() && Repr() <= old(Repr())
      ensures read.Err? <==> cfg.strict
      ensures read.Err? ==>
                State() == old(State()) && read.error == ErrorText(cfg.sources[old(idx)].name, err)
      ensures read.Ok? ==>
                var counted := old(State()).(offset := old(reader.count));
                read.value == (if Skipped(old(skipTo), old(reader.count)) then []
                               else [ErrorRow(ErrorText(cfg.sources[old(idx)].name, err))]) &&
                State() == if IsRecoverable(err) then counted.(skipTo := None) else Scan.Advance(counted)
    {
      var text := ErrorText(cfg.sources[idx].name, err);
      if cfg.strict {
        return Err(text);
      }
      offset := reader.count;
      var emit := skipTo.None? || offset > skipTo.value;
      if IsRecoverable(err) {
        skipTo := None;
      } else {
        Advance();
      }
      return Ok(if emit then [ErrorRow(text)] else []);
    }

    /** One record of the current source, which is opened first if it is not. */
    method ReadNext() returns (read: Result<seq<MrtRow>, string>)
      requires Valid() && (reader == null ==> idx < |cfg.sources|)
      modifies Repr()
      ensures Valid() && fresh(Repr() - old(Repr()))
      ensures Iterate(cfg, old(State())) ==
              if read.Ok? then Emitted(read.value, State()) else Raised(read.error, State())
    {
      if reader == null {
        OpenCurrent();
      }
      read := ReadRecord();
    }

    /** Decode one batch of at least `target` rows; the loop computes `Pull`. */
    method PullBatch(target: nat) returns (pulled: Pulled)
      requires Valid() && target > 0
      modifies Repr()
      ensures Valid() && fresh(Repr() - old(Repr()))
      ensures (pulled, State()) == Pull(cfg, old(State()), target)
    {
      hide ReadOne;
      if done {
        return Exhausted;
      }
      var pending: seq<MrtRow> := [];
      while true
        invariant Valid() && fresh(Repr() - old(Repr()))
        invariant Loop(cfg, State(), pending, target) == Pull(cfg, old(State()), target)
        decreases Fuel(cfg, State())
      {
        if reader == null && idx >= |cfg.sources| {
          done := true;
          break;
        }
        var read := ReadNext();
        if read.Err? {
          return Failed(read.error);
        }
        pending := pending + read.value;
        if |pending| >= target {
          break;
        }
      }
      return Finish(pending);
    }

    /** The resume state, as sixteen bytes. */
    method EncodeResume() returns (bytes: seq<byte>)
      requires Valid()
      ensures bytes == Scan.EncodeResume(State())
    {
      bytes := ToLittleEndian(idx, 8) + ToLittleEndian(offset, 8);
    }

    method RestoreResume(bytes: seq<byte>)
      requires Valid()
      modifies this
      ensures Valid() && Repr() <= old(Repr())
      ensures State() == Scan.RestoreResume(cfg, old(State()), bytes)
    {
      if |bytes| < 16 {
        return;
      }
      var index := LittleEndian(bytes[0..8]);
      var position := LittleEndian(bytes[8..16]);
      idx := if index < |cfg.sources| then index else |cfg.sources|;
      reader := null;
      done := idx >= |cfg.sources|;
      skipTo := if position > 0 then Some(position) else None;
    }
  }
}

/** Byte readers that may return less than asked for, and record parsing on top of them. */
module Readers {
  import opened Bytes
  import opened Wrappers
  import opened Mrt
  import opened Framing

  /** A decompressed stream whose `calls`-th read delivers at most `chunk(calls)` bytes (but at
      least one, unless nothing is asked for or the stream is at its end). */
  class ByteStream {
    const data: seq<byte>
    const chunk: nat -> nat
    var pos: nat
    var calls: nat

    ghost predicate Valid()
      reads this
    {
      pos <= |data|
    }

    constructor (data: seq<byte>, chunk: nat -> nat)
      ensures Valid() && this.data == data && pos == 0
    {
      this.data := data;
      this.chunk := chunk;
      pos := 0;
      calls := 0;
    }

    method Read(want: nat) returns (got: seq<byte>)
      requires Valid()
      modifies this
      ensures Valid()
      ensures old(pos) <= pos <= old(pos) + want && got == data[old(pos)..pos]
      ensures got == [] <==> want == 0 || old(pos) == |data|
    {
      var most := if chunk(calls) == 0 then 1 else chunk(calls);
      var n := if want < most then want else most;
      n := if |data| - pos < n then |data| - pos else n;
      got := data[pos..pos + n];
      pos := pos + n;
      calls := calls + 1;
    }
  }

  class CountingReader {
    const inner: ByteStream
    var count: nat
    ghost const base: nat

    ghost predicate Valid()
      reads this, inner
    {
      inner.Valid() && inner.pos == base + count
    }

    constructor (inner: ByteStream)
      requires inner.Valid()
      ensures Valid() && this.inner == inner && count == 0 && base == inner.pos
    {
      this.inner := inner;
      count := 0;
      base := inner.pos;
    }

    /** Whatever the inner reader delivers, the count moves by exactly the bytes delivered. */
    method Read(want: nat) returns (got: seq<byte>)
      requires Valid()
      modifies this, inner
      ensures Valid()
      ensures count == old(count) + |got| <= old(count) + want
      ensures got == inner.data[old(inner.pos)..inner.pos]
      ensures got == [] <==> want == 0 || old(inner.pos) == |inner.data|
    {
      got := inner.Read(want);
      count := count + |got|;
    }
  }

  const SCRATCH_LEN: nat := 8192

  /** Read and discard exactly `n` bytes; fails, at the end of the stream, iff fewer are left. */
  method SkipBytes(reader: CountingReader, n: nat) returns (ok: bool)
    requires reader.Valid()
    modifies reader, reader.inner
    ensures reader.Valid()
    ensures ok <==> old(reader.inner.pos) + n <= |reader.inner.data|
    ensures reader.inner.pos ==
            if ok then old(reader.inner.pos) + n else |reader.inner.data|
    ensures reader.count - old(reader.count) == reader.inner.pos - old(reader.inner.pos)
  {
    var remaining := n;
    while remaining > 0
      invariant reader.Valid()
      invariant 0 <= remaining <= n
      invariant reader.inner.pos == old(reader.inner.pos) + (n - remaining)
      decreases remaining
    {
      var want := if remaining < SCRATCH_LEN then remaining else SCRATCH_LEN;
      var got := reader.Read(want);
      if got == [] {
        return false;
      }
      remaining := remaining - |got|;
    }
    return true;
  }

  /** Fill a buffer of `n` bytes, or take everything that is left. */
  method ReadExact(reader: CountingReader, n: nat) returns (buf: seq<byte>)
    requires reader.Valid()
    modifies reader, reader.inner
    ensures reader.Valid()
    ensures |buf| == n || (|buf| < n && reader.inner.pos == |reader.inner.data|)
    ensures old(reader.inner.pos) <= reader.inner.pos
    ensures buf == reader.inner.data[old(reader.inner.pos)..reader.inner.pos]
  {
    buf := [];
    while |buf| < n
      invariant reader.Valid()
      invariant |buf| <= n
      invariant old(reader.inner.pos) <= reader.inner.pos
      invariant buf == reader.inner.data[old(reader.inner.pos)..reader.inner.pos]
      decreases n - |buf|
    {
      var got := reader.Read(n - |buf|);
      if got == [] {
        return;
      }
      buf := buf + got;
    }
  }

  /** Parsing through a counting reader computes `ParseAt`, whatever the short-read schedule. */
  method ParseMrtRecord(fmt: Format, reader: CountingReader) returns (outcome: Result<MrtRecord, ParserError>)
    requires reader.Valid()
    modifies reader, reader.inner
    ensures reader.Valid()
    ensures Parsed(outcome, reader.inner.pos) == ParseAt(fmt, reader.inner.data, old(reader.inner.pos))
  {
    ghost var start := reader.inner.pos;
    var header := ReadExact(reader, HEADER_LEN);
    if |header| < HEADER_LEN {
      outcome := Err(if |header| == 0 || fmt.partialHeaderIsEnd then EofExpected else EofError(fmt.shortReadText));
      return;
    }
    var length := BodyLength(header);
    var body := ReadExact(reader, length);
    if |body| < length {
      return Err(IoError(fmt.shortReadText));
    }
    outcome := fmt.decode(header, body);
  }

  function NextOutcome(outcome: Result<MrtRecord, ParserError>): Result<Option<MrtRecord>, ParserError> {
    if outcome.Ok? then Ok(Some(outcome.value))
    else if IsCleanEof(outcome.error) then Ok(None)
    else Err(outcome.error)
  }

  method NextRecord(fmt: Format, reader: CountingReader) returns (next: Result<Option<MrtRecord>, ParserError>)
    requires reader.Valid()
    modifies reader, reader.inner
    ensures reader.Valid()
    ensures var p := ParseAt(fmt, reader.inner.data, old(reader.inner.pos));
            next == NextOutcome(p.outcome) && reader.inner.pos == p.end
  {
    var outcome := ParseMrtRecord(fmt, reader);
    if outcome.Ok? {
      next := Ok(Some(outcome.value));
    } else if IsCleanEof(outcome.error) {
      next := Ok(None);
    } else {
      next := Err(outcome.error);
    }
  }
}

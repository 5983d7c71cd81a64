# A verified model of the MRT scan

`vgi-bgp` turns MRT routing dumps into rows. It reads a list of byte sources as one resumable scan:
records are decoded one at a time by a decoder that remembers the peer table and view name, rows are
handed out in batches, and after any batch the position can be written as sixteen bytes, from which a
new producer takes over by replaying the current source and discarding what was already delivered.

This project models that scan, the second traversal that enumerates peers, and the codecs around
them, and proves what holds of them for every input.

## Results

The reference (`Scan.LaterRows`) knows only frames and a left fold of the decoder over them: no
batches, states or checkpoints.

- **Framing and rows.** Parsing and writing a stream of length-prefixed records undo each other
  (`Streams.WrittenFrames`, `Streams.StreamIsWritten`), and reading the columns of a record's rows back gives
  its elements, none lost or added (`History.FrameRows`, `History.ElemsReadBack`).
- **Batch independence.** With any sequence of positive batch targets, the batches of a lenient scan
  are the reference rows, cut into pieces; batches are never empty, full unless last, overshoot by less
  than one record, and the end is final (`Runs.BatchIndependence`, `ScanProofs.PullConserves`,
  `Strict.PullBound`, `ScanProofs.ExhaustedForever`).
- **Strict mode.** Outside a fast-forward, a strict pull fails exactly when the lenient pull of the same
  state holds an error row, with the first one's text; otherwise it is the same pull (`Strict.StrictPull`,
  `Strict.StrictScan`). In a fast-forward that is false (`ResumeExamples.StrictFailsInFastForward`). From
  every state, fast-forwarding or not, a strict pull fails exactly when fewer rows than its target come
  before the first frame that is not good (`Strict.StrictPullExact`), so a restored strict scan fails on
  such a frame even if it ends by the checkpoint (`Resume.RestoredStrictRun`).
- **Resume.** In strict mode any number of restarts changes nothing, on any input
  (`Restart.StrictResumeTransparent`). In lenient mode that is false, and the exact condition is proved:
  restarting is invisible if and only if the checkpoint is `Safe` (`Restart.LenientResumeExact`). Two
  concrete inputs show the two ways it fails (`ResumeExamples`), and the repeated and the lost rows are
  characterised exactly (`Resume.OpenResume`, `Resume.ClosedResume`, `Restart.ResumedDelivers`). For any
  sixteen bytes, the batches of a producer restored from them are stated outright (`Resume.RestoredRun`,
  `Resume.RestoredStrictRun`).
- **Damage** stays where it is, and a cut leaves an error row exactly if it is inside a record
  (`Damage.SpoiledBodyIsLocal`, `Damage.TruncationIsLocal`).
- **Peers.** The enumeration is the first-occurrence deduplication of all peers met before each
  source's first failure: exactly the peers that records name, each once, with the collector of the first
  (`Peers.EnumerationExact`). It covers every peer of an error-free scan (`Peers.PeersCoverScan`).
- **Codecs.** INET prefixes are contiguous intervals of stored integers; community strings, JSON
  metadata, list columns and AS-path prepends have exact round trips or exact conditions. An object key
  comes back from its URL exactly if it has no `.` or `..` segment and does not end in a space
  (`S3Url.RemoteKeyExact`). Glob patterns compile and match exactly as their tokens say
  (`Glob.CompileExact`, `Glob.MatchesExact`); the listing shortcut is lossless, and with case folded it is
  so exactly if the prefix holds no letter (`Glob.ListingLossless`, `Glob.FoldedListingExact`).

## How the source is modelled

- `MrtProducer`, `Decoder`, `CountingReader`, `PeersProducer` and the list builder are classes whose
  methods update the fields the program updates. Each method is proved against a function of the old
  state (`Scan.Pull`, `Decode.RowsOf`, `Framing.ParseAt`, `Peers.FirstSeen`), and the theorems are
  about those functions. `Drain` applies them to the objects. `MrtProducer.PullBatch` delegates one
  iteration of the program's loop to `ReadNext`, which returns no rows where the program says
  `continue`.
- Framing follows section 2 of RFC 6396: a 12-byte common header ending in a big-endian body length.
  How a complete header and body decode is a parameter (`Framing.Format.decode`), and so is the library's
  choice whether a partial header is a clean end of stream; every result holds for all values of both.
  A failed read is taken to have consumed what was left of the stream.
- Readers generic in the program are one class, `CountingReader`; the peer enumeration ignores its count.
- `is_recoverable` and `is_clean_eof` act on the error kinds, so a complete body whose decoding reports
  an input or end-of-file error also counts as torn, as in the program.
- The index map of a PEER_INDEX_TABLE is a sequence, in the order the map is iterated.
- A batch target is an argument of every pull, because the program reads it from the environment on
  every pull (`crates/bgp-worker/src/reader.rs:245`); only positive ones are honoured.
- Counts and indexes are unbounded numbers; where they become bytes, `Scan.Fits64` says that the sizes
  fit 64 bits.

- `S3Url.ParseUrl` follows section 4.4 of the URL Standard for a scheme that is not special: trimming, tabs
  and newlines, authority, path, dot segments and path percent-encoding. Whether the parser accepts the
  bucket as a host is a parameter.
- Glob matching takes case folding as a parameter, because the program leaves it to the library's default
  options; every result names the case it holds for.

## Where the code and its documentation differ

The model follows the code.

- `crates/bgp-worker/src/reader.rs:14-15` says the offset round-trips exactly because a checkpoint is only
  taken on a boundary. The boundary part holds (`Restart.CheckpointInvariant`), but in lenient mode a bad
  frame met while fast-forwarding ends the fast-forward early, which repeats rows
  (`ResumeExamples.ResumeCanRepeat`), and a batch that fills exactly on the error row of a torn source that
  is not the last carries that source's offset over to the next source, which loses rows
  (`ResumeExamples.ResumeCanLose`).
- `crates/bgp-core/src/decode.rs:4-8` says resuming skips bytes to the checkpoint; the code replays the
  source from its start and drops rows instead. `skip_bytes` is modelled on its own.
- `crates/bgp-worker/src/reader.rs:326-327` calls restoring the inverse of encoding. Restoring undoes encoding
  (`Resume.ResumeBytesRoundTrip`), but encoding right after restoring gives offset 0, and the same bytes only
  if they held offset 0 and no index past the end (`Resume.EncodeOfRestored`).
- `crates/bgp-worker/src/cloud.rs:30-33` and `:76-77` say that escaping makes the parser preserve the whole
  key. It does for `%`, `?`, `#` and control characters, but a `.` or `..` segment or a last space is lost
  (`S3Url.KeysLost`, `S3Url.RemoteKeyExact`).
- `crates/bgp-worker/src/table/peers.rs:1-3` speaks of distinct (address, ASN, collector) triples; the code
  keeps the first row of each (address, ASN) pair.

## Model

| member | source | states |
|---|---|---|
| Readers.CountingReader.Read | crates/bgp-core/src/decode.rs:290-296 | The count moves by exactly the bytes delivered, however short the inner read is. |
| Readers.SkipBytes | crates/bgp-core/src/decode.rs:316-331 | Under any short-read schedule, succeeds iff `n` bytes are left and then has consumed exactly `n`; otherwise has consumed the rest. |
| Readers.NextRecord | crates/bgp-core/src/decode.rs:338-349 | Through any short reads, the outcome is that of parsing the frame at the old position, a clean end as no record, and the position is that frame's end. |
| Framing.ParseAtBoundary | crates/bgp-core/src/decode.rs:338-349 | Records are self-delimiting: parsing at the k-th boundary of a stream finds its k-th frame, or the clean end after the last. |
| Framing.FramesShape | crates/bgp-core/src/decode.rs:116-131 | Frame ends strictly increase within the stream, and only the last frame can be torn. |
| Streams.WrittenFrames | crates/bgp-core/src/decode.rs:338-349 | Parsing undoes writing: a stream written record by record, each length as four bytes from the most significant, has exactly one frame a record, with what its header and body decode to and the end where it was written. |
| Streams.StreamIsWritten | crates/bgp-core/src/decode.rs:338-349 | Writing undoes parsing: every stream without a torn frame is the records of its frames so written, up to where parsing takes it to end. |
| Decode.Decoder.RecordRows | crates/bgp-core/src/decode.rs:159-202 | Returns the rows of the record for the old decoder state and moves to the state fed with the record. |
| Decode.Decoder.PeerRows | crates/bgp-core/src/decode.rs:207-233 | Returns the peers of the record and updates the view name, leaving the peer table alone. |
| History.RowViewName | crates/bgp-core/src/decode.rs:159-202 | The view name of every decoded row is that of the latest table before its frame in the same source, an empty name counting as absent, or none without such a table; the row has no error. |
| History.RibRows | crates/bgp-core/src/decode.rs:189-201 | The rows of a RIB record are, in order, exactly its entries that the table in force resolves, each with the peer found and its own attributes in their columns. |
| History.FrameRows | crates/bgp-core/src/decode.rs:159-269 | The rows of every frame show its record in their own columns: one a route of a message with its type and the message's peer, one a resolved RIB entry, one a state change with both states and the header's microseconds, one an element of another record, none for a table; a frame that fails gives one row with the error and nothing else. |
| History.ElemsReadBack | crates/bgp-core/src/decode.rs:189-269 | Read back from the columns of a record's rows: the routes of a message with its peer, the resolved entries of a RIB record, the elements of another record, in order, none lost or added. |
| History.RibRowHistory | crates/bgp-core/src/decode.rs:170-172 | The peer of a RIB row is listed in the latest accepted table earlier in the same source. |
| Reader.MrtProducer.constructor | crates/bgp-worker/src/reader.rs:196-209 | A new producer is in the initial state. |
| Reader.MrtProducer.OpenCurrent | crates/bgp-worker/src/reader.rs:212-219 | Opening a source makes reader, decoder and offset fresh and keeps the rest. |
| Reader.MrtProducer.Advance | crates/bgp-worker/src/reader.rs:222-226 | Advancing closes the reader, moves to the next source and clears the fast-forward, but keeps the offset. |
| Reader.MrtProducer.ReadRecord | crates/bgp-worker/src/reader.rs:257-295 | One record read from the open source is one `ReadOne` step: rows and state, or the strict error. |
| Reader.MrtProducer.HandleError | crates/bgp-worker/src/reader.rs:274-294 | A parse error fails in strict mode and changes nothing; otherwise it counts the bytes, emits one error row unless skipped, and continues or leaves the source by recoverability. |
| Reader.MrtProducer.PullBatch | crates/bgp-worker/src/reader.rs:241-306 | The batch, end or error, and the new state, are those of `Scan.Pull` on the old state; the loop terminates on every input. |
| Reader.MrtProducer.EncodeResume | crates/bgp-worker/src/reader.rs:319-324 | The sixteen bytes of the state's index and offset. |
| Reader.MrtProducer.RestoreResume | crates/bgp-worker/src/reader.rs:328-338 | The state becomes that of `Scan.RestoreResume`; short input changes nothing. |
| Scan.Iterate | crates/bgp-worker/src/reader.rs:247-300 | Every iteration, through clean ends, bad frames, torn tails and fast-forwarded frames, lowers the amount left to read. |
| ScanProofs.IterateConserves | crates/bgp-worker/src/reader.rs:247-295 | One lenient iteration moves rows from those to come to those emitted, keeps the invariant, and has ended the fast-forward if it emitted anything. |
| ScanProofs.PullConserves | crates/bgp-worker/src/reader.rs:241-306 | One lenient pull takes the next rows to come, in order; a batch is not empty and is full unless it ends the scan; no batch means nothing is left. |
| Strict.PullBound | crates/bgp-worker/src/reader.rs:41-44 | Strict or not, no batch exceeds its target less one plus the largest record. |
| ScanProofs.ExhaustedForever | crates/bgp-worker/src/reader.rs:242-252 | After a pull without a batch, strict or not, every later pull says the same and changes nothing. |
| Runs.RunConserves | crates/bgp-worker/src/reader.rs:241-306 | From any state of a lenient scan, batches followed by what remains are the rows to come; with more pulls than rows the run reports the end. |
| Runs.BatchIndependence | crates/bgp-worker/src/reader.rs:46-55 | Every sequence of positive targets, long enough, delivers exactly the reference scan and then the end. |
| Strict.StrictPull | crates/bgp-worker/src/reader.rs:275-277 | Outside a fast-forward, a strict pull fails iff the lenient pull of the same state holds an error row, with the first one's text; otherwise the two agree on result and state. |
| Strict.StrictPullExact | crates/bgp-worker/src/reader.rs:241-306 | From every state of the scan, also fast-forwarding: a strict pull fails iff fewer rows than its target come before the first frame that is not good, before or past the checkpoint, with that frame's text; otherwise it takes the next of those rows. |
| Strict.PullKeepsInv | crates/bgp-worker/src/reader.rs:241-306 | Strict or not, a pull that does not fail keeps the invariant, and a batch leaves no fast-forward pending. |
| Strict.StrictRunExact | crates/bgp-worker/src/reader.rs:274-294 | From every state, a strict run delivers a start of the rows before the first frame that is not good and fails only with its text; with more pulls than rows it ends so, or, without such a frame, with all rows delivered. |
| Strict.StrictScan | crates/bgp-worker/src/reader.rs:274-294 | A full strict scan ends in an error iff the reference holds an error row, naming the first; its rows are an error-free start of it; on error-free input it is the lenient scan, batch by batch. |
| Restart.CheckpointInvariant | crates/bgp-worker/src/reader.rs:259-305 | After a batch: no fast-forward; with an open reader, offset and count are one frame boundary and the decoder is a fresh one fed exactly the frames ending by it; closed before the end only right after a torn source, never in strict mode. |
| Resume.ResumeBytesRoundTrip | crates/bgp-worker/src/reader.rs:318-338 | Restoring from the encoded bytes restores the encoded index and offset. |
| Resume.CheckpointLayout | crates/bgp-worker/src/reader.rs:318-324 | The sixteen bytes are the index and then the offset, each with its least significant byte first. |
| Resume.EncodeOfRestored | crates/bgp-worker/src/reader.rs:318-338 | Encoding right after restoring gives offset 0; the bytes come back iff they hold offset 0 and an index not past the end. |
| Resume.RestoredRun | crates/bgp-worker/src/reader.rs:257-338 | For any sixteen bytes, on a boundary or not, the batches of a restored lenient producer are exactly the rows of the frames of the checkpoint's source that end past the offset or follow a bad frame, each with the rows of a full replay, and then all later sources; then the scan ends. |
| Resume.RestoredStrictRun | crates/bgp-worker/src/reader.rs:257-338 | For any sixteen bytes, a restored strict producer fails with the text of the first frame that is not good from the checkpoint's source on, even one that ends by the checkpoint, having delivered a start of the rows past the checkpoint before it; without one it delivers them all. |
| Resume.OpenResume | crates/bgp-worker/src/reader.rs:262-293 | With the reader open, resuming never loses a row: it repeats the rows between the first bad frame and the checkpoint, then delivers all that was to come. |
| Resume.ClosedResume | crates/bgp-worker/src/reader.rs:222-226 | With the reader closed before a further source, resuming loses exactly the rows of that source's frames before the cut. |
| Restart.ResumeSame | crates/bgp-worker/src/reader.rs:241-338 | At a safe checkpoint, the next pull of the resumed and of the original scan return the same and, after a batch, are in the same state. |
| Restart.NoBadBeforeIsSafe | crates/bgp-worker/src/reader.rs:287-289 | A checkpoint with the reader open is safe if no bad frame of its source ends before it. |
| Restart.UndamagedIsSafe | crates/bgp-worker/src/reader.rs:262-293 | Without bad frames, and torn sources other than the last, every checkpoint of a lenient scan is safe. |
| Restart.RestartsInvisible | crates/bgp-worker/src/reader.rs:319-338 | A run restarted at any of its safe checkpoints, any number of times, gives the same results as the uninterrupted run. |
| Restart.StrictResumeTransparent | crates/bgp-worker/src/reader.rs:319-338 | In strict mode, on any input, restarts after any batches with any targets change no batch, error or end. |
| Restart.LenientResumeTransparent | crates/bgp-worker/src/reader.rs:319-338 | The same in lenient mode on undamaged input, a torn last source included. |
| Restart.ResumedDelivers | crates/bgp-worker/src/reader.rs:257-338 | With pulls enough, a lenient producer resumed from a checkpoint delivers what the uninterrupted one still delivers, preceded by the rows between cut and checkpoint (open) or less those before the cut (closed). |
| Restart.LenientResumeExact | crates/bgp-worker/src/reader.rs:257-338 | At any checkpoint of a lenient scan, resuming is invisible to every later sequence of pulls iff the frames between the cut and the checkpoint (open) or before the cut (closed) yield no rows. |
| ResumeExamples.ResumeCanRepeat | crates/bgp-worker/src/reader.rs:287-289 | An input on which a resumed lenient scan delivers a row a second time. |
| ResumeExamples.ResumeCanLose | crates/bgp-worker/src/reader.rs:222-226 | An input on which a resumed lenient scan never delivers a row. |
| ResumeExamples.StrictFailsInFastForward | crates/bgp-worker/src/reader.rs:274-281 | A restored state in which the strict pull fails though the lenient pull holds no error row. |
| Drain.FullScan | crates/bgp-worker/src/reader.rs:353-361 | A new lenient producer, drained at any batch target and short-read schedule, yields the reference scan. |
| Drain.ScanAcrossHandOver | crates/bgp-worker/src/reader.rs:428-460 | One batch and then the rest from a second producer restored from the first one's bytes together yield the reference scan, on undamaged input. |
| Damage.SpoiledBodyIsLocal | crates/bgp-worker/src/reader.rs:274-290 | Making the body of a decodable frame other than a PEER_INDEX_TABLE undecodable turns its rows into one error row and leaves every other row of the scan in place. |
| Damage.TruncationIsLocal | crates/bgp-worker/src/reader.rs:290-293 | Truncating a source at any byte keeps exactly the rows of the frames that end by then and every other source's rows, and adds one error row, with the short read's text, iff the cut is inside a record: past its header, or inside it if the library does not take a partial header for the end. |
| Peers.PeersProducer.NextBatch | crates/bgp-worker/src/table/peers.rs:143-167 | The first call returns the first-seen deduplication of all peers before each source's first failure; later calls return nothing. |
| Peers.FirstSeenMeaning | crates/bgp-worker/src/table/peers.rs:147-160 | The deduplication keeps exactly the first occurrence of every (address, ASN), in order: none twice, none lost. |
| Peers.ViewNamesAgree | crates/bgp-core/src/decode.rs:207-211 | Enumerating peers and scanning track the same view name. |
| Peers.EnumerationExact | crates/bgp-core/src/decode.rs:207-233 | An address and ASN is enumerated iff some record before its source's first failure names it -- a message, whatever its routes, a state change, or a table entry -- and has exactly one row, with the collector as of the first such record. |
| Peers.RowNamesPeer | crates/bgp-core/src/decode.rs:159-233 | Up to a source's first failure, every scanned row of a TABLE_DUMP_V2 or BGP4MP record names an enumerated peer. |
| Peers.PeersCoverScan | crates/bgp-worker/src/table/peers.rs:154-161 | Over error-free TABLE_DUMP_V2 and BGP4MP sources, the peer of every scanned row is in the enumeration. |
| Inet.EncodedValue | crates/bgp-core/src/inet.rs:50-73 | The sixteen bytes read as a signed integer are the IPv4 address, or the IPv6 address less 2^127, with the family's type and the mask. |
| Inet.StoredOrder | crates/bgp-core/src/inet.rs:15-19 | Within a family, stored integers are ordered as the addresses are octet by octet. |
| Inet.EncodeInjective | crates/bgp-core/src/inet.rs:50-73 | Equal cells mean equal addresses of the same family and equal masks. |
| Inet.PrefixIsInterval | crates/bgp-core/src/inet.rs:12-20 | The addresses sharing the first m bits of one are exactly those stored in one interval of 2^(w-m) consecutive integers. |
| Inet.HostCell | crates/bgp-core/src/inet.rs:42-47 | The cell of a bare address holds its family's type and full width, and, read as a signed integer, the IPv4 address or the IPv6 address less 2^127. |
| Inet.ContainsExact | crates/bgp-core/src/inet.rs:12-73 | Read from the cells alone, a bare address's cell lies in the stored interval of a prefix's cell iff the address is of its family and shares the prefix's bits. |
| Inet.HostIsSingleton | crates/bgp-core/src/inet.rs:40-47 | The interval of a bare address's cell holds the cell of that address only. |
| Community.ParseU32Denotes | crates/bgp-core/src/community.rs:13-20 | A part parses to `v` iff it is a decimal numeral, perhaps with a plus sign, for `v` within 32 bits; overflow is rejected. |
| Text.TrimExact | crates/bgp-core/src/community.rs:13-14 | Trimming leaves nothing of a blank text, and of any other what lies between its blanks, starting and ending with a character that is not white space. |
| Community.CommunityParseExact | crates/bgp-core/src/community.rs:13-22 | `community_parse` gives a pair iff the trimmed text is two such numerals for it with one colon between. |
| Community.LargeExact | crates/bgp-core/src/community.rs:26-29 | `is_large_community` holds iff the trimmed text is three such numerals joined by colons. |
| Community.StandardRoundTrip | crates/bgp-core/src/community.rs:13-22 | Any two 32-bit numbers, printed and surrounded by white space, parse back. |
| Community.LargeRoundTrip | crates/bgp-core/src/community.rs:26-29 | Any three 32-bit numbers, printed, are large and never standard. |
| S3Key.RoundTripExact | crates/bgp-worker/src/cloud.rs:34 | For any escape set, decoding an encoded key gives it back iff the key has no `%xx` the encoding leaves alone. |
| S3Key.KeyRoundTrip | crates/bgp-worker/src/cloud.rs:30-34 | With `%` in the set, every key comes back unchanged. |
| S3Key.EncodingIsClean | crates/bgp-worker/src/cloud.rs:78-82 | The encoding is printable ASCII and holds no raw `?` or `#`. |
| S3Key.UnchangedExact | crates/bgp-worker/src/cloud.rs:30-34 | A key is left as it is iff all its bytes are printable ASCII other than `%`, `?` and `#`; `*`, `[` and `]` pass. |
| S3Url.KeyRead | crates/bgp-worker/src/cloud.rs:52-89 | What comes back from the URL built for any bucket and key: the scheme, the bucket without tabs and newlines, and the key with its last spaces dropped and its dot segments resolved, or no key if the bucket holds a `?` or `#`; no URL if the parser does not accept the bucket. |
| S3Url.RemoteKeyExact | crates/bgp-worker/src/cloud.rs:30-34 | Once the URL parses, the key comes back unchanged iff it is empty, or the bucket holds no `?` or `#`, no segment of the key is `.` or `..`, and it does not end in a space. |
| S3Url.KeysLost | crates/bgp-worker/src/cloud.rs:78-89 | `a/../c` comes back as `c`, `a/.` as `a/`, and `a` with a space as `a`. |
| S3Key.PercentIsNeeded | crates/bgp-worker/src/cloud.rs:33-34 | Without `%` in the set, a key comes back changed. |
| Glob.CompileExact | crates/bgp-worker/src/cloud.rs:368 | A pattern compiles to a list of tokens iff it is their text, perhaps with one more separator after a final `**`, and the list is one that patterns denote; everything else is an error. |
| Glob.MatchesExact | crates/bgp-worker/src/cloud.rs:337-347 | A key matches iff it can be cut into pieces, one a token in order, each covered by its token: `*`, `?` and classes within a component, `**` up to a separator or the end. |
| Glob.ClassExact | crates/bgp-worker/src/cloud.rs:337-347 | A class holds a character iff one of its ranges or single characters does, up to case if folded (for ranges between letters of one case). |
| Glob.OnlyRecursiveCrosses | crates/bgp-worker/src/cloud.rs:337-347 | Without `**`, a matching key has exactly as many slashes as the pattern: the other wildcards stay within a component. |
| Glob.GlobPrefixExact | crates/bgp-worker/src/cloud.rs:350-359 | The listing prefix is the whole pattern if it has no wildcard, and otherwise ends at the last slash before the first one. |
| Glob.MatchStartsWithPrefix | crates/bgp-worker/src/cloud.rs:339-359 | Every matching key starts like the listing prefix, up to case if it is folded. |
| Glob.ListingLossless | crates/bgp-worker/src/cloud.rs:350-399 | With case kept, listing under the prefix and then filtering equals filtering all keys, for every pattern and bucket. |
| Glob.FoldedListingExact | crates/bgp-worker/src/cloud.rs:339-399 | With case folded, for a pattern that matches some key, the listing loses nothing from any bucket iff the listing prefix holds no ASCII letter. |
| Glob.CaseFoldingLoses | crates/bgp-worker/src/cloud.rs:339-347 | `A/?` matches `a/x` with case folded, and the listing does not return it. |
| JsonMeta.EscIsOnePass | crates/bgp-worker/src/meta.rs:47-51 | The successive whole-string replacements amount to a one-pass escape. |
| JsonMeta.ReadEscaped | crates/bgp-worker/src/meta.rs:35-36 | A JSON string reader recovers an escaped text iff it has no control character (an escaped newline aside). |
| JsonMeta.KeywordsRead | crates/bgp-worker/src/meta.rs:29-40 | A JSON reader recovers, in order, from exactly those parts between commas that are not all white space, the text between their blanks; or rejects the text if one holds a control character. |
| JsonMeta.AgentTestTasksRead | crates/bgp-worker/src/meta.rs:46-64 | A JSON reader recovers every task's three fields, newlines included, or rejects the text if one holds another control character. |
| JsonMeta.ResultColumnsSchemaRead | crates/bgp-worker/src/meta.rs:78-95 | The same for column names, types and descriptions, without newlines. |
| JsonMeta.ExampleQueriesRead | crates/bgp-worker/src/meta.rs:99-114 | The same for example descriptions and queries. |
| Columns.ListBuilder.Append | crates/bgp-worker/src/arrow_io.rs:118-125 | Closing a row leaves every earlier row as it was and makes the values appended since its content. |
| Columns.BuildList | crates/bgp-worker/src/arrow_io.rs:114-145 | Reading any row of the built column back gives the optional row it was built from. |
| Columns.ReadStored | crates/bgp-worker/src/arrow_io.rs:288-322 | A row of ASNs stored at any supported element width reads back as they were, null elements as 0, a null row as null; at other widths as empty. |
| Columns.BuildPaths | crates/bgp-worker/src/arrow_io.rs:114-322 | Of a column built from AS paths stored at any supported width, reading row i gives path i, null or not. |
| Columns.BuildInet | crates/bgp-worker/src/arrow_io.rs:80-111 | All children have one entry a row, and every cell reads back, null or not. |
| AsPath.AsPathPrepends | crates/bgp-core/src/aspath.rs:25-33 | The loop counts the path's length less its number of runs. |
| AsPath.RunsAreMaximal | crates/bgp-core/src/aspath.rs:21-24 | The runs expand to the path, none is empty, and neighbours differ. |
| AsPath.PrependsOfReverse | crates/bgp-core/src/aspath.rs:25-33 | A path and its reverse have the same prepends. |
| AsPath.PrependsOfConcat | crates/bgp-core/src/aspath.rs:25-33 | Joining paths adds their prepends, and one if they meet in the same ASN. |

## Left out

- Body decoding of the MRT library, gzip, bzip2 and buffering: the model starts from decompressed bytes and takes decoding as a parameter. RIB entries are taken to be looked up by index, and the elements of a BGP4MP message to name its peer.
- Opening a source, and read errors in the middle of one: every source opens and is read to its end.
- Pulling again after a strict error: the state it leaves is modelled (`Scan.ReadOne`), but no result is about later pulls.
- 32-bit builds, where a restored 64-bit source index would be truncated.
- Floating-point element times: the rounded microseconds are carried as an opaque number.
- Building record batches from rows, schemas, column order and the NULL rule for an error row's timestamp.
- UTF-8 and string columns beyond list layout: keys are bytes, and lists are over any element type.
- URL host syntax and `http(s)` URLs, and object-store paths: the listing prefix is compared by characters, not by path segments and their encoding.
- Sorting of listed URLs, secret selection, host checks, environment variables and endpoint options.
- `peers` rows of records other than TABLE_DUMP_V2 and BGP4MP: the program lists none, so `PeersCoverScan` excludes them.
- Whether the glob library's default options fold case, and case beyond ASCII, which the library does not fold.

/** Peer enumeration: a second traversal of the same streams, deduplicated by (address, ASN). */
module Peers {
  import opened Wrappers
  import opened Mrt
  import opened Framing
  import opened Decode
  import opened Readers
  import opened Scan
  import opened History

  type PeerKey = (IpAddr, nat)

  function Key(p: PeerRow): PeerKey {
    (p.peerIp, p.peerAsn)
  }

  // ----- The peers of a stream -----

  function FramePeers(viewName: Option<string>, f: Frame): seq<PeerRow> {
    if f.outcome.Ok? then PeersOf(viewName, f.outcome.value) else []
  }

  /** The peers of the first `k` frames, with the view names of the scan's own decoder fold. */
  function PeersUpTo(fs: seq<Frame>, k: nat): seq<PeerRow>
    requires k <= |fs|
  {
    if k == 0 then [] else PeersUpTo(fs, k - 1) + FramePeers(DecoderAt(fs, k - 1).viewName, fs[k - 1])
  }

  /** The enumeration reads a source up to its first failure of any kind. */
  function SourcePeers(cfg: Config, i: nat): seq<PeerRow>
    requires i < |cfg.sources|
  {
    PeersUpTo(FramesOf(cfg, i), FirstFailure(FramesOf(cfg, i), 0))
  }

  /** The peers of the first `n` sources, in order. */
  function PeersOfSources(cfg: Config, n: nat): seq<PeerRow>
    requires n <= |cfg.sources|
  {
    if n == 0 then [] else PeersOfSources(cfg, n - 1) + SourcePeers(cfg, n - 1)
  }

  // ----- Deduplication -----

  ghost function Keys(xs: seq<PeerRow>): set<PeerKey> {
    set x | x in xs :: Key(x)
  }

  /** Keep the rows whose key does not occur earlier. */
  ghost function FirstSeen(xs: seq<PeerRow>): seq<PeerRow> {
    if |xs| == 0 then []
    else
      var before, last := xs[..|xs| - 1], xs[|xs| - 1];
      FirstSeen(before) + if Key(last) in Keys(before) then [] else [last]
  }

  /** The key at place `p` does not occur at an earlier place. */
  ghost predicate IsNew(xs: seq<PeerRow>, p: nat) {
    p < |xs| && forall q :: 0 <= q < p ==> Key(xs[q]) != Key(xs[p])
  }

  /** `out` is the rows of `xs` at the places `at`: in order, and exactly the new places. */
  ghost predicate FirstOccurrences(xs: seq<PeerRow>, out: seq<PeerRow>, at: seq<nat>) {
    |at| == |out| &&
    (forall i :: 0 <= i < |at| ==> IsNew(xs, at[i]) && out[i] == xs[at[i]]) &&
    (forall i, j :: 0 <= i < j < |at| ==> at[i] < at[j]) &&
    (forall p: nat :: IsNew(xs, p) ==> p in at)
  }

  lemma LastIsNew(before: seq<PeerRow>, last: PeerRow)
    ensures IsNew(before + [last], |before|) <==> Key(last) !in Keys(before)
  {
    var xs := before + [last];
    if Key(last) in Keys(before) {
      var x :| x in before && Key(x) == Key(last);
      var q :| 0 <= q < |before| && before[q] == x;
      assert Key(xs[q]) == Key(xs[|before|]);
    } else {
      forall q | 0 <= q < |before|
        ensures Key(xs[q]) != Key(last)
      {
        assert before[q] in before && xs[q] == before[q];
      }
    }
  }

  lemma NewInPrefix(before: seq<PeerRow>, last: PeerRow, p: nat)
    requires p < |before|
    ensures IsNew(before + [last], p) <==> IsNew(before, p)
  {
    assert forall q :: 0 <= q <= p ==> (before + [last])[q] == before[q];
  }

  lemma {:induction false} FirstSeenIndices(xs: seq<PeerRow>) returns (at: seq<nat>)
    ensures FirstOccurrences(xs, FirstSeen(xs), at)
  {
    if |xs| == 0 {
      at := [];
    } else {
      var before, last := xs[..|xs| - 1], xs[|xs| - 1];
      assert xs == before + [last];
      var at' := FirstSeenIndices(before);
      LastIsNew(before, last);
      forall p: nat | p < |before|
        ensures IsNew(xs, p) <==> IsNew(before, p)
      {
        NewInPrefix(before, last, p);
      }
      hide IsNew;
      at := at' + if Key(last) in Keys(before) then [] else [|before|];
      NewPlaces(xs, before, at', at);
    }
  }

  lemma NewPlaces(xs: seq<PeerRow>, before: seq<PeerRow>, at': seq<nat>, at: seq<nat>)
    requires |xs| == |before| + 1
    requires at == at' + if IsNew(xs, |before|) then [|before|] else []
    requires forall p: nat :: p < |before| ==> (IsNew(xs, p) <==> IsNew(before, p))
    requires forall p: nat :: IsNew(before, p) ==> p in at'
    ensures forall p: nat :: IsNew(xs, p) ==> p in at
  {
    forall p: nat | IsNew(xs, p)
      ensures p in at
    {
      if p < |before| {
        assert IsNew(before, p);
        assert p in at';
      } else {
        assert p == |before|;
      }
    }
  }

  /** The deduplicated enumeration: first occurrences, in first-seen order; no key twice, none lost. */
  lemma FirstSeenMeaning(xs: seq<PeerRow>)
    ensures exists at :: FirstOccurrences(xs, FirstSeen(xs), at)
    ensures forall i, j :: 0 <= i < j < |FirstSeen(xs)| ==> Key(FirstSeen(xs)[i]) != Key(FirstSeen(xs)[j])
    ensures Keys(FirstSeen(xs)) == Keys(xs)
  {
    var at := FirstSeenIndices(xs);
    var out := FirstSeen(xs);
    forall i, j | 0 <= i < j < |out|
      ensures Key(out[i]) != Key(out[j])
    {
      assert IsNew(xs, at[j]) && at[i] < at[j];
    }
    FirstSeenKeys(xs);
  }

  lemma {:induction false} FirstSeenKeys(xs: seq<PeerRow>)
    ensures Keys(FirstSeen(xs)) == Keys(xs)
  {
    if |xs| > 0 {
      var before, last := xs[..|xs| - 1], xs[|xs| - 1];
      FirstSeenKeys(before);
      KeysOfConcat(before, [last]);
      assert before + [last] == xs;
      KeysOfConcat(FirstSeen(before), if Key(last) in Keys(before) then [] else [last]);
    }
  }

  lemma KeysOfConcat(a: seq<PeerRow>, b: seq<PeerRow>)
    ensures Keys(a + b) == Keys(a) + Keys(b)
  {
    forall k | k in Keys(a) + Keys(b)
      ensures k in Keys(a + b)
    {
      var x :| (x in a || x in b) && Key(x) == k;
      assert x in a + b;
    }
  }

  lemma SeenStep(before: seq<PeerRow>, p: PeerRow)
    ensures Keys(before + [p]) == Keys(before) + {Key(p)}
    ensures FirstSeen(before + [p]) == FirstSeen(before) + if Key(p) in Keys(before) then [] else [p]
  {
    KeysOfConcat(before, [p]);
    assert Keys([p]) == {Key(p)} by {
      assert p in [p];
    }
    assert (before + [p])[..|before|] == before;
  }

  /** Enumerating peers tracks the same view name as the scan. */
  lemma ViewNamesAgree(dec: DecoderState, record: MrtRecord)
    ensures FeedPeers(dec.viewName, record) == FeedRecord(dec, record).viewName
  {
  }

  // ----- The producer -----

  class PeersProducer {
    const cfg: Config
    const chunk: (nat, nat) -> nat
    var sources: Option<seq<Source>>

    constructor (cfg: Config, chunk: (nat, nat) -> nat)
      ensures this.cfg == cfg && sources == Some(cfg.sources)
    {
      this.cfg := cfg;
      this.chunk := chunk;
      sources := Some(cfg.sources);
    }

    /** The first call returns every distinct peer, in first-seen order; later calls return nothing. */
    method NextBatch() returns (batch: Option<seq<PeerRow>>)
      requires sources == None || sources == Some(cfg.sources)
      modifies this
      ensures sources == None
      ensures batch == if old(sources) == None then None
                       else Some(FirstSeen(PeersOfSources(cfg, |cfg.sources|)))
    {
      if sources.None? {
        return None;
      }
      var taken := sources.value;
      sources := None;
      var seen: set<PeerKey> := {};
      var rows: seq<PeerRow> := [];
      ghost var observed: seq<PeerRow> := [];
      for i := 0 to |taken|
        invariant sources == None
        invariant observed == PeersOfSources(cfg, i)
        invariant rows == FirstSeen(observed) && seen == Keys(observed)
      {
        seen, rows := EnumerateSource(i, seen, rows, observed);
        observed := observed + SourcePeers(cfg, i);
      }
      return Some(rows);
    }

    method EnumerateSource(i: nat, seen0: set<PeerKey>, rows0: seq<PeerRow>, ghost observed0: seq<PeerRow>)
      returns (seen: set<PeerKey>, rows: seq<PeerRow>)
      requires i < |cfg.sources|
      requires rows0 == FirstSeen(observed0) && seen0 == Keys(observed0)
      ensures rows == FirstSeen(observed0 + SourcePeers(cfg, i))
      ensures seen == Keys(observed0 + SourcePeers(cfg, i))
    {
      hide FirstSeen, Keys, FramesFrom, ParseAt, PeersOf, FeedRecord;
      var stream := new ByteStream(cfg.sources[i].data, c => chunk(i, c));
      var reader := new CountingReader(stream);
      var decoder := new Decoder();
      seen, rows := seen0, rows0;
      ghost var fs := FramesOf(cfg, i);
      ghost var k := 0;
      ghost var fail := FirstFailure(fs, 0);
      assert observed0 + [] == observed0;
      while true
        invariant reader.Valid() && fresh(reader) && fresh(reader.inner) && fresh(decoder)
        invariant reader.inner.data == cfg.sources[i].data
        invariant k <= fail && reader.inner.pos == Boundary(fs, k)
        invariant decoder.viewName == DecoderAt(fs, k).viewName
        invariant rows == FirstSeen(observed0 + PeersUpTo(fs, k)) && seen == Keys(observed0 + PeersUpTo(fs, k))
        decreases |fs| - k
      {
        NextFrame(i, k);
        var next := NextRecord(cfg.fmt, reader);
        if !next.Ok? || next.value.None? {
          break;
        }
        var peers := decoder.PeerRows(next.value.value);
        seen, rows := Insert(peers, seen, rows, observed0 + PeersUpTo(fs, k));
        assert observed0 + PeersUpTo(fs, k) + peers == observed0 + PeersUpTo(fs, k + 1);
        ViewNamesAgree(DecoderAt(fs, k), fs[k].outcome.value);
        k := k + 1;
      }
    }

    /** Up to the first failure, parsing finds the next good frame, or stops the enumeration. */
    lemma NextFrame(i: nat, k: nat)
      requires i < |cfg.sources| && k <= FirstFailure(FramesOf(cfg, i), 0)
      ensures var fs := FramesOf(cfg, i);
              var fail := FirstFailure(fs, 0);
              Boundary(fs, k) <= |cfg.sources[i].data| &&
              var next := NextOutcome(ParseAt(cfg.fmt, cfg.sources[i].data, Boundary(fs, k)).outcome);
              if k < fail then
                ParseAt(cfg.fmt, cfg.sources[i].data, Boundary(fs, k)).end == Boundary(fs, k + 1) &&
                fs[k].outcome.Ok? && next == Ok(Some(fs[k].outcome.value))
              else next.Err? || next.value.None?
    {
      ParseAtBoundary(cfg.fmt, cfg.sources[i].data, k);
    }

    method Insert(peers: seq<PeerRow>, seen0: set<PeerKey>, rows0: seq<PeerRow>, ghost observed: seq<PeerRow>)
      returns (seen: set<PeerKey>, rows: seq<PeerRow>)
      requires rows0 == FirstSeen(observed) && seen0 == Keys(observed)
      ensures rows == FirstSeen(observed + peers) && seen == Keys(observed + peers)
    {
      hide FirstSeen, Keys;
      seen, rows := seen0, rows0;
      assert observed + peers[..0] == observed;
      for j := 0 to |peers|
        invariant rows == FirstSeen(observed + peers[..j]) && seen == Keys(observed + peers[..j])
      {
        var p := peers[j];
        SeenStep(observed + peers[..j], p);
        assert observed + peers[..j + 1] == observed + peers[..j] + [p];
        if Key(p) !in seen {
          seen := seen + {Key(p)};
          rows := rows + [p];
        }
      }
      assert peers[..|peers|] == peers;
    }
  }

  // ----- Which peers are enumerated -----

  /** The frame's record names the peer: it is a BGP4MP message or state change of that peer, whatever
      its routes, or a table with an entry for it. */
  ghost predicate Mentions(f: Frame, key: PeerKey) {
    f.outcome.Ok? &&
    match f.outcome.value.message
    case PeerIndex(table) => exists e :: e in table.peers && (e.peer.ip, e.peer.asn) == key
    case Bgp4MpMessage(peer, _) => (peer.ip, peer.asn) == key
    case Bgp4MpStateChange(peer, _, _) => (peer.ip, peer.asn) == key
    case Rib(_, _) => false
    case Foreign(_) => false
  }

  /** The collector is the view name of the latest table at or before frame `j`, or none. */
  ghost predicate IsCollector(fs: seq<Frame>, j: nat, collector: Option<string>)
    requires j < |fs|
  {
    if forall t :: 0 <= t <= j ==> !IsTable(fs[t]) then collector.None?
    else exists t: nat :: LatestTable(fs, j + 1, t) && IsViewName(collector, fs[t])
  }

  lemma FrameMentions(fs: seq<Frame>, j: nat, key: PeerKey)
    requires j < |fs|
    ensures var peers := FramePeers(DecoderAt(fs, j).viewName, fs[j]);
            (key in Keys(peers) <==> Mentions(fs[j], key)) &&
            forall p :: p in peers ==> p.collector == DecoderAt(fs, j + 1).viewName
  {
    var viewName := DecoderAt(fs, j).viewName;
    var peers := FramePeers(viewName, fs[j]);
    if Mentions(fs[j], key) {
      var record := fs[j].outcome.value;
      if record.message.PeerIndex? {
        var e :| e in record.message.table.peers && (e.peer.ip, e.peer.asn) == key;
        TableListsPeer(viewName, record, e);
      } else {
        assert peers[0] in peers;
      }
    }
  }

  lemma CollectorAt(fs: seq<Frame>, j: nat)
    requires j < |fs|
    ensures IsCollector(fs, j, DecoderAt(fs, j + 1).viewName)
  {
    hide DecoderAt;
    if forall t :: 0 <= t <= j ==> !IsTable(fs[t]) {
      DecoderHistory(fs, j + 1, 0);
    } else {
      var t := LatestTableExists(fs, j + 1);
      DecoderHistory(fs, j + 1, t);
    }
  }

  lemma {:induction false} KeysUpTo(fs: seq<Frame>, k: nat, key: PeerKey)
    requires k <= |fs|
    ensures key in Keys(PeersUpTo(fs, k)) <==> exists j :: 0 <= j < k && Mentions(fs[j], key)
  {
    hide Keys, Mentions, FramePeers, DecoderAt;
    if k == 0 {
      assert Keys([]) == {} by { KeysOfNone(); }
    } else {
      KeysUpTo(fs, k - 1, key);
      FrameMentions(fs, k - 1, key);
      KeysOfConcat(PeersUpTo(fs, k - 1), FramePeers(DecoderAt(fs, k - 1).viewName, fs[k - 1]));
    }
  }

  lemma KeysOfNone()
    ensures Keys([]) == {}
  {
  }

  /** Frame `j` of source `i` is enumerated and names the peer. */
  ghost predicate MentionedAt(cfg: Config, i: nat, j: nat, key: PeerKey) {
    i < |cfg.sources| && j < FirstFailure(FramesOf(cfg, i), 0) && Mentions(FramesOf(cfg, i)[j], key)
  }

  lemma {:induction false} KeysOfSources(cfg: Config, n: nat, key: PeerKey)
    requires n <= |cfg.sources|
    ensures key in Keys(PeersOfSources(cfg, n)) <==> exists i: nat, j: nat :: i < n && MentionedAt(cfg, i, j, key)
  {
    hide Keys, Mentions, FramesFrom, PeersUpTo;
    if n == 0 {
      KeysOfNone();
    } else {
      var fs := FramesOf(cfg, n - 1);
      KeysOfSources(cfg, n - 1, key);
      KeysUpTo(fs, FirstFailure(fs, 0), key);
      KeysOfConcat(PeersOfSources(cfg, n - 1), SourcePeers(cfg, n - 1));
      if key in Keys(SourcePeers(cfg, n - 1)) {
        var j :| 0 <= j < FirstFailure(fs, 0) && Mentions(fs[j], key);
        assert MentionedAt(cfg, n - 1, j, key);
      }
    }
  }

  lemma {:induction false} NewlySeen(a: seq<PeerRow>, b: seq<PeerRow>, p: PeerRow)
    requires p in FirstSeen(a + b)
    ensures p in FirstSeen(a) || (p in b && Key(p) !in Keys(a))
    decreases |b|
  {
    hide Keys, FirstSeen;
    if |b| == 0 {
      assert a + b == a;
    } else {
      var init, last := b[..|b| - 1], b[|b| - 1];
      assert a + b == a + init + [last];
      SeenStep(a + init, last);
      if p in FirstSeen(a + init) {
        NewlySeen(a, init, p);
      } else {
        KeysOfConcat(a, init);
      }
    }
  }

  /** Frame `j` of source `i` is the first that names `p`, and `p` shows it and its collector. */
  ghost predicate FirstMention(cfg: Config, i: nat, j: nat, p: PeerRow) {
    MentionedAt(cfg, i, j, (p.peerIp, p.peerAsn)) && IsCollector(FramesOf(cfg, i), j, p.collector) &&
    forall i': nat, j': nat :: i' < i || (i' == i && j' < j) ==> !MentionedAt(cfg, i', j', (p.peerIp, p.peerAsn))
  }

  lemma {:induction false} FirstInSource(cfg: Config, i: nat, k: nat, p: PeerRow) returns (j: nat)
    requires i < |cfg.sources| && k <= FirstFailure(FramesOf(cfg, i), 0)
    requires p in FirstSeen(PeersOfSources(cfg, i) + PeersUpTo(FramesOf(cfg, i), k))
    requires p !in FirstSeen(PeersOfSources(cfg, i))
    ensures FirstMention(cfg, i, j, p)
  {
    hide Keys, Mentions, FramesFrom, FramePeers, FirstSeen, DecoderAt, IsCollector;
    var fs, before := FramesOf(cfg, i), PeersOfSources(cfg, i);
    assert before + [] == before;
    if k > 0 {
      var so := before + PeersUpTo(fs, k - 1);
      var peers := FramePeers(DecoderAt(fs, k - 1).viewName, fs[k - 1]);
      assert before + PeersUpTo(fs, k) == so + peers;
      if p in FirstSeen(so) {
        j := FirstInSource(cfg, i, k - 1, p);
      } else {
        j := k - 1;
        NewlySeen(so, peers, p);
        FirstIsMention(cfg, i, j, p);
      }
    }
  }

  lemma FirstIsMention(cfg: Config, i: nat, j: nat, p: PeerRow)
    requires i < |cfg.sources| && j < FirstFailure(FramesOf(cfg, i), 0)
    requires p in FramePeers(DecoderAt(FramesOf(cfg, i), j).viewName, FramesOf(cfg, i)[j])
    requires Key(p) !in Keys(PeersOfSources(cfg, i) + PeersUpTo(FramesOf(cfg, i), j))
    ensures FirstMention(cfg, i, j, p)
  {
    hide Mentions, FramesFrom, FramePeers, FirstSeen, DecoderAt, IsCollector;
    var fs, key := FramesOf(cfg, i), Key(p);
    FrameMentions(fs, j, key);
    assert key in Keys(FramePeers(DecoderAt(fs, j).viewName, fs[j]));
    hide Keys;
    CollectorAt(fs, j);
    KeysOfConcat(PeersOfSources(cfg, i), PeersUpTo(fs, j));
    KeysOfSources(cfg, i, key);
    KeysUpTo(fs, j, key);
  }

  lemma {:induction false} EnumeratedFirst(cfg: Config, n: nat, p: PeerRow)
    requires n <= |cfg.sources| && p in FirstSeen(PeersOfSources(cfg, n))
    ensures exists i: nat, j: nat :: FirstMention(cfg, i, j, p)
  {
    hide Keys, FramesFrom, FirstSeen, FirstMention, PeersUpTo;
    if n == 0 {
      NoneSeen();
    } else if p in FirstSeen(PeersOfSources(cfg, n - 1)) {
      EnumeratedFirst(cfg, n - 1, p);
    } else {
      var j := FirstInSource(cfg, n - 1, FirstFailure(FramesOf(cfg, n - 1), 0), p);
    }
  }

  lemma NoneSeen()
    ensures FirstSeen([]) == []
  {
  }

  /** The enumeration holds a peer's address and ASN if and only if some record before its source's
      first failure names it -- a message or state change of the peer, whatever its routes, or a table
      entry -- and its one row shows the collector of the first such record. */
  lemma EnumerationExact(cfg: Config)
    ensures var out := FirstSeen(PeersOfSources(cfg, |cfg.sources|));
            (forall i: nat, j: nat, key :: MentionedAt(cfg, i, j, key) ==>
              exists p :: p in out && (p.peerIp, p.peerAsn) == key) &&
            (forall p :: p in out ==> exists i: nat, j: nat :: FirstMention(cfg, i, j, p)) &&
            forall a, b :: 0 <= a < b < |out| ==> (out[a].peerIp, out[a].peerAsn) != (out[b].peerIp, out[b].peerAsn)
  {
    hide FramesFrom, FirstSeen, FirstMention, MentionedAt, PeersOfSources;
    var all := PeersOfSources(cfg, |cfg.sources|);
    FirstSeenMeaning(all);
    forall i: nat, j: nat, key | MentionedAt(cfg, i, j, key)
      ensures exists p :: p in FirstSeen(all) && (p.peerIp, p.peerAsn) == key
    {
      MentionedIsKey(cfg, i, j, key);
      assert key in Keys(FirstSeen(all));
    }
    forall p | p in FirstSeen(all)
      ensures exists i: nat, j: nat :: FirstMention(cfg, i, j, p)
    {
      EnumeratedFirst(cfg, |cfg.sources|, p);
    }
  }

  lemma MentionedIsKey(cfg: Config, i: nat, j: nat, key: PeerKey)
    requires MentionedAt(cfg, i, j, key)
    ensures key in Keys(PeersOfSources(cfg, |cfg.sources|))
  {
    KeysOfSources(cfg, |cfg.sources|, key);
  }

  // ----- Agreement with the scan -----

  lemma {:induction false} PeersUpToContains(fs: seq<Frame>, j: nat, k: nat, p: PeerRow)
    requires j < k <= |fs| && p in FramePeers(DecoderAt(fs, j).viewName, fs[j])
    ensures p in PeersUpTo(fs, k)
  {
    if j < k - 1 {
      PeersUpToContains(fs, j, k - 1, p);
    }
  }

  lemma {:induction false} SourcePeersContained(cfg: Config, i: nat, n: nat, p: PeerRow)
    requires i < n <= |cfg.sources| && p in SourcePeers(cfg, i)
    ensures p in PeersOfSources(cfg, n)
  {
    hide SourcePeers;
    if i < n - 1 {
      SourcePeersContained(cfg, i, n - 1, p);
    }
  }

  ghost predicate NamesPeer(r: MrtRow, p: PeerRow) {
    r.peerIp == Some(p.peerIp) && r.peerAsn == Some(p.peerAsn)
  }

  /** The row's peer is one of the peers its own record enumerates, unless it is a RIB row. */
  lemma RecordNamesItsPeer(dec: DecoderState, record: MrtRecord, r: MrtRow)
    requires r in RowsOf(dec, record) && !record.message.Foreign? && !record.message.Rib?
    ensures exists p :: p in PeersOf(dec.viewName, record) && NamesPeer(r, p)
  {
    var peer := record.message.peer;
    var p := PeerRow(peer.ip, peer.asn, dec.viewName);
    assert p in PeersOf(dec.viewName, record) && NamesPeer(r, p);
  }

  lemma TableListsPeer(viewName: Option<string>, record: MrtRecord, e: IndexedPeer)
    requires record.message.PeerIndex? && e in record.message.table.peers
    ensures PeerRow(e.peer.ip, e.peer.asn, NonEmptyName(record.message.table.viewName)) in PeersOf(viewName, record)
  {
    var i :| 0 <= i < |record.message.table.peers| && record.message.table.peers[i] == e;
    var rows := PeersOf(viewName, record);
    assert rows[i] == PeerRow(e.peer.ip, e.peer.asn, NonEmptyName(record.message.table.viewName));
  }

  /** Up to the first failure of a source, every scanned row of a record other than `Foreign` names an
      enumerated peer: its own record's, or for a RIB row one of the table it was resolved against. */
  lemma RowNamesPeer(name: string, fs: seq<Frame>, k: nat, n: nat, r: MrtRow)
    requires k < n <= |fs| && fs[k].outcome.Ok? && !fs[k].outcome.value.message.Foreign?
    requires r in RowsAt(name, fs, k)
    ensures exists p :: p in PeersUpTo(fs, n) && NamesPeer(r, p)
  {
    var record := fs[k].outcome.value;
    if record.message.Rib? {
      var j, e := RibRowHistory(name, fs, k, r);
      var table := fs[j].outcome.value;
      TableListsPeer(DecoderAt(fs, j).viewName, table, e);
      PeersUpToContains(fs, j, n, PeerRow(e.peer.ip, e.peer.asn, NonEmptyName(table.message.table.viewName)));
      assert NamesPeer(r, PeerRow(e.peer.ip, e.peer.asn, NonEmptyName(table.message.table.viewName)));
    } else {
      RecordNamesItsPeer(DecoderAt(fs, k), record, r);
      var p :| p in PeersOf(DecoderAt(fs, k).viewName, record) && NamesPeer(r, p);
      PeersUpToContains(fs, k, n, p);
    }
  }

  lemma {:induction false} RowsBetweenMember(name: string, fs: seq<Frame>, a: nat, b: nat, r: MrtRow) returns (k: nat)
    requires a <= b <= |fs| && r in RowsBetween(name, fs, a, b)
    ensures a <= k < b && r in RowsAt(name, fs, k)
    decreases b - a
  {
    hide RowsAt;
    if r in RowsAt(name, fs, a) {
      k := a;
    } else {
      k := RowsBetweenMember(name, fs, a + 1, b, r);
    }
  }

  lemma {:induction false} LaterRowsMember(cfg: Config, i: nat, r: MrtRow) returns (j: nat)
    requires r in LaterRows(cfg, i)
    ensures i <= j < |cfg.sources| && r in SourceRows(cfg, j)
    decreases |cfg.sources| - i
  {
    hide SourceRows;
    if r in SourceRows(cfg, i) {
      j := i;
    } else {
      j := LaterRowsMember(cfg, i + 1, r);
    }
  }

  /** Every frame decodes, as a TABLE_DUMP_V2 or BGP4MP record. */
  ghost predicate AllPeerRecords(fs: seq<Frame>) {
    forall k :: 0 <= k < |fs| ==> fs[k].outcome.Ok? && !fs[k].outcome.value.message.Foreign?
  }

  /** Over error-free TABLE_DUMP_V2 / BGP4MP sources, the peer of every scanned row is enumerated. */
  lemma PeersCoverScan(cfg: Config, r: MrtRow)
    requires forall i :: 0 <= i < |cfg.sources| ==> AllPeerRecords(FramesOf(cfg, i))
    requires r in LaterRows(cfg, 0)
    ensures r.peerIp.Some? && r.peerAsn.Some?
    ensures (r.peerIp.value, r.peerAsn.value) in Keys(FirstSeen(PeersOfSources(cfg, |cfg.sources|)))
  {
    hide FramesFrom, RowsAt, PeersOf;
    var i := LaterRowsMember(cfg, 0, r);
    var fs := FramesOf(cfg, i);
    var k := RowsBetweenMember(cfg.sources[i].name, fs, 0, |fs|, r);
    assert AllPeerRecords(fs);
    assert FirstFailure(fs, 0) == |fs|;
    RowNamesPeer(cfg.sources[i].name, fs, k, |fs|, r);
    var p :| p in PeersUpTo(fs, |fs|) && NamesPeer(r, p);
    SourcePeersContained(cfg, i, |cfg.sources|, p);
    FirstSeenKeys(PeersOfSources(cfg, |cfg.sources|));
    assert Key(p) in Keys(PeersOfSources(cfg, |cfg.sources|));
  }
}

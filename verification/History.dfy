/** Where a row's view name and peer come from: the latest tables earlier in the same source. */
module History {
  import opened Wrappers
  import opened Mrt
  import opened Framing
  import opened Decode
  import opened Scan

  ghost predicate IsTable(f: Frame) {
    f.outcome.Ok? && f.outcome.value.message.PeerIndex?
  }

  /** The view name a table sets: its own, or none if that is empty. */
  ghost predicate IsViewName(viewName: Option<string>, f: Frame)
    requires IsTable(f)
  {
    var name := f.outcome.value.message.table.viewName;
    if name == "" then viewName.None? else viewName == Some(name)
  }

  ghost predicate IsUsableTable(f: Frame) {
    IsTable(f) && f.outcome.value.message.table.usable
  }

  ghost predicate LatestTable(fs: seq<Frame>, k: nat, j: nat) {
    j < k <= |fs| && IsTable(fs[j]) && forall i :: j < i < k ==> !IsTable(fs[i])
  }

  ghost predicate LatestUsableTable(fs: seq<Frame>, k: nat, j: nat) {
    j < k <= |fs| && IsUsableTable(fs[j]) && forall i :: j < i < k ==> !IsUsableTable(fs[i])
  }

  /** The view name is that of the latest PEER_INDEX_TABLE before frame `k`, an empty name counting as
      absent; the peers are those of the latest one the elementor accepted. Before any, there are none. */
  lemma {:induction false} DecoderHistory(fs: seq<Frame>, k: nat, j: nat)
    requires k <= |fs|
    ensures LatestTable(fs, k, j) ==> IsViewName(DecoderAt(fs, k).viewName, fs[j])
    ensures (forall i :: 0 <= i < k ==> !IsTable(fs[i])) ==> DecoderAt(fs, k).viewName == None
    ensures LatestUsableTable(fs, k, j) ==> DecoderAt(fs, k).peers == fs[j].outcome.value.message.table.peers
    ensures (forall i :: 0 <= i < k ==> !IsUsableTable(fs[i])) ==> DecoderAt(fs, k).peers == []
  {
    if k > 0 {
      DecoderHistory(fs, k - 1, j);
    }
  }

  lemma {:induction false} LatestTableExists(fs: seq<Frame>, k: nat) returns (j: nat)
    requires k <= |fs| && exists i :: 0 <= i < k && IsTable(fs[i])
    ensures LatestTable(fs, k, j)
  {
    if IsTable(fs[k - 1]) {
      j := k - 1;
    } else {
      j := LatestTableExists(fs, k - 1);
    }
  }

  lemma {:induction false} LatestUsableExists(fs: seq<Frame>, k: nat) returns (j: nat)
    requires k <= |fs| && DecoderAt(fs, k).peers != []
    ensures LatestUsableTable(fs, k, j)
  {
    if k > 0 && IsUsableTable(fs[k - 1]) {
      j := k - 1;
    } else {
      assert k > 0;
      j := LatestUsableExists(fs, k - 1);
    }
  }

  // ----- The rows of one record -----

  /** The row shows the route `peer` announced or withdrew, every attribute in its own column. */
  ghost predicate ShowsRoute(r: MrtRow, micros: int, viewName: Option<string>, peer: Peer, route: Route) {
    r.timestampUs == micros && r.viewName == viewName && r.error.None? &&
    r.msgType == Some(if route.elemType == ANNOUNCE then Announce else Withdraw) &&
    r.peerIp == Some(peer.ip) && r.peerAsn == Some(peer.asn) && r.prefix == Some(route.prefix) &&
    r.asPath == route.attrs.asPath && r.originAsn == route.attrs.originAsn && r.nextHop == route.attrs.nextHop &&
    r.communities == route.attrs.communities && r.med == route.attrs.med && r.localPref == route.attrs.localPref &&
    r.atomicAggregate == route.attrs.atomic && r.aggregatorAsn == route.attrs.aggregatorAsn &&
    r.oldState.None? && r.newState.None?
  }

  /** `elems` are the entries at the places `at` below `n`, in order: exactly the places that resolve. */
  ghost predicate ResolvedInOrder(
      peers: seq<IndexedPeer>, prefix: (IpAddr, nat), entries: seq<RibEntry>, n: nat, elems: seq<BgpElem>, at: seq<nat>)
    requires n <= |entries|
  {
    |at| == |elems| &&
    (forall i :: 0 <= i < |at| ==>
      at[i] < n &&
      LookupPeer(peers, entries[at[i]].peerIndex) == Some(elems[i].peer) &&
      elems[i].route == Route(ANNOUNCE, prefix, entries[at[i]].attrs)) &&
    (forall i, j :: 0 <= i < j < |at| ==> at[i] < at[j]) &&
    (forall p: nat :: p < n && LookupPeer(peers, entries[p].peerIndex).Some? ==> p in at)
  }

  lemma {:induction false} RibElemsInOrder(
      peers: seq<IndexedPeer>, prefix: (IpAddr, nat), entries: seq<RibEntry>, n: nat)
    returns (at: seq<nat>)
    requires n <= |entries|
    ensures ResolvedInOrder(peers, prefix, entries, n, RibElems(peers, prefix, entries, n), at)
  {
    hide LookupPeer;
    if n == 0 {
      at := [];
    } else {
      at := RibElemsInOrder(peers, prefix, entries, n - 1);
      if LookupPeer(peers, entries[n - 1].peerIndex).Some? {
        at := at + [n - 1];
      }
    }
  }

  /** `rows` show, in order, exactly the entries of a RIB record whose index `peers` resolves. */
  ghost predicate ShowsResolved(
      peers: seq<IndexedPeer>, viewName: Option<string>, record: MrtRecord, rows: seq<MrtRow>, at: seq<nat>)
    requires record.message.Rib?
  {
    var entries, prefix := record.message.entries, record.message.prefix;
    |at| == |rows| &&
    (forall i :: 0 <= i < |at| ==>
      at[i] < |entries| &&
      LookupPeer(peers, entries[at[i]].peerIndex).Some? &&
      ShowsRoute(rows[i], record.header.elemMicros, viewName,
                 LookupPeer(peers, entries[at[i]].peerIndex).value, Route(ANNOUNCE, prefix, entries[at[i]].attrs))) &&
    (forall i, j :: 0 <= i < j < |at| ==> at[i] < at[j]) &&
    (forall p: nat :: p < |entries| && LookupPeer(peers, entries[p].peerIndex).Some? ==> p in at)
  }

  /** The rows of a RIB record: its entries, in order, that the table in force resolves, with the peer
      found there; an entry that does not resolve yields none. */
  lemma RibRows(dec: DecoderState, record: MrtRecord)
    requires record.message.Rib?
    ensures exists at :: ShowsResolved(dec.peers, dec.viewName, record, RowsOf(dec, record), at)
  {
    var at := RibElemsInOrder(dec.peers, record.message.prefix, record.message.entries, |record.message.entries|);
    assert ShowsResolved(dec.peers, dec.viewName, record, RowsOf(dec, record), at);
  }

  /** The row shows the state change, every other column empty. */
  ghost predicate ShowsChange(r: MrtRow, record: MrtRecord, viewName: Option<string>)
    requires record.message.Bgp4MpStateChange?
  {
    var peer, header := record.message.peer, record.header;
    r.timestampUs == 1_000_000 * header.timestamp + (match header.microseconds case Some(us) => us case None => 0) &&
    r.msgType == Some(StateChanged) && r.viewName == viewName &&
    r.peerIp == Some(peer.ip) && r.peerAsn == Some(peer.asn) &&
    r.oldState == Some(record.message.oldState) && r.newState == Some(record.message.newState) &&
    r.prefix.None? && NoAttributes(r) && r.error.None?
  }

  ghost predicate NoAttributes(r: MrtRow) {
    r.asPath.None? && r.originAsn.None? && r.nextHop.None? && r.communities.None? && r.med.None? &&
    r.localPref.None? && !r.atomicAggregate && r.aggregatorAsn.None?
  }

  /** The row shows an error and nothing else. */
  ghost predicate ShowsError(r: MrtRow, text: string) {
    r.error == Some(text) && r.timestampUs == 0 && r.msgType.None? && r.viewName.None? &&
    r.peerIp.None? && r.peerAsn.None? && r.prefix.None? && NoAttributes(r) && r.oldState.None? && r.newState.None?
  }

  /** `rows` show the record to a decoder in state `dec`: a RIB record's resolved entries, a message's
      routes, a state change, or the elements of another record, in order, each in one row; a table in
      none. */
  ghost predicate ShowsRecord(dec: DecoderState, record: MrtRecord, rows: seq<MrtRow>) {
    var micros := record.header.elemMicros;
    match record.message
    case PeerIndex(_) => |rows| == 0
    case Rib(_, _) => exists at :: ShowsResolved(dec.peers, dec.viewName, record, rows, at)
    case Bgp4MpMessage(peer, routes) =>
      |rows| == |routes| &&
      forall i :: 0 <= i < |rows| ==> ShowsRoute(rows[i], micros, dec.viewName, peer, routes[i])
    case Bgp4MpStateChange(_, _, _) => |rows| == 1 && ShowsChange(rows[0], record, dec.viewName)
    case Foreign(elems) =>
      |rows| == |elems| &&
      forall i :: 0 <= i < |rows| ==> ShowsRoute(rows[i], micros, dec.viewName, elems[i].peer, elems[i].route)
  }

  /** The rows of a frame show its record, whatever its kind, to the decoder fed with the frames before
      it; those of a frame without a record are one row with the error alone. */
  lemma FrameRows(name: string, fs: seq<Frame>, k: nat)
    requires k < |fs|
    ensures var rows := RowsAt(name, fs, k);
            match fs[k].outcome
            case Ok(record) => ShowsRecord(DecoderAt(fs, k), record, rows)
            case Err(err) => |rows| == 1 && ShowsError(rows[0], name + ": " + Display(err))
  {
    hide DecoderAt;
    if fs[k].outcome.Ok? && fs[k].outcome.value.message.Rib? {
      RibRows(DecoderAt(fs, k), fs[k].outcome.value);
    }
  }

  // ----- Reading elements back from rows -----

  /** The element that a row's columns name. */
  function ReadElem(r: MrtRow): Option<BgpElem> {
    if r.msgType.None? || r.peerIp.None? || r.peerAsn.None? || r.prefix.None? then None
    else
      var attrs := Attributes(r.asPath, r.originAsn, r.nextHop, r.communities, r.med, r.localPref,
                              r.atomicAggregate, r.aggregatorAsn);
      var peer := Peer(r.peerIp.value, r.peerAsn.value);
      match r.msgType.value
      case Announce => Some(BgpElem(peer, Route(ANNOUNCE, r.prefix.value, attrs)))
      case Withdraw => Some(BgpElem(peer, Route(WITHDRAW, r.prefix.value, attrs)))
      case StateChanged => None
  }

  function ReadElems(rows: seq<MrtRow>): seq<BgpElem> {
    if |rows| == 0 then []
    else
      var first := ReadElem(rows[0]);
      (if first.Some? then [first.value] else []) + ReadElems(rows[1..])
  }

  lemma {:induction false} ReadAll(rows: seq<MrtRow>, elems: seq<BgpElem>)
    requires |rows| == |elems|
    requires forall i :: 0 <= i < |rows| ==> ReadElem(rows[i]) == Some(elems[i])
    ensures ReadElems(rows) == elems
  {
    if |rows| > 0 {
      ReadAll(rows[1..], elems[1..]);
      assert elems == [elems[0]] + elems[1..];
    }
  }

  /** The columns of a record's rows determine its elements. Reading them back gives, in order, the
      routes of a message, each with the message's peer; the entries of a RIB record that the table in
      force resolves; the elements of a record of another kind; and nothing for a table or state change. */
  lemma ElemsReadBack(dec: DecoderState, record: MrtRecord)
    ensures var read := ReadElems(RowsOf(dec, record));
            match record.message
            case PeerIndex(_) => read == []
            case Rib(prefix, entries) =>
              exists at :: ResolvedInOrder(dec.peers, prefix, entries, |entries|, read, at)
            case Bgp4MpMessage(peer, routes) =>
              |read| == |routes| && forall i :: 0 <= i < |read| ==> read[i] == BgpElem(peer, routes[i])
            case Bgp4MpStateChange(_, _, _) => read == []
            case Foreign(elems) => read == elems
  {
    hide RibElems;
    var rows := RowsOf(dec, record);
    if record.message.Bgp4MpStateChange? {
      assert rows[1..] == [];
    } else if !record.message.PeerIndex? {
      ReadAll(rows, RecordToElems(dec.peers, record.message));
    }
    if record.message.Rib? {
      var entries := record.message.entries;
      var at := RibElemsInOrder(dec.peers, record.message.prefix, entries, |entries|);
    }
  }

  lemma RowOfRecord(dec: DecoderState, record: MrtRecord, r: MrtRow)
    requires r in RowsOf(dec, record)
    ensures r.viewName == dec.viewName && r.error.None?
  {
  }

  /** The view name of every decoded row is that of the latest PEER_INDEX_TABLE before its frame in the
      same source, an empty name counting as absent; without a table before it, the row has none. */
  lemma RowViewName(name: string, fs: seq<Frame>, k: nat, r: MrtRow)
    requires k < |fs| && fs[k].outcome.Ok? && r in RowsAt(name, fs, k)
    ensures r.error.None?
    ensures if forall i :: 0 <= i < k ==> !IsTable(fs[i]) then r.viewName == None
            else exists j: nat :: LatestTable(fs, k, j) && IsViewName(r.viewName, fs[j])
  {
    RowOfRecord(DecoderAt(fs, k), fs[k].outcome.value, r);
    if forall i :: 0 <= i < k ==> !IsTable(fs[i]) {
      DecoderHistory(fs, k, 0);
    } else {
      var j := LatestTableExists(fs, k);
      DecoderHistory(fs, k, j);
    }
  }

  /** The peer of a RIB row is in the latest accepted table earlier in the same source. */
  lemma RibRowHistory(name: string, fs: seq<Frame>, k: nat, r: MrtRow) returns (j: nat, e: IndexedPeer)
    requires k < |fs| && fs[k].outcome.Ok? && fs[k].outcome.value.message.Rib? && r in RowsAt(name, fs, k)
    ensures LatestUsableTable(fs, k, j) && e in fs[j].outcome.value.message.table.peers
    ensures r.peerIp == Some(e.peer.ip) && r.peerAsn == Some(e.peer.asn)
  {
    var record, dec := fs[k].outcome.value, DecoderAt(fs, k);
    RibRows(dec, record);
    var at :| ShowsResolved(dec.peers, dec.viewName, record, RowsOf(dec, record), at);
    var i :| 0 <= i < |at| && RowsOf(dec, record)[i] == r;
    var entry := record.message.entries[at[i]];
    e := IndexedPeer(entry.peerIndex, LookupPeer(dec.peers, entry.peerIndex).value);
    j := LatestUsableExists(fs, k);
    DecoderHistory(fs, k, j);
  }
}

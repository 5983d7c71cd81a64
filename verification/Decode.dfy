/** The stateful record decoder: rows and peers of a record, given what the stream said before. */
module Decode {
  import opened Wrappers
  import opened Mrt

  /** The decoder's state: the elementor's peer table and the current RIB view name. */
  datatype DecoderState = DecoderState(peers: seq<IndexedPeer>, viewName: Option<string>)

  const FRESH := DecoderState([], None)

  function NonEmptyName(name: string): Option<string> {
    if name == "" then None else Some(name)
  }

  function LookupPeer(peers: seq<IndexedPeer>, id: nat): (p: Option<Peer>)
    ensures p.Some? ==> IndexedPeer(id, p.value) in peers
    ensures p.None? ==> forall e :: e in peers ==> e.id != id
  {
    if |peers| == 0 then None
    else if peers[0].id == id then Some(peers[0].peer)
    else LookupPeer(peers[1..], id)
  }

  /** The elements of the first `n` entries of a RIB record: an entry whose peer does not resolve
      yields none. */
  function RibElems(peers: seq<IndexedPeer>, prefix: (IpAddr, nat), entries: seq<RibEntry>, n: nat): seq<BgpElem>
    requires n <= |entries|
  {
    if n == 0 then []
    else
      var before := RibElems(peers, prefix, entries, n - 1);
      var peer := LookupPeer(peers, entries[n - 1].peerIndex);
      if peer.None? then before
      else before + [BgpElem(peer.value, Route(ANNOUNCE, prefix, entries[n - 1].attrs))]
  }

  function RecordToElems(peers: seq<IndexedPeer>, message: Message): seq<BgpElem> {
    match message
    case Rib(prefix, entries) => RibElems(peers, prefix, entries, |entries|)
    case Bgp4MpMessage(peer, routes) =>
      seq(|routes|, i requires 0 <= i < |routes| => BgpElem(peer, routes[i]))
    case Foreign(elems) => elems
    case PeerIndex(_) => []
    case Bgp4MpStateChange(_, _, _) => []
  }

  function RowFromElem(micros: int, elem: BgpElem, viewName: Option<string>): MrtRow {
    var attrs := elem.route.attrs;
    MrtRow(micros,
           Some(match elem.route.elemType case ANNOUNCE => Announce case WITHDRAW => Withdraw),
           viewName, Some(elem.peer.ip), Some(elem.peer.asn), Some(elem.route.prefix),
           attrs.asPath, attrs.originAsn, attrs.nextHop, attrs.communities, attrs.med, attrs.localPref,
           attrs.atomic, attrs.aggregatorAsn, None, None, None)
  }

  /** The rows of one record for a decoder in state `dec`. */
  function RowsOf(dec: DecoderState, record: MrtRecord): seq<MrtRow> {
    match record.message
    case PeerIndex(_) => []
    case Bgp4MpStateChange(peer, oldState, newState) =>
      var micros := if record.header.microseconds.Some? then record.header.microseconds.value else 0;
      [EMPTY_ROW.(timestampUs := record.header.timestamp * 1_000_000 + micros,
                  msgType := Some(StateChanged),
                  viewName := dec.viewName,
                  peerIp := Some(peer.ip),
                  peerAsn := Some(peer.asn),
                  oldState := Some(oldState),
                  newState := Some(newState))]
    case _ =>
      var elems := RecordToElems(dec.peers, record.message);
      seq(|elems|, i requires 0 <= i < |elems| => RowFromElem(record.header.elemMicros, elems[i], dec.viewName))
  }

  /** The decoder after one record: a PEER_INDEX_TABLE sets the view name, and replaces the peer
      table unless the elementor rejects it. */
  function FeedRecord(dec: DecoderState, record: MrtRecord): DecoderState {
    match record.message
    case PeerIndex(table) =>
      DecoderState(if table.usable then table.peers else dec.peers, NonEmptyName(table.viewName))
    case _ => dec
  }

  /** The peers of one record, in the order they are enumerated. */
  function PeersOf(viewName: Option<string>, record: MrtRecord): seq<PeerRow> {
    match record.message
    case PeerIndex(table) =>
      seq(|table.peers|, i requires 0 <= i < |table.peers| =>
        PeerRow(table.peers[i].peer.ip, table.peers[i].peer.asn, NonEmptyName(table.viewName)))
    case Bgp4MpMessage(peer, _) => [PeerRow(peer.ip, peer.asn, viewName)]
    case Bgp4MpStateChange(peer, _, _) => [PeerRow(peer.ip, peer.asn, viewName)]
    case _ => []
  }

  /** Enumerating peers tracks the view name only. */
  function FeedPeers(viewName: Option<string>, record: MrtRecord): Option<string> {
    match record.message
    case PeerIndex(table) => NonEmptyName(table.viewName)
    case _ => viewName
  }

  class Decoder {
    var elementor: seq<IndexedPeer>
    var viewName: Option<string>

    ghost function State(): DecoderState
      reads this
    {
      DecoderState(elementor, viewName)
    }

    constructor ()
      ensures State() == FRESH
    {
      elementor := [];
      viewName := None;
    }

    method RecordRows(record: MrtRecord) returns (rows: seq<MrtRow>)
      modifies this
      ensures rows == RowsOf(old(State()), record)
      ensures State() == FeedRecord(old(State()), record)
    {
      match record.message {
        case PeerIndex(table) =>
          viewName := NonEmptyName(table.viewName);
          if table.usable {
            elementor := table.peers;
          }
          rows := [];
        case Bgp4MpStateChange(peer, oldState, newState) =>
          var micros := if record.header.microseconds.Some? then record.header.microseconds.value else 0;
          rows := [EMPTY_ROW.(timestampUs := record.header.timestamp * 1_000_000 + micros,
                              msgType := Some(StateChanged),
                              viewName := viewName,
                              peerIp := Some(peer.ip),
                              peerAsn := Some(peer.asn),
                              oldState := Some(oldState),
                              newState := Some(newState))];
        case _ =>
          var view := viewName;
          var elems := RecordToElems(elementor, record.message);
          rows := seq(|elems|, i requires 0 <= i < |elems| =>
            RowFromElem(record.header.elemMicros, elems[i], view));
      }
    }

    method PeerRows(record: MrtRecord) returns (rows: seq<PeerRow>)
      modifies `viewName
      ensures rows == PeersOf(old(viewName), record)
      ensures viewName == FeedPeers(old(viewName), record)
    {
      match record.message {
        case PeerIndex(table) =>
          viewName := NonEmptyName(table.viewName);
          var collector := viewName;
          rows := seq(|table.peers|, i requires 0 <= i < |table.peers| =>
            PeerRow(table.peers[i].peer.ip, table.peers[i].peer.asn, collector));
        case Bgp4MpMessage(peer, _) =>
          rows := [PeerRow(peer.ip, peer.asn, viewName)];
        case Bgp4MpStateChange(peer, _, _) =>
          rows := [PeerRow(peer.ip, peer.asn, viewName)];
        case _ =>
          rows := [];
      }
    }
  }
}

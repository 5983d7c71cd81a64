/** The values an MRT stream carries: records, flattened elements, output rows, parse errors. */
module Mrt {
  import opened Bytes
  import opened Wrappers

  type Octets4 = o: seq<byte> | |o| == 4 witness [0, 0, 0, 0]
  type Octets16 = o: seq<byte> | |o| == 16 witness [0, 0, 0, 0, 0, 0, 0, 0, 0, 0, 0, 0, 0, 0, 0, 0]

  datatype IpAddr = V4(octets4: Octets4) | V6(octets16: Octets16)

  datatype MsgType = Announce | Withdraw | StateChanged

  /** One output row. A field is `None` when the record does not carry it. */
  datatype MrtRow = MrtRow(
    timestampUs: int,
    msgType: Option<MsgType>,
    viewName: Option<string>,
    peerIp: Option<IpAddr>,
    peerAsn: Option<nat>,
    prefix: Option<(IpAddr, nat)>,
    asPath: Option<seq<nat>>,
    originAsn: Option<nat>,
    nextHop: Option<IpAddr>,
    communities: Option<seq<string>>,
    med: Option<nat>,
    localPref: Option<nat>,
    atomicAggregate: bool,
    aggregatorAsn: Option<nat>,
    oldState: Option<nat>,
    newState: Option<nat>,
    error: Option<string>)

  const EMPTY_ROW := MrtRow(0, None, None, None, None, None, None, None, None, None, None, None,
                            false, None, None, None, None)

  function ErrorRow(msg: string): MrtRow {
    EMPTY_ROW.(error := Some(msg))
  }

  datatype PeerRow = PeerRow(peerIp: IpAddr, peerAsn: nat, collector: Option<string>)

  datatype Peer = Peer(ip: IpAddr, asn: nat)
  datatype IndexedPeer = IndexedPeer(id: nat, peer: Peer)

  /** A PEER_INDEX_TABLE. `peers` lists the index map in its iteration order;
      `usable` says whether the elementor accepts the table. */
  datatype PeerIndexTable = PeerIndexTable(viewName: string, peers: seq<IndexedPeer>, usable: bool)

  datatype ElemType = ANNOUNCE | WITHDRAW

  datatype Attributes = Attributes(
    asPath: Option<seq<nat>>,
    originAsn: Option<nat>,
    nextHop: Option<IpAddr>,
    communities: Option<seq<string>>,
    med: Option<nat>,
    localPref: Option<nat>,
    atomic: bool,
    aggregatorAsn: Option<nat>)

  datatype Route = Route(elemType: ElemType, prefix: (IpAddr, nat), attrs: Attributes)
  datatype RibEntry = RibEntry(peerIndex: nat, attrs: Attributes)
  datatype BgpElem = BgpElem(peer: Peer, route: Route)

  /** The record body. `Foreign` is every other record kind: its elements name their own peers. */
  datatype Message =
    | PeerIndex(table: PeerIndexTable)
    | Rib(prefix: (IpAddr, nat), entries: seq<RibEntry>)
    | Bgp4MpMessage(peer: Peer, routes: seq<Route>)
    | Bgp4MpStateChange(peer: Peer, oldState: nat, newState: nat)
    | Foreign(elems: seq<BgpElem>)

  /** `elemMicros` stands for the floating-point element time, rounded to microseconds. */
  datatype Header = Header(timestamp: nat, microseconds: Option<nat>, elemMicros: int)

  datatype MrtRecord = MrtRecord(header: Header, message: Message)

  datatype ParserError =
    | IoError(text: string)
    | EofError(text: string)
    | EofExpected
    | ParseError(text: string)

  function Display(err: ParserError): string {
    if err.EofExpected? then "" else err.text
  }

  predicate IsRecoverable(err: ParserError) {
    !(err.IoError? || err.EofError? || err.EofExpected?)
  }

  predicate IsCleanEof(err: ParserError) {
    err.EofExpected?
  }
}

/** The records of client/models.go, with fields as the rest of the client
    uses them, plus the outcome type for the run-time panics Go raises on
    out-of-range indexing and slicing. */
module Models {
  import opened Binary

  datatype Option<T> = None | Some(value: T)

  /** The two Go run-time panics the modelled code can raise. */
  datatype Fault = IndexOutOfRange | SliceOutOfRange

  /** A computation that either finishes or panics. */
  datatype Result<T> = Ok(value: T) | Panic(fault: Fault)

  /** The handshake record: pstrlen, pstr, reserved [8]byte, info hash and
      peer id [20]byte each. */
  datatype Handshake = Handshake(pstrlen: byte, pstr: seq<byte>, reserved: seq<byte>,
                                 infoHash: seq<byte>, peerId: seq<byte>)
  {
    /** The field widths the Go struct fixes: the length byte tells the
        protocol string's length, and the arrays are 8, 20 and 20 bytes. */
    predicate WellSized()
    {
      |pstr| == pstrlen as int && |reserved| == 8 && |infoHash| == 20 && |peerId| == 20
    }
  }

  /** The tracker announce event: none, started, stopped or completed. */
  datatype Event = NoEvent | Started | Stopped | Completed

  /** A client-to-tracker announce request. */
  datatype TrackerRequest = TrackerRequest(
    infoHash: seq<byte>,
    peerId: seq<byte>,
    port: GoInt,
    uploaded: GoInt,
    downloaded: GoInt,
    left: GoInt,
    compact: GoInt,
    event: Event,
    trackerId: string,
    connectionId: seq<byte>,
    transactionId: seq<byte>)

  /** The decoded body of an HTTP tracker reply; `peers` is the compact
      peer string, six bytes per peer. */
  datatype TrackerResponse = TrackerResponse(
    failureReason: string,
    interval: GoInt,
    trackerId: string,
    complete: GoInt,
    incomplete: GoInt,
    peers: seq<byte>)

  /** A swarm participant, with the fields the client reads and writes.
      `bitfield` is None while the Go slice is nil. `choking` is 1 while
      the remote peer chokes us. */
  datatype Peer = Peer(
    peerId: seq<byte>,
    address: string,
    bitfield: Option<seq<int>>,
    interested: int,
    choking: int)

  /** A sub-range of a piece; `data` is empty until the block arrives. */
  datatype Block = Block(offset: int, data: seq<byte>)

  /** One hash-checked chunk of the download. `availablePeers` holds
      positions in the torrent's peer list. */
  datatype Piece = Piece(
    index: int,
    hash: seq<byte>,
    blocks: seq<Block>,
    complete: bool,
    availablePeers: seq<nat>)

  /** The part of the descriptor's info dictionary the core reads: the
      piece length and the concatenated 20-byte piece digests. */
  datatype InfoDictionary = InfoDictionary(pieceLength: GoInt, pieces: seq<byte>)

  /** One `writeToFile(data, offset)` call on the download file. */
  datatype FileWrite = FileWrite(data: seq<byte>, offset: int)

  datatype Protocol = Udp | Tcp

  /** One download: its descriptor data, info hash, tracker transport,
      peers and pieces, and the log of writes made to the output file. */
  datatype Torrent = Torrent(
    info: InfoDictionary,
    hash: seq<byte>,
    trackerProtocol: Protocol,
    peers: seq<Peer>,
    pieces: seq<Piece>,
    writes: seq<FileWrite>)
}

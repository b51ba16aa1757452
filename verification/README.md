# goTorrent client core in Dafny

This project models the core of the `client` package of goTorrent, a small
BitTorrent client written in Go:

- the tracker wire formats: the UDP connect and announce datagrams of BEP 15,
  the check of the announce reply, and the compact peer list of BEP 23
  (`tracker.go`);
- the peer wire protocol: the 68-byte handshake, processing of choke,
  interest, have, bitfield and piece messages, and the request message
  (`peers.go`);
- the piece bookkeeping of a torrent: splitting the digest string into
  pieces, block layout, adding tracker peers, the completion test and the
  availability annotation (`torrent.go`);
- the records of `models.go` and the integer-narrowing and bit-expansion
  helpers of `scripts.go`.

Each Go file has its own module: `Binary` (big-endian codec, Go integer
widths, `copy` into a zero-filled buffer, decimal printing), `Scripts`,
`Models`, `Torrents`, `Tracker` and `Peers`. Go's run-time panics (index or
slice out of range) are values: `Result<T> = Ok(value) | Panic(fault)`.
Calls that mutate a `*Torrent` or `*Peer` become pure functions from the
old record to the new one. SHA-1 is a function parameter `sha1`. Writes
to the output file are entries appended to the torrent's `writes` log.

Several handlers do not do what their comments and the protocol say (see
"## Findings"). In each such case the model contains both versions. The
`…AsWritten` member follows the Go code line by line. The corrected member
states the intended behaviour, and a lemma relates the two on a concrete
family of inputs. The rest of the model is built on the corrected members.

## Model

| member | source | states |
|---|---|---|
| Scripts.ToInt32 | client/peers.go:318 | Go's `int32(x)` lies in the signed 32-bit range, is congruent to `x` modulo 2^32, and is `x` itself when `x` is in range |
| Scripts.ToInt64 | client/peers.go:261 | Go's 64-bit `int` product wraps modulo 2^64 and leaves in-range values alone |
| Scripts.ToInt16 | client/scripts.go:16-19 | `int16(x)` is the 16-bit two's-complement reading of `x`, identical on in-range values |
| Scripts.ConvertIntToUint64 | client/scripts.go:3-7 | the result is `i mod 2^64`: the identity on non-negative ints and `2^64 + i` on negative ones |
| Scripts.ConvertIntToUint32 | client/scripts.go:9-13 | the result is `i mod 2^32`, the identity below 2^32, and `-1` becomes `0xFFFFFFFF` |
| Scripts.ConvertIntToUint16 | client/scripts.go:15-19 | the result is `i mod 2^16` and the identity below 2^16 |
| Scripts.GetBitsFromByteSlice | client/scripts.go:21-30 | eight 0/1 entries per byte; entry `8i+j` is bit `7-j` of byte `i`, so the high bit of byte 0 is entry 0 |
| Scripts.GetBitsAt | client/scripts.go:24-27 | the (byte, bit) reading of the `r[i*8+j]` index the loop writes |
| Scripts.PackGetBits | client/scripts.go:21-30 | packing the expansion back into bytes gives the input again, so the expansion is lossless |
| Binary.ToBEFromBE | client/tracker.go:148 | re-encoding a big-endian value into its own width gives back the same bytes, as the connection id relay relies on |
| Binary.FromBEZero | client/tracker.go:303 | `BigEndian.Uint32(...) != 0` fails exactly when all four address bytes are zero |
| Binary.Padded | client/peers.go:56-57 | `copy` into a zero-filled field of fixed width cuts the source or pads it with zeros, and leaves a source of exactly that width unchanged |
| Torrents.AddPeers | client/torrent.go:115-124 | one new peer per address, carrying only that address, appended in order; existing peers and every other torrent field are unchanged |
| Torrents.AddPeersTwice | client/torrent.go:117-124 | adding two address lists in turn equals adding their concatenation |
| Torrents.BlockCount | client/torrent.go:151 | the Go quotient `pieceLength / 16384`: `n` whole blocks fit into the piece and `n+1` do not; no blocks below 16384 bytes |
| Torrents.PrepBlocks | client/torrent.go:150-160 | appends `pieceLength/16384` empty blocks at offsets `0, 16384, 2*16384, ...`; existing blocks and the rest of the piece are unchanged |
| Torrents.PiecesFor | client/torrent.go:140-147 | one piece per digest in order, piece `i` built from digest `i` with index `i` |
| Torrents.NewPieceIsPrepared | client/torrent.go:141-145 | the piece made for digest `i` is exactly a bare piece with that digest and index `i` passed through prepBlocks: the two descriptions of a fresh piece agree |
| Torrents.SplitPieces | client/torrent.go:126-148 | corrected bound: one piece per whole 20-byte digest, with its index, its digest, no completion, no holders and the prepBlocks layout, appended after the existing pieces |
| Torrents.SplitPiecesKeepsEveryDigest | client/torrent.go:131-135 | the added pieces' hashes, concatenated, are the digest string again: nothing lost, duplicated or reordered |
| Torrents.SplitCountAsWritten | client/torrent.go:133 | the loop condition `len(s[:20*(i+1)]) < len(s)` panics unless the length is a positive multiple of 20, and then runs `len/20 - 1` times |
| Torrents.SplitPiecesAsWritten | client/torrent.go:127-148 | splitPieces as written succeeds exactly on a positive whole number of digests |
| Torrents.SplitPiecesAsWrittenDropsLastDigest | client/torrent.go:133 | on a well-formed digest string the as-written loop returns the corrected piece list without its last piece |
| Torrents.AnyIncomplete | client/torrent.go:214-218 | true exactly when some piece is not complete |
| Torrents.TorrentNotComplete | client/torrent.go:213-221 | true exactly when some piece of the torrent is incomplete; false for a torrent without pieces |
| Torrents.Holders | client/torrent.go:202-206 | the positions of exactly the peers whose non-nil bitfield has a 1 at the index, ascending; panics iff some non-nil bitfield is too short |
| Torrents.ArrangePiecesBasedOnRarity | client/torrent.go:199-211 | the same pieces in the same order, each extended by exactly the holders of its index; panics iff some non-nil bitfield is too short for some piece |
| Tracker.CreateTrackerRequest | client/torrent.go:92-113 | a compact request for the given hash and peer id on port 4242, with zero counters, no event, and the transaction id as 4 big-endian bytes |
| Tracker.IsUDP | client/tracker.go:279-284 | true exactly for the scheme "udp" |
| Tracker.ConnectRequest | client/tracker.go:103-106 | 16 bytes: protocol id 0x41727101980, action 0 and the transaction id, big-endian |
| Tracker.AnnounceHeader | client/tracker.go:148-150 | the connection id copied through, action 1, then the transaction id |
| Tracker.AnnounceCounters | client/tracker.go:153-155 | downloaded, left and uploaded as uint64, each reduced modulo 2^64 |
| Tracker.AnnounceTail | client/tracker.go:156-160 | event 2, IP 0, key 0, num_want `0xFFFFFFFF`, port modulo 2^16 |
| Tracker.AnnounceRequest | client/tracker.go:128-160 | the 98-byte announce: every field at its offset, with hash and peer id copied into 20-byte fields |
| Tracker.ParseEntriesFrom | client/tracker.go:302-317 | the entries visited from entry `i` on: each fits, none has a zero address, each is the 6 bytes at `20+6k`; the walk stops at a zero address or the end of the buffer |
| Tracker.ParseEntries | client/tracker.go:286-320 | entry `k` of the result is the `k`-th entry after the 20-byte header; parsing stops exactly at the first zero address or incomplete entry |
| Tracker.ParsePeers | client/tracker.go:286-320 | corrected parsePeers: entry `k` is the printed `k`-th address and port; stops exactly at the first zero address or at the buffer's end |
| Tracker.ParseEntriesAsWrittenFrom | client/tracker.go:303 | the as-written loop panics iff no zero address lies where the corrected loop stops, and otherwise visits the same entries |
| Tracker.ParsePeersAsWritten | client/tracker.go:286-320 | parsePeers as written panics iff the buffer has no zero address where the corrected parser stops; otherwise it returns the same peers |
| Binary.Decimal | client/tracker.go:307 | `strconv.FormatUint(x, 10)`: at least one character, digits only, no leading zero, and a single digit exactly when `x` is below 10 |
| Binary.DecimalReadsBack | client/tracker.go:307 | reading the printed digits back most significant first gives `x` again, so the port and each address byte are printed without loss |
| Tracker.FormatEndpointRoundTrip | client/tracker.go:305-314 | the printed `a.b.c.d:port` reads back to the entry it came from, so two different peers never print the same string |
| Tracker.EncodeEndpoint | client/tracker.go:294-300 | the 6-byte compact form: the address at 0..4, the big-endian port at 4..6 |
| Tracker.EncodeCompactAt | client/tracker.go:294-300 | entry `i` of a compact list sits at bytes `6i..6i+6` |
| Tracker.ParseEntriesRoundTrip | client/tracker.go:286-320 | after any 20-byte header, a compact list whose addresses are non-zero is read back entry for entry |
| Tracker.ParsePeersRoundTrip | client/tracker.go:305-315 | the same round trip through the `a.b.c.d:port` strings |
| Tracker.ParsePeersAsWrittenOverruns | client/tracker.go:303 | the same buffer, which has no zero terminator, makes the as-written parser panic |
| Tracker.ParsePeersTwoExample | client/tracker.go:305-315 | 192.168.1.1:6881 and 10.0.0.5:51413 in compact form, after any 20-byte header, parse to those two strings |
| Tracker.ParsePeersStopExample | client/tracker.go:302-303 | the same reply with a zero address in the second entry parses to the first peer only |
| Tracker.AnnounceResponsePeers | client/tracker.go:167-175 | peers only when action is 1 and the transaction id matches the request's; no peers otherwise; panics on a reply shorter than 8 bytes, and on a matching reply shorter than 20 bytes (the seeder count is read) |
| Tracker.UdpReplyBuffer | client/tracker.go:179-215 | the reply is the whole 8192-byte read buffer: the datagram byte for byte, then zeros |
| Tracker.UdpReplyNeverOverruns | client/tracker.go:183-208 | with the zero-padded 8192-byte buffer, the as-written parser cannot overrun for a datagram of at most 8186 bytes, and it agrees with the corrected one |
| Tracker.AnnounceReplyParses | client/tracker.go:162-175 | a UDP announce reply never panics and, when it matches the request, yields exactly the peers the corrected parser finds |
| Tracker.CompactPeers | client/tracker.go:262-273 | corrected HTTP wrapping: no peers from fewer than 6 bytes, and at most one peer per 6 bytes |
| Tracker.CompactPeersAsWritten | client/tracker.go:262-276 | as written: no peers unless the string is longer than 10 bytes (a buffer longer than 30); any peers it does return are the corrected parse |
| Tracker.CompactPeersAsWrittenParsesLong | client/tracker.go:262-268 | for a string longer than 10 bytes, the result is exactly the as-written parse of the 20 zero bytes followed by the string: it panics where that loop overruns, and otherwise returns the corrected peers |
| Tracker.CompactPeersRoundTrip | client/tracker.go:263-268 | a compact peer string of non-zero addresses is read back completely |
| Tracker.CompactPeersAsWrittenDropsLonePeer | client/tracker.go:267 | a reply with one peer yields no peers as written, and that peer once corrected |
| Tracker.CompactPeersAsWrittenOverruns | client/tracker.go:263-268 | a reply with two or more peers and no zero address panics as written |
| Peers.SerializeHandshake | client/models.go:95-102 | the handshake fields laid out in order: length byte, protocol string, 8 reserved bytes, hash, peer id |
| Peers.ParseHandshake | client/peers.go:211-216 | reading the fixed offsets gives a well-sized record iff the length byte is 19, and re-serialising that record gives the message back |
| Peers.HandshakeRoundTrip | client/models.go:95-102 | a well-sized handshake with a 19-byte protocol string survives serialising and parsing |
| Peers.BuildHandshake | client/peers.go:51-57 | 68 bytes: 19, "BitTorrent protocol", eight zero bytes, then the hash and peer id copied into 20-byte fields |
| Peers.HandshakeBuffer | client/peers.go:197-209 | the 68-byte read buffer: the bytes received (at most 68 of them) in order, then zeros |
| Peers.RemotePeer | client/peers.go:215-218 | the announced peer carries bytes 48..68 as its id and no bitfield |
| Peers.RegisterPeer | client/peers.go:213-220 | a torrent whose hash equals bytes 28..48 gains exactly one peer, at the end, with the sent id; other torrents and fields are unchanged |
| Peers.AcceptHandshake | client/peers.go:194-222 | corrected processHandshake: every torrent is updated by RegisterPeer with the same buffer |
| Peers.HandshakeRegistersPeer | client/peers.go:51-57 | round trip from initiateConnection's handshake to processHandshake, for a peer id of any length: one peer carrying the id as sent (cut or zero-padded to 20 bytes) is added to every torrent with that hash, and to no other |
| Peers.AcceptHandshakeAsWritten | client/peers.go:213-221 | as written, ranging over copies leaves every torrent's peer list unchanged |
| Peers.AcceptHandshakeAsWrittenDropsPeer | client/peers.go:213-219 | for a matching torrent the corrected handler adds a peer and the as-written one adds none |
| Peers.Frame | client/peers.go:154-163 | a length-prefixed message: the length counts the id and payload, the id is byte 4, the payload follows |
| Peers.ProcessHave | client/peers.go:311-322 | the bit at the index becomes 1 and every other bit stays; panics iff the message is short, the bitfield nil or the index out of range |
| Peers.HaveSetsBit | client/peers.go:311-322 | any have message carrying index `i`, for a peer whose bitfield covers `i`: processing succeeds, the peer holds `i`, and its holding of every other piece is unchanged |
| Peers.HaveMarksHolder | client/peers.go:318-320 | after a have message for piece `i`, the peer holds `i` and its holding of every other piece is unchanged |
| Peers.ProcessBitfield | client/peers.go:324-342 | the bitfield becomes exactly the bit expansion of the payload after byte 5, eight entries per byte, which packs back to the payload; no other field changes; panics iff the message is shorter than 5 bytes |
| Peers.BitfieldHolds | client/peers.go:330-340 | after a bitfield message the peer holds piece `8i+j` exactly when bit `7-j` of payload byte `i` is set |
| Peers.FirstEmptyBlock | client/peers.go:387-392 | the first block without data: every earlier block has data; `None` when all do |
| Peers.RequestBegin | client/peers.go:387-392 | the offset of the first block without data, reduced modulo 2^32 as the uint32 conversion does; 0 when every block has data |
| Peers.CreateRequest | client/peers.go:380-397 | 17 bytes: length 13, id 6, index as uint32, the first empty block's offset, length 16384 |
| Peers.FreshPieceRequestsFirstBlock | client/peers.go:380-397 | a piece straight from prepBlocks is requested from offset 0 |
| Peers.RequestAdvances | client/peers.go:387-392 | once the requested block has data, the next request is for a later block or none |
| Peers.EncodePiece | client/peers.go:224-230 | the piece message: length `9+len(block)`, id 7, index, begin, block |
| Peers.ParsePiece | client/peers.go:232-235 | corrected header parse: the block is exactly bytes `13 .. 4+length`, running to the end of the frame; index and begin are narrowed with `int32()`; panics iff the bounds do not fit |
| Peers.ParsePieceRoundTrip | client/peers.go:224-235 | a piece message for an index and offset below 2^31 parses back to that index, offset and block |
| Peers.ParsePieceAsWritten | client/peers.go:235 | `blkMsg[13:length]`: the block is exactly bytes `13 .. length`, 13 bytes shorter than the length field; panics iff that slice is out of range |
| Peers.ParsePieceAsWrittenDropsTail | client/peers.go:235 | as written the block loses its last 4 bytes, and a block shorter than 4 bytes panics |
| Peers.FillBlocks | client/peers.go:248-253 | blocks whose offset equals `begin` take the data; every other block and all offsets are unchanged |
| Peers.FindPiece | client/peers.go:245-246 | the first piece with the given index, or none has that index |
| Peers.PlaceBlock | client/peers.go:237-268 | only the matched piece changes: its blocks get the data; it becomes complete iff it was, or its data hashes to its digest; then its data is written at `pieceLength*index` in Go int arithmetic. An unknown index changes nothing |
| Peers.ProcessBlock | client/peers.go:223-269 | corrected processBlock: panics exactly when the header does not parse, and otherwise places the block |
| Peers.PlaceBlockIdempotent | client/peers.go:245-253 | placing the same block twice leaves the pieces as placing it once |
| Peers.FindPieceSameIndices | client/peers.go:245-246 | the piece lookup depends only on the pieces' indices |
| Peers.PlaceBlockKeepsCompletion | client/peers.go:256-263 | a complete piece stays complete, so a finished torrent stays finished |
| Peers.ProcessBlockAsWritten | client/peers.go:223-269 | as written: no piece ever changes; a matched piece with blocks panics in `copy`; exactly when the matched piece has no blocks and the digest of the empty string equals its hash, one write with no data is logged at `pieceLength*index` wrapped to 64 bits |
| Peers.ProcessBlockAsWrittenPanicsOnBlocks | client/peers.go:247-249 | a block for a piece that has blocks: the corrected handler accepts it, the as-written one panics |
| Peers.ProcessBlockAsWrittenLosesCompletion | client/peers.go:245-264 | a piece whose digest matches is marked complete by the corrected handler and stays incomplete as written |
| Peers.ProcessMessage | client/peers.go:154-192 | dispatch on byte 4: a 4-byte keep-alive changes nothing; ids 0-3 set exactly one flag; 4 is have, 5 bitfield, 7 piece; 6, 8 and unknown ids change nothing; shorter messages panic |
| Peers.ProcessMessageAsWritten | client/peers.go:177-188 | as written, id 4 changes nothing, id 7 succeeds exactly when the as-written processBlock does and installs its torrent, and every other message is handled as corrected |
| Peers.ProcessMessageAsWrittenIgnoresHave | client/peers.go:177-179 | a have message for a piece not yet held: the corrected dispatch records it, the as-written one leaves the peer as it was |

## Left out

- Sockets and the network: `initiateConnection`, `Listen`, `sendMessage`, `sendUDPRequest`'s read loop and deadlines, `http.Get`, and `handlePeerConnection`'s read loop. Their byte strings are parameters of the modelled functions.
- `handlePeerConnection` strips the 4-byte length prefix before calling `processMessage`, but `processMessage` reads the id at `msg[4]` and treats `len == 4` as a keep-alive, so the two disagree. `Peers.ProcessMessage` follows `processMessage`'s own framing (a whole length-prefixed message); the read loop itself is not modelled.
- Goroutines (`go peer.processMessage`, `go processHandshake`), `waitForUnchoke` and the channels: concurrency is not modelled. Each message is processed on its own.
- SHA-1 internals, `HashInfo`, bencode decoding and `generatePeerID`. SHA-1 is the function parameter `sha1`.
- The random transaction id: `transactionID()` seeds from the clock. It is a parameter of `Tracker.ConnectRequest`, `Tracker.AnnounceRequest` and `Tracker.CreateTrackerRequest`.
- The local port taken from `conn.LocalAddr()` and parsed with `strconv.Atoi` is a parameter `localPort`.
- `processRequest`, `processCancel`, `Update` and `updateBitfield` have empty bodies, so they change nothing; `Peers.ProcessMessage` treats their ids that way.
- `Start`, `StopDownloading` and the HTTP query assembly of `announceTCP` (`url.Values`) are left out. They are I/O glue around the modelled parts.
- `writeToFile` opens the file with `os.Open`, which is read-only, so the real write fails at run time. The model records the intended write (data and offset) in the torrent's `writes` log.
- `arrangePiecesBasedOnRarity` appends `&peer`, the address of the loop variable. The model records each holder's position in the torrent's peer list instead.
- The `Peer` struct in `models.go` lacks the `address`, `peerID`, `Choking`, `conn` and `torrent` fields that `peers.go` and `torrent.go` use. `Models.Peer` carries the fields as the code uses them. The connection pointer is left out, and `Peers.Connection` pairs a peer with its torrent.
- `Peers.ProcessMessageAsWritten`: id 7 calls `peer.torrent.processBlock`, but no line of the source sets a peer's `torrent` field. `AddPeers` sets only the address, and `processHandshake` only the id and connection. As written, the call runs on a zero or nil torrent. The model assumes the pairing `Peers.Connection` records and runs the block handler on that torrent; the nil dereference is not modelled.
- The `peerIP.String() == ""` check in `parsePeers` cannot succeed for a 4-byte address, so no branch models it.
- `Tracker.CompactPeers`: states the shape of the result (empty below 6 bytes, at most one peer per 6 bytes) rather than repeating `ParsePeers`'s entry-by-entry contract. `Tracker.CompactPeersRoundTrip` gives the contents.
- `Tracker.AnnounceResponsePeers`: the seeder count printed from bytes 16..20 is only read, for its panic on short replies.

## Findings

| source | as written | input that shows it | evidently intended | confidence | as-written member | corrected member |
|---|---|---|---|---|---|---|
| client/peers.go:213-220 | `for _, torrent := range clientState.torrents` appends the peer to a copy | a handshake for the hash of a registered torrent | the torrent in the client state gains the peer | high, not executed | Peers.AcceptHandshakeAsWritten, Peers.AcceptHandshakeAsWrittenDropsPeer | Peers.AcceptHandshake |
| client/peers.go:235 | `blk := blkMsg[13:length]` | a piece message with length field `9+n` | the block is `n` bytes, `blkMsg[13:4+length]`; as written it loses 4 bytes, or panics when `n < 4` | high, not executed | Peers.ParsePieceAsWritten, Peers.ParsePieceAsWrittenDropsTail | Peers.ParsePiece |
| client/peers.go:247-249 | `var blocks []byte; copy(blocks[(len(blocks)+1):], block.Data)` | any piece message for a piece with at least one block | the blocks' data is concatenated; as written slicing a nil slice at 1 panics | high, not executed | Peers.ProcessBlockAsWritten, Peers.ProcessBlockAsWrittenPanicsOnBlocks | Peers.ProcessBlock |
| client/peers.go:245-263 | `for _, piece := range torrent.Pieces` and `for _, block := range piece.Blocks` assign to copies | a matching block for a piece whose digest then matches | the block is stored and the piece marked complete | high, not executed | Peers.ProcessBlockAsWritten, Peers.ProcessBlockAsWrittenLosesCompletion | Peers.PlaceBlock |
| client/peers.go:177-179 | id 4 (have) calls `updateBitfield`, whose body is empty | a have message for a piece the peer's bitfield lacks | `processHave` runs and records the piece | medium, not executed | Peers.ProcessMessageAsWritten, Peers.ProcessMessageAsWrittenIgnoresHave | Peers.ProcessMessage |
| client/torrent.go:133 | loop condition `len(notSplit[:(20*(i+1))]) < len(notSplit)` | a digest string of exactly one or more whole 20-byte digests | one piece per digest; as written the last digest is dropped, and a string that is not a whole number of digests panics | high, not executed | Torrents.SplitPiecesAsWritten, Torrents.SplitPiecesAsWrittenDropsLastDigest | Torrents.SplitPieces |
| client/tracker.go:303 | the loop stops only at a zero address | the HTTP compact string of two peers, with no zero terminator | stop also at the end of the buffer; as written the slice runs past it and panics | high, not executed | Tracker.ParsePeersAsWritten, Tracker.CompactPeersAsWrittenOverruns | Tracker.ParsePeers |
| client/tracker.go:267 | `if len(resp) > 30` before parsing | an HTTP reply with exactly one peer (26-byte buffer) | parse whenever at least one whole entry is present (`len(resp) >= 26`) | medium, not executed | Tracker.CompactPeersAsWritten, Tracker.CompactPeersAsWrittenDropsLonePeer | Tracker.CompactPeers |

On the UDP path the overrun in the seventh row cannot happen for a datagram
of at most 8186 bytes, because the parser sees the whole zero-filled
8192-byte read buffer (`Tracker.UdpReplyNeverOverruns`).

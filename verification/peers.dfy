/** The peer wire protocol of client/peers.go: the handshake, the message
    dispatch with its choke, interest, have and bitfield updates, the
    request encoding, and placing a received block into its piece. */
module Peers {
  import opened Binary
  import opened Scripts
  import opened Models
  import opened Torrents

  // ---------------------------------------------------------------- handshake

  /** The protocol string "BitTorrent protocol", 19 bytes. */
  const Pstr: seq<byte> := Ascii("BitTorrent protocol")

  /** The wire form of a handshake record: the length byte, the protocol
      string, then the reserved bytes, info hash and peer id. */
  function SerializeHandshake(h: Handshake): (r: seq<byte>)
    requires h.WellSized()
    ensures |r| == 49 + h.pstrlen
    ensures r[0] == h.pstrlen
    ensures r[1 .. 1 + h.pstrlen] == h.pstr
    ensures r[1 + h.pstrlen .. 9 + h.pstrlen] == h.reserved
    ensures r[9 + h.pstrlen .. 29 + h.pstrlen] == h.infoHash
    ensures r[29 + h.pstrlen ..] == h.peerId
  {
    var r := [h.pstrlen] + h.pstr + h.reserved + h.infoHash + h.peerId;
    assert r[1 .. 1 + h.pstrlen] == h.pstr;
    r
  }

  /** The fixed offsets processHandshake reads a 68-byte handshake at. The
      record is well sized exactly when the length byte says 19. */
  function ParseHandshake(msg: seq<byte>): (h: Handshake)
    requires |msg| == 68
    ensures h.WellSized() <==> msg[0] == 19
    ensures h.WellSized() ==> SerializeHandshake(h) == msg
  {
    var h := Handshake(msg[0], msg[1..20], msg[20..28], msg[28..48], msg[48..68]);
    assert h.WellSized() ==> [msg[0]] + msg[1..20] + msg[20..28] + msg[28..48] + msg[48..68] == msg;
    h
  }

  /** A handshake with the standard 19-byte protocol string survives
      serialising and parsing unchanged. */
  lemma HandshakeRoundTrip(h: Handshake)
    requires h.WellSized() && h.pstrlen == 19
    ensures ParseHandshake(SerializeHandshake(h)) == h
  {
    var r := SerializeHandshake(h);
    assert r[1..20] == h.pstr && r[20..28] == h.reserved;
    assert r[28..48] == h.infoHash && r[48..68] == h.peerId;
  }

  /** The handshake initiateConnection sends: 19, "BitTorrent protocol",
      eight zero bytes, then the info hash and the local peer id, each
      copied into a 20-byte field (cut or zero-padded as Go's copy does). */
  function BuildHandshake(infoHash: seq<byte>, peerId: seq<byte>): (r: seq<byte>)
    ensures |r| == 68
    ensures r[0] == 19 && r[1..20] == Pstr
    ensures forall i :: 20 <= i < 28 ==> r[i] == 0
    ensures r[28..48] == Padded(infoHash, 20)
    ensures r[48..68] == Padded(peerId, 20)
  {
    var r := SerializeHandshake(Handshake(19, Pstr, Zeros(8), Padded(infoHash, 20), Padded(peerId, 20)));
    assert r[20..28] == Zeros(8);
    assert forall i :: 20 <= i < 28 ==> r[i] == r[20..28][i - 20];
    r
  }

  /** The 68-byte buffer processHandshake reads into: the bytes received,
      followed by the zeros the buffer was made with. */
  function HandshakeBuffer(received: seq<byte>): (r: seq<byte>)
    ensures |r| == 68
    ensures |received| == 68 ==> r == received
    ensures forall i :: 0 <= i < |received| && i < 68 ==> r[i] == received[i]
    ensures forall i :: |received| <= i < 68 ==> r[i] == 0
  {
    Padded(received, 68)
  }

  /** The peer a handshake announces: the id in bytes 48..68 and every
      other field at Go's zero value. */
  function RemotePeer(buffer: seq<byte>): (p: Peer)
    requires |buffer| == 68
    ensures p.peerId == buffer[48..68] && p.bitfield.None?
  {
    Peer(buffer[48..68], "", None, 0, 0)
  }

  /** One torrent's share of processHandshake: a torrent whose info hash
      equals bytes 28..48 of the buffer gains the announcing peer at the
      end of its peer list; any other torrent is left alone. */
  function RegisterPeer(t: Torrent, buffer: seq<byte>): (r: Torrent)
    requires |buffer| == 68
    ensures r == t.(peers := r.peers)
    ensures |r.peers| == |t.peers| + (if t.hash == buffer[28..48] then 1 else 0)
    ensures r.peers[..|t.peers|] == t.peers
    ensures t.hash == buffer[28..48] ==> r.peers[|t.peers|].peerId == buffer[48..68]
  {
    if t.hash == buffer[28..48] then t.(peers := t.peers + [RemotePeer(buffer)]) else t
  }

  /** processHandshake with its loop corrected to update the torrents
      themselves rather than copies: every torrent whose hash matches gains
      the peer, every other torrent is unchanged. */
  function AcceptHandshake(torrents: seq<Torrent>, received: seq<byte>): (r: seq<Torrent>)
    ensures |r| == |torrents|
    ensures forall i :: 0 <= i < |r| ==> r[i] == RegisterPeer(torrents[i], HandshakeBuffer(received))
  {
    var buffer := HandshakeBuffer(received);
    seq(|torrents|, i requires 0 <= i < |torrents| => RegisterPeer(torrents[i], buffer))
  }

  /** Round trip between the two ends: a handshake built for a 20-byte info
      hash and a peer id of any length, when accepted, adds exactly one peer
      to every torrent with that hash, and nothing to the others. The peer
      carries the id as it travelled: cut or zero-padded to 20 bytes. */
  lemma HandshakeRegistersPeer(torrents: seq<Torrent>, infoHash: seq<byte>, peerId: seq<byte>, i: nat)
    requires |infoHash| == 20 && i < |torrents|
    ensures var r := AcceptHandshake(torrents, BuildHandshake(infoHash, peerId))[i];
      && r == torrents[i].(peers := r.peers)
      && (torrents[i].hash == infoHash ==> r.peers == torrents[i].peers + [Peer(Padded(peerId, 20), "", None, 0, 0)])
      && (torrents[i].hash != infoHash ==> r == torrents[i])
  {
    var msg := BuildHandshake(infoHash, peerId);
    assert HandshakeBuffer(msg) == msg;
    assert msg[28..48] == infoHash && msg[48..68] == Padded(peerId, 20);
  }

  /** processHandshake as written: `for _, torrent := range` hands the loop
      a copy of each torrent, so the peer is appended to the copy and every
      torrent in the client state stays as it was. */
  function AcceptHandshakeAsWritten(torrents: seq<Torrent>, received: seq<byte>): (r: seq<Torrent>)
    ensures |r| == |torrents|
    ensures forall i :: 0 <= i < |r| ==> r[i].peers == torrents[i].peers
  {
    torrents
  }

  /** The lost update: for a torrent whose hash the handshake carries, the
      corrected loop adds a peer and the as-written loop adds none. */
  lemma AcceptHandshakeAsWrittenDropsPeer(torrents: seq<Torrent>, infoHash: seq<byte>, peerId: seq<byte>, i: nat)
    requires |infoHash| == 20 && |peerId| == 20 && i < |torrents| && torrents[i].hash == infoHash
    ensures |AcceptHandshake(torrents, BuildHandshake(infoHash, peerId))[i].peers| == |torrents[i].peers| + 1
    ensures |AcceptHandshakeAsWritten(torrents, BuildHandshake(infoHash, peerId))[i].peers| == |torrents[i].peers|
  {
    HandshakeRegistersPeer(torrents, infoHash, peerId, i);
  }

  // ---------------------------------------------------------------- messages

  /** A length-prefixed message: the big-endian length of what follows,
      the id byte, then the payload. */
  function Frame(id: byte, payload: seq<byte>): (r: seq<byte>)
    requires 1 + |payload| < Two32
    ensures |r| == 5 + |payload|
    ensures FromBE(r[0..4]) == 1 + |payload|
    ensures r[4] == id && r[5..] == payload
  {
    PowersOf256();
    var r := ToBE(1 + |payload|, 4) + [id] + payload;
    assert r[0..4] == ToBE(1 + |payload|, 4);
    r
  }

  /** The piece index a have message carries: bytes 5..9 read big-endian
      and narrowed with int32(). */
  function HaveIndex(msg: seq<byte>): (r: int)
    requires |msg| >= 9
    ensures -0x8000_0000 <= r < 0x8000_0000
  {
    ToInt32(FromBE(msg[5..9]))
  }

  /** processHave: bit HaveIndex(msg) of the peer's bitfield becomes 1 and
      every other bit stays. Go panics on a message too short for bytes
      5..9, on a nil bitfield and on an index outside the bitfield. */
  function ProcessHave(p: Peer, msg: seq<byte>): (r: Result<Peer>)
    ensures r.Ok? <==> |msg| >= 9 && p.bitfield.Some? && 0 <= HaveIndex(msg) < |p.bitfield.value|
    ensures r.Ok? ==> r.value == p.(bitfield := r.value.bitfield)
    ensures r.Ok? ==> && r.value.bitfield.Some?
                      && |r.value.bitfield.value| == |p.bitfield.value|
                      && r.value.bitfield.value[HaveIndex(msg)] == 1
    ensures r.Ok? ==> forall j :: 0 <= j < |p.bitfield.value| && j != HaveIndex(msg) ==>
                        r.value.bitfield.value[j] == p.bitfield.value[j]
  {
    if |msg| < 9 then Panic(SliceOutOfRange)
    else
      var index := HaveIndex(msg);
      if p.bitfield.None? || !(0 <= index < |p.bitfield.value|) then Panic(IndexOutOfRange)
      else Ok(p.(bitfield := Some(p.bitfield.value[index := 1])))
  }

  /** The have message for a piece index: a frame with id 4 whose payload
      is the index as a uint32. */
  function EncodeHave(index: Uint32): (r: seq<byte>)
    ensures |r| == 9 && r[4] == 4
    ensures r == Frame(4, ToBE(index, 4))
  {
    PowersOf256();
    var r := [0, 0, 0, 5, 4] + ToBE(index, 4);
    HaveFrame(r, index);
    r
  }

  lemma HaveFrame(r: seq<byte>, index: Uint32)
    requires r == [0, 0, 0, 5, 4] + ToBE(index, 4)
    ensures r == Frame(4, ToBE(index, 4))
  {
    PowersOf256();
    var f := Frame(4, ToBE(index, 4));
    assert f[5..] == r[5..];
    assert f[..4] == ToBE(5, 4) == r[..4];
    assert f == f[..4] + [4] + f[5..];
  }

  /** A have message sent for piece i, once processed, makes the peer a
      holder of piece i in the sense the availability annotation reads,
      and leaves whether it holds any other piece unchanged. */
  lemma HaveMarksHolder(p: Peer, i: nat)
    requires p.bitfield.Some? && i < |p.bitfield.value| && i < 0x8000_0000
    ensures ProcessHave(p, EncodeHave(i)).Ok?
    ensures Holds(ProcessHave(p, EncodeHave(i)).value, i)
    ensures forall j :: j != i ==> (Holds(ProcessHave(p, EncodeHave(i)).value, j) <==> Holds(p, j))
  {
    HaveIndexOfEncoding(i);
    HaveSetsBit(p, EncodeHave(i), i);
  }

  /** Any have message carrying index i, for a peer whose bitfield covers
      i, sets that bit and no other. */
  lemma HaveSetsBit(p: Peer, msg: seq<byte>, i: nat)
    requires |msg| >= 9 && HaveIndex(msg) == i
    requires p.bitfield.Some? && i < |p.bitfield.value|
    ensures ProcessHave(p, msg).Ok?
    ensures Holds(ProcessHave(p, msg).value, i)
    ensures forall j :: j != i ==> (Holds(ProcessHave(p, msg).value, j) <==> Holds(p, j))
  {
    assert ProcessHave(p, msg).value.bitfield.value == p.bitfield.value[i := 1];
  }

  /** The index a have message carries is read back from it. */
  lemma HaveIndexOfEncoding(i: nat)
    requires i < 0x8000_0000
    ensures HaveIndex(EncodeHave(i)) == i
  {
    PowersOf256();
    var msg := EncodeHave(i);
    assert msg[5..9] == msg[5..][0..4] == ToBE(i, 4);
  }

  /** processBitfield: the bitfield becomes the most-significant-first
      expansion of the payload after byte 5, one entry per bit, from which
      the payload can be packed back. Go panics on a message shorter than
      5 bytes. */
  function ProcessBitfield(p: Peer, msg: seq<byte>): (r: Result<Peer>)
    ensures r.Ok? <==> |msg| >= 5
    ensures r.Ok? ==> r.value == p.(bitfield := r.value.bitfield)
    ensures r.Ok? ==> && r.value.bitfield.Some?
                      && |r.value.bitfield.value| == 8 * (|msg| - 5)
                      && PackBits(r.value.bitfield.value) == msg[5..]
    ensures r.Ok? ==> r.value.bitfield == Some(GetBitsFromByteSlice(msg[5..]))
  {
    if |msg| < 5 then Panic(SliceOutOfRange)
    else
      PackGetBits(msg[5..]);
      Ok(p.(bitfield := Some(GetBitsFromByteSlice(msg[5..]))))
  }

  /** After a bitfield message, the peer holds piece 8i+j exactly when bit
      7-j of payload byte i is set: the high bit of the first byte is
      piece 0. */
  lemma BitfieldHolds(p: Peer, payload: seq<byte>, i: nat, j: nat)
    requires 1 + |payload| < Two32 && i < |payload| && j < 8
    ensures ProcessBitfield(p, Frame(5, payload)).Ok?
    ensures Holds(ProcessBitfield(p, Frame(5, payload)).value, 8 * i + j) <==> BitOf(payload[i], 7 - j) == 1
  {
    GetBitsAt(payload, i, j);
  }

  // ---------------------------------------------------------------- requests

  /** Position of the first block still without data. */
  function FirstEmptyBlock(blocks: seq<Block>): (r: Option<nat>)
    ensures r.Some? ==> r.value < |blocks| && blocks[r.value].data == []
    ensures r.Some? ==> forall j :: 0 <= j < r.value ==> blocks[j].data != []
    ensures r.None? ==> forall j :: 0 <= j < |blocks| ==> blocks[j].data != []
  {
    if |blocks| == 0 then None
    else if blocks[0].data == [] then Some(0)
    else
      match FirstEmptyBlock(blocks[1..])
      case None => None
      case Some(k) => Some(k + 1)
  }

  /** The begin field of a request: the first empty block's offset as a
      uint32, or 0 when every block has data. */
  function RequestBegin(piece: Piece): (r: Uint32)
    ensures FirstEmptyBlock(piece.blocks).None? ==> r == 0
    ensures FirstEmptyBlock(piece.blocks).Some? ==>
      r == piece.blocks[FirstEmptyBlock(piece.blocks).value].offset % Two32
  {
    match FirstEmptyBlock(piece.blocks)
    case None => 0
    case Some(k) => piece.blocks[k].offset % Two32
  }

  /** createRequest: a 17-byte request message with length 13, id 6, the
      piece index as a uint32, the begin offset and a block length of 16384. */
  function CreateRequest(piece: Piece): (r: seq<byte>)
    ensures |r| == 17
    ensures FromBE(r[0..4]) == 13 && r[4] == 6
    ensures FromBE(r[5..9]) == piece.index % Two32
    ensures FromBE(r[9..13]) == RequestBegin(piece)
    ensures FromBE(r[13..17]) == 16384
  {
    PowersOf256();
    var prefix, index, begin, length := ToBE(13, 4), ToBE(piece.index % Two32, 4),
                                         ToBE(RequestBegin(piece), 4), ToBE(16384, 4);
    Concat5(prefix, [6], index, begin, length);
    var r := prefix + [6] + index + begin + length;
    assert r[13..17] == r[13..];
    r
  }

  /** A piece fresh from prepBlocks with at least one block is requested
      from offset 0. */
  lemma FreshPieceRequestsFirstBlock(index: int, hash: seq<byte>, pieceLength: GoInt)
    requires pieceLength >= 16384
    ensures var piece := PrepBlocks(Piece(index, hash, [], false, []), pieceLength);
      FirstEmptyBlock(piece.blocks) == Some(0) && RequestBegin(piece) == 0
  {
    var piece := PrepBlocks(Piece(index, hash, [], false, []), pieceLength);
    assert piece.blocks[0] == Block(0 * 16384, []);
  }

  /** When the first empty block is filled with data, the next request
      asks for a later block or for none. */
  lemma RequestAdvances(piece: Piece, data: seq<byte>)
    requires FirstEmptyBlock(piece.blocks).Some? && data != []
    ensures var k := FirstEmptyBlock(piece.blocks).value;
      var next := FirstEmptyBlock(FillBlocks(piece.blocks, piece.blocks[k].offset, data));
      next.None? || next.value > k
  {
    var k := FirstEmptyBlock(piece.blocks).value;
    var filled := FillBlocks(piece.blocks, piece.blocks[k].offset, data);
    assert forall j :: 0 <= j <= k ==> filled[j].data != [];
  }

  // ---------------------------------------------------------------- blocks

  /** The fields of a piece message: piece index, offset within the piece
      and the block's bytes. */
  datatype BlockMessage = BlockMessage(index: int, begin: int, block: seq<byte>)

  /** The piece message for a block: length 9 + |block|, id 7, index and
      begin as uint32, then the block. */
  function EncodePiece(index: Uint32, begin: Uint32, block: seq<byte>): (r: seq<byte>)
    requires 9 + |block| < Two32
    ensures |r| == 13 + |block|
    ensures FromBE(r[0..4]) == 9 + |block| && r[4] == 7
    ensures r[5..9] == ToBE(index, 4) && r[9..13] == ToBE(begin, 4) && r[13..] == block
  {
    PowersOf256();
    var payload := ToBE(index, 4) + ToBE(begin, 4) + block;
    var r := Frame(7, payload);
    assert r[5..] == payload;
    SliceAfter(r[..5], payload, 0, 4);
    SliceAfter(r[..5], payload, 4, 8);
    assert r == r[..5] + payload;
    assert payload[0..4] == ToBE(index, 4) && payload[4..8] == ToBE(begin, 4) && payload[8..] == block;
    r
  }

  /** The length field of a piece message as processBlock reads it. */
  function LengthField(msg: seq<byte>): (r: int)
    requires |msg| >= 4
    ensures -0x8000_0000 <= r < 0x8000_0000
  {
    ToInt32(FromBE(msg[0..4]))
  }

  /** The header of processBlock: length, index and begin narrowed with
      int32(), and the block taken as bytes 13 .. 4 + length, i.e. up to
      the end of the frame the length field describes. Go panics when the
      message is shorter than 13 bytes or the bounds do not fit it. */
  function ParsePiece(msg: seq<byte>): (r: Result<BlockMessage>)
    ensures r.Ok? <==> |msg| >= 13 && 13 <= 4 + LengthField(msg) <= |msg|
    ensures r.Ok? ==> |r.value.block| == LengthField(msg) - 9
    ensures r.Ok? ==> r.value.block == msg[13 .. 4 + LengthField(msg)]
    ensures r.Ok? ==> r.value.index == ToInt32(FromBE(msg[5..9])) && r.value.begin == ToInt32(FromBE(msg[9..13]))
  {
    if |msg| < 13 then Panic(SliceOutOfRange)
    else
      var length := LengthField(msg);
      if !(13 <= 4 + length <= |msg|) then Panic(SliceOutOfRange)
      else Ok(BlockMessage(ToInt32(FromBE(msg[5..9])), ToInt32(FromBE(msg[9..13])), msg[13 .. 4 + length]))
  }

  /** Round trip: a piece message for an index and offset below 2^31 parses
      back to that index, offset and block. */
  lemma ParsePieceRoundTrip(index: Uint32, begin: Uint32, block: seq<byte>)
    requires index < 0x8000_0000 && begin < 0x8000_0000 && 9 + |block| < 0x8000_0000
    ensures ParsePiece(EncodePiece(index, begin, block)) == Ok(BlockMessage(index, begin, block))
  {
    var msg := EncodePiece(index, begin, block);
    assert msg[13 .. 4 + LengthField(msg)] == msg[13..];
  }

  /** processBlock's header as written: the block is `blkMsg[13:length]`,
      which treats the length field as if it counted the 4-byte prefix. */
  function ParsePieceAsWritten(msg: seq<byte>): (r: Result<BlockMessage>)
    ensures r.Ok? <==> |msg| >= 13 && 13 <= LengthField(msg) <= |msg|
    ensures r.Ok? ==> |r.value.block| == LengthField(msg) - 13
    ensures r.Ok? ==> r.value.block == msg[13 .. LengthField(msg)]
    ensures r.Ok? ==> r.value.index == ToInt32(FromBE(msg[5..9])) && r.value.begin == ToInt32(FromBE(msg[9..13]))
  {
    if |msg| < 13 then Panic(SliceOutOfRange)
    else
      var length := LengthField(msg);
      if !(13 <= length <= |msg|) then Panic(SliceOutOfRange)
      else Ok(BlockMessage(ToInt32(FromBE(msg[5..9])), ToInt32(FromBE(msg[9..13])), msg[13 .. length]))
  }

  /** As written, a block of at least 4 bytes loses its last 4 bytes, and a
      shorter block makes the slice expression panic. */
  lemma ParsePieceAsWrittenDropsTail(index: Uint32, begin: Uint32, block: seq<byte>)
    requires index < 0x8000_0000 && begin < 0x8000_0000 && 9 + |block| < 0x8000_0000
    ensures |block| >= 4 ==>
      ParsePieceAsWritten(EncodePiece(index, begin, block)) == Ok(BlockMessage(index, begin, block[..|block| - 4]))
    ensures |block| < 4 ==> ParsePieceAsWritten(EncodePiece(index, begin, block)).Panic?
  {
    var msg := EncodePiece(index, begin, block);
    assert LengthField(msg) == 9 + |block|;
    if |block| >= 4 {
      assert msg[13 .. 9 + |block|] == msg[13..][..|block| - 4];
    }
  }

  /** The blocks after a block arrives at `begin`: every block whose offset
      equals `begin` takes the payload, every other block keeps its data. */
  function FillBlocks(blocks: seq<Block>, begin: int, data: seq<byte>): (r: seq<Block>)
    ensures |r| == |blocks|
    ensures forall j :: 0 <= j < |r| ==> r[j].offset == blocks[j].offset
    ensures forall j :: 0 <= j < |r| ==> r[j].data == if blocks[j].offset == begin then data else blocks[j].data
  {
    seq(|blocks|, j requires 0 <= j < |blocks| =>
      if blocks[j].offset == begin then blocks[j].(data := data) else blocks[j])
  }

  /** The piece's bytes so far: the blocks' data concatenated in order. */
  function BlockData(blocks: seq<Block>): (r: seq<byte>)
  {
    if |blocks| == 0 then [] else blocks[0].data + BlockData(blocks[1..])
  }

  /** Position of the first piece with the given index. */
  function FindPiece(pieces: seq<Piece>, index: int): (r: Option<nat>)
    ensures r.Some? ==> r.value < |pieces| && pieces[r.value].index == index
    ensures r.Some? ==> forall j :: 0 <= j < r.value ==> pieces[j].index != index
    ensures r.None? ==> forall j :: 0 <= j < |pieces| ==> pieces[j].index != index
  {
    if |pieces| == 0 then None
    else if pieces[0].index == index then Some(0)
    else
      match FindPiece(pieces[1..], index)
      case None => None
      case Some(k) => Some(k + 1)
  }

  /** Whether a piece's data hashes to its expected digest. */
  predicate Verified(piece: Piece, sha1: seq<byte> -> seq<byte>)
  {
    sha1(BlockData(piece.blocks)) == piece.hash
  }

  /** The body of processBlock as its comments describe it: the first piece
      with the message's index takes the block at every matching offset;
      when the piece's data then hashes to its digest, the piece is marked
      complete and its data is written at pieceLength × index (Go int
      arithmetic). A message for no known piece changes nothing. */
  function PlaceBlock(t: Torrent, m: BlockMessage, sha1: seq<byte> -> seq<byte>): (r: Torrent)
    ensures r == t.(pieces := r.pieces, writes := r.writes)
    ensures |r.pieces| == |t.pieces|
    ensures FindPiece(t.pieces, m.index).None? ==> r == t
    ensures FindPiece(t.pieces, m.index).Some? ==>
      var k := FindPiece(t.pieces, m.index).value;
      var p := r.pieces[k];
      && (forall j :: 0 <= j < |t.pieces| && j != k ==> r.pieces[j] == t.pieces[j])
      && p == t.pieces[k].(blocks := p.blocks, complete := p.complete)
      && p.blocks == FillBlocks(t.pieces[k].blocks, m.begin, m.block)
      && (p.complete <==> t.pieces[k].complete || Verified(p, sha1))
      && r.writes == t.writes + (if Verified(p, sha1)
                                 then [FileWrite(BlockData(p.blocks), ToInt64(t.info.pieceLength * p.index))]
                                 else [])
  {
    match FindPiece(t.pieces, m.index)
    case None => t
    case Some(k) =>
      var piece := t.pieces[k];
      var placed := piece.(blocks := FillBlocks(piece.blocks, m.begin, m.block));
      if Verified(placed, sha1) then
        var write := FileWrite(BlockData(placed.blocks), ToInt64(t.info.pieceLength * placed.index));
        t.(pieces := t.pieces[k := placed.(complete := true)], writes := t.writes + [write])
      else
        t.(pieces := t.pieces[k := placed])
  }

  /** processBlock, corrected: parse the header with the block running to
      the end of the frame, then place it. */
  function ProcessBlock(t: Torrent, msg: seq<byte>, sha1: seq<byte> -> seq<byte>): (r: Result<Torrent>)
    ensures r.Ok? <==> ParsePiece(msg).Ok?
    ensures r.Ok? ==> r.value == PlaceBlock(t, ParsePiece(msg).value, sha1)
  {
    match ParsePiece(msg)
    case Panic(f) => Panic(f)
    case Ok(m) => Ok(PlaceBlock(t, m, sha1))
  }

  /** Placing the same block twice leaves the pieces as placing it once. */
  lemma PlaceBlockIdempotent(t: Torrent, m: BlockMessage, sha1: seq<byte> -> seq<byte>)
    ensures PlaceBlock(PlaceBlock(t, m, sha1), m, sha1).pieces == PlaceBlock(t, m, sha1).pieces
  {
    var once := PlaceBlock(t, m, sha1);
    var f := FindPiece(t.pieces, m.index);
    if f.Some? {
      var k := f.value;
      assert forall j :: 0 <= j < |t.pieces| ==> once.pieces[j].index == t.pieces[j].index;
      assert FindPiece(once.pieces, m.index) == f by {
        FindPieceSameIndices(t.pieces, once.pieces, m.index);
      }
      var b := once.pieces[k].blocks;
      assert FillBlocks(b, m.begin, m.block) == b;
    }
  }

  /** FindPiece looks only at the indices. */
  lemma {:induction false} FindPieceSameIndices(a: seq<Piece>, b: seq<Piece>, index: int)
    requires |a| == |b|
    requires forall j :: 0 <= j < |a| ==> a[j].index == b[j].index
    ensures FindPiece(a, index) == FindPiece(b, index)
  {
    if |a| > 0 {
      FindPieceSameIndices(a[1..], b[1..], index);
    }
  }

  /** Placing a block never makes a complete piece incomplete, so a
      finished torrent stays finished. */
  lemma PlaceBlockKeepsCompletion(t: Torrent, m: BlockMessage, sha1: seq<byte> -> seq<byte>)
    ensures forall j :: 0 <= j < |t.pieces| && t.pieces[j].complete ==> PlaceBlock(t, m, sha1).pieces[j].complete
    ensures !TorrentNotComplete(t) ==> !TorrentNotComplete(PlaceBlock(t, m, sha1))
  {
  }

  /** processBlock as written. The loops range over copies, so no piece
      ever changes. `blocks` starts as a nil slice, and its first
      `copy(blocks[len(blocks)+1:], …)` slices past its length: a matching
      piece with any block panics. A matching piece without blocks hashes
      the empty string; on a match the write carries no data. */
  function ProcessBlockAsWritten(t: Torrent, msg: seq<byte>, sha1: seq<byte> -> seq<byte>): (r: Result<Torrent>)
    ensures ParsePieceAsWritten(msg).Panic? ==> r.Panic?
    ensures r.Ok? ==> r.value == t.(writes := r.value.writes)
    ensures r.Ok? ==> r.value.writes == t.writes || exists offset :: r.value.writes == t.writes + [FileWrite([], offset)]
    ensures r.Ok? ==> ParsePieceAsWritten(msg).Ok?
    ensures r.Ok? ==>
      var f := FindPiece(t.pieces, ParsePieceAsWritten(msg).value.index);
      (r.value.writes != t.writes <==> f.Some? && sha1([]) == t.pieces[f.value].hash)
    ensures r.Ok? && r.value.writes != t.writes ==>
      var k := FindPiece(t.pieces, ParsePieceAsWritten(msg).value.index).value;
      r.value.writes == t.writes + [FileWrite([], ToInt64(t.info.pieceLength * t.pieces[k].index))]
    ensures ParsePieceAsWritten(msg).Ok? ==>
      var f := FindPiece(t.pieces, ParsePieceAsWritten(msg).value.index);
      (r.Panic? <==> f.Some? && |t.pieces[f.value].blocks| > 0)
  {
    match ParsePieceAsWritten(msg)
    case Panic(f) => Panic(f)
    case Ok(m) =>
      match FindPiece(t.pieces, m.index)
      case None => Ok(t)
      case Some(k) =>
        var piece := t.pieces[k];
        if |piece.blocks| > 0 then Panic(SliceOutOfRange)
        else if sha1([]) == piece.hash then
          Ok(t.(writes := t.writes + [FileWrite([], ToInt64(t.info.pieceLength * piece.index))]))
        else Ok(t)
  }

  /** A block for a piece that has blocks (as every piece prepBlocks lays
      out for a piece length of at least 16384 does): the corrected handler
      accepts the message, the as-written one panics. */
  lemma ProcessBlockAsWrittenPanicsOnBlocks(t: Torrent, k: nat, block: seq<byte>, sha1: seq<byte> -> seq<byte>)
    requires k < |t.pieces| && |t.pieces[k].blocks| > 0 && 0 <= t.pieces[k].index < 0x8000_0000
    requires FindPiece(t.pieces, t.pieces[k].index) == Some(k)
    requires |block| >= 4 && 9 + |block| < 0x8000_0000
    ensures ProcessBlock(t, EncodePiece(t.pieces[k].index, 0, block), sha1).Ok?
    ensures ProcessBlockAsWritten(t, EncodePiece(t.pieces[k].index, 0, block), sha1).Panic?
  {
    ParsePieceRoundTrip(t.pieces[k].index, 0, block);
    AsWrittenPanicsOnBlocks(t, k, block, sha1);
  }

  lemma AsWrittenPanicsOnBlocks(t: Torrent, k: nat, block: seq<byte>, sha1: seq<byte> -> seq<byte>)
    requires k < |t.pieces| && |t.pieces[k].blocks| > 0 && 0 <= t.pieces[k].index < 0x8000_0000
    requires FindPiece(t.pieces, t.pieces[k].index) == Some(k)
    requires |block| >= 4 && 9 + |block| < 0x8000_0000
    ensures ProcessBlockAsWritten(t, EncodePiece(t.pieces[k].index, 0, block), sha1).Panic?
  {
    ParsePieceAsWrittenDropsTail(t.pieces[k].index, 0, block);
  }

  /** A torrent whose only piece has no blocks and whose digest is that of
      the empty string: the corrected handler marks the piece complete, the
      as-written one leaves it incomplete. */
  lemma ProcessBlockAsWrittenLosesCompletion(t: Torrent, block: seq<byte>, sha1: seq<byte> -> seq<byte>)
    requires |t.pieces| == 1 && t.pieces[0].blocks == [] && !t.pieces[0].complete
    requires 0 <= t.pieces[0].index < 0x8000_0000 && t.pieces[0].hash == sha1([])
    requires |block| >= 4 && 9 + |block| < 0x8000_0000
    ensures ProcessBlock(t, EncodePiece(t.pieces[0].index, 0, block), sha1).value.pieces[0].complete
    ensures !ProcessBlockAsWritten(t, EncodePiece(t.pieces[0].index, 0, block), sha1).value.pieces[0].complete
  {
    ParsePieceRoundTrip(t.pieces[0].index, 0, block);
    ParsePieceAsWrittenDropsTail(t.pieces[0].index, 0, block);
    assert BlockData([]) == [];
  }

  // ---------------------------------------------------------------- dispatch

  /** A peer together with the torrent it serves: the state one message can
      change. */
  datatype Connection = Connection(peer: Peer, torrent: Torrent)

  /** processMessage with id 4 routed to processHave (the as-written code
      calls the empty updateBitfield) and id 7 to the corrected processBlock.
      A 4-byte message is a keep-alive and changes nothing; ids 0-3 set one
      flag each; ids 6, 8 and unknown ids change nothing; a message shorter
      than 4 bytes panics when its id byte is read. */
  function ProcessMessage(c: Connection, msg: seq<byte>, sha1: seq<byte> -> seq<byte>): (r: Result<Connection>)
    ensures |msg| == 4 ==> r == Ok(c)
    ensures |msg| < 4 ==> r.Panic?
    ensures |msg| > 4 && msg[4] == 0 ==> r == Ok(c.(peer := c.peer.(choking := 1)))
    ensures |msg| > 4 && msg[4] == 1 ==> r == Ok(c.(peer := c.peer.(choking := 0)))
    ensures |msg| > 4 && msg[4] == 2 ==> r == Ok(c.(peer := c.peer.(interested := 1)))
    ensures |msg| > 4 && msg[4] == 3 ==> r == Ok(c.(peer := c.peer.(interested := 0)))
    ensures |msg| > 4 && (msg[4] == 6 || msg[4] >= 8) ==> r == Ok(c)
    ensures |msg| > 4 && msg[4] == 4 ==>
      (r.Ok? <==> ProcessHave(c.peer, msg).Ok?) && (r.Ok? ==> r.value == c.(peer := ProcessHave(c.peer, msg).value))
    ensures |msg| > 4 && msg[4] == 5 ==> r == Ok(c.(peer := ProcessBitfield(c.peer, msg).value))
    ensures |msg| > 4 && msg[4] == 7 ==>
      (r.Ok? <==> ProcessBlock(c.torrent, msg, sha1).Ok?) && (r.Ok? ==> r.value == c.(torrent := ProcessBlock(c.torrent, msg, sha1).value))
    ensures r.Ok? && (|msg| == 4 || msg[4] != 7) ==> r.value.torrent == c.torrent
    ensures r.Ok? && (|msg| == 4 || msg[4] >= 6) ==> r.value.peer == c.peer
  {
    if |msg| == 4 then Ok(c)
    else if |msg| < 5 then Panic(IndexOutOfRange)
    else
      var id := msg[4];
      if id == 0 then Ok(c.(peer := c.peer.(choking := 1)))
      else if id == 1 then Ok(c.(peer := c.peer.(choking := 0)))
      else if id == 2 then Ok(c.(peer := c.peer.(interested := 1)))
      else if id == 3 then Ok(c.(peer := c.peer.(interested := 0)))
      else if id == 4 then
        match ProcessHave(c.peer, msg)
        case Panic(f) => Panic(f)
        case Ok(p) => Ok(c.(peer := p))
      else if id == 5 then Ok(c.(peer := ProcessBitfield(c.peer, msg).value))
      else if id == 7 then
        match ProcessBlock(c.torrent, msg, sha1)
        case Panic(f) => Panic(f)
        case Ok(t) => Ok(c.(torrent := t))
      else Ok(c)
  }

  /** processMessage as written: id 4 calls updateBitfield, whose body is
      empty, and id 7 calls the as-written processBlock. */
  function ProcessMessageAsWritten(c: Connection, msg: seq<byte>, sha1: seq<byte> -> seq<byte>): (r: Result<Connection>)
    ensures |msg| > 4 && msg[4] == 4 ==> r == Ok(c)
    ensures |msg| > 4 && msg[4] != 4 && msg[4] != 7 ==> r == ProcessMessage(c, msg, sha1)
    ensures |msg| <= 4 ==> r == ProcessMessage(c, msg, sha1)
    ensures |msg| > 4 && msg[4] == 7 ==>
      && (r.Ok? <==> ProcessBlockAsWritten(c.torrent, msg, sha1).Ok?)
      && (r.Ok? ==> r.value == c.(torrent := ProcessBlockAsWritten(c.torrent, msg, sha1).value))
    ensures r.Ok? ==> r.value.peer.bitfield == c.peer.bitfield || (|msg| > 4 && msg[4] == 5)
  {
    if |msg| > 4 && msg[4] == 4 then Ok(c)
    else if |msg| > 4 && msg[4] == 7 then
      match ProcessBlockAsWritten(c.torrent, msg, sha1)
      case Panic(f) => Panic(f)
      case Ok(t) => Ok(c.(torrent := t))
    else ProcessMessage(c, msg, sha1)
  }

  /** A have message for piece i that the peer did not yet hold: the
      corrected dispatch records that the peer now holds it, the as-written
      dispatch leaves the peer as it was. */
  lemma ProcessMessageAsWrittenIgnoresHave(c: Connection, i: nat, sha1: seq<byte> -> seq<byte>)
    requires c.peer.bitfield.Some? && i < |c.peer.bitfield.value| && i < 0x8000_0000
    requires !Holds(c.peer, i)
    ensures ProcessMessage(c, EncodeHave(i), sha1).Ok?
    ensures Holds(ProcessMessage(c, EncodeHave(i), sha1).value.peer, i)
    ensures ProcessMessageAsWritten(c, EncodeHave(i), sha1) == Ok(c)
  {
    HaveMarksHolder(c.peer, i);
  }
}

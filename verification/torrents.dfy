/** Piece and peer bookkeeping of client/torrent.go: splitting the digest
    string into pieces, laying out blocks, adding tracker peers, the
    completion test and the availability annotation. */
module Torrents {
  import opened Binary
  import opened Models

  // Block length: 16384 bytes; digest width in the descriptor's `pieces`
  // string: 20 bytes. Both appear as the literals the source uses.

  // ---------------------------------------------------------------- peers

  /** A peer known only by its address; every other field is Go's zero value. */
  function NewPeer(address: string): Peer
  {
    Peer([], address, None, 0, 0)
  }

  /** AddPeers: one new peer per address, appended in order after the
      existing peers, which stay as they were. */
  function AddPeers(t: Torrent, addresses: seq<string>): (r: Torrent)
    ensures r == t.(peers := r.peers)
    ensures |r.peers| == |t.peers| + |addresses|
    ensures r.peers[..|t.peers|] == t.peers
    ensures forall i :: 0 <= i < |addresses| ==> r.peers[|t.peers| + i] == NewPeer(addresses[i])
    decreases |addresses|
  {
    if |addresses| == 0 then t
    else
      var t' := t.(peers := t.peers + [NewPeer(addresses[0])]);
      var r := AddPeers(t', addresses[1..]);
      assert r.peers[..|t.peers|] == r.peers[..|t'.peers|][..|t.peers|];
      r
  }

  /** Adding two address lists one after the other is adding their concatenation. */
  lemma {:induction false} AddPeersTwice(t: Torrent, a: seq<string>, b: seq<string>)
    ensures AddPeers(AddPeers(t, a), b) == AddPeers(t, a + b)
  {
    var r1 := AddPeers(AddPeers(t, a), b);
    var r2 := AddPeers(t, a + b);
    assert |r1.peers| == |r2.peers|;
    forall i | 0 <= i < |r1.peers|
      ensures r1.peers[i] == r2.peers[i]
    {
      if i < |t.peers| {
        assert r1.peers[i] == AddPeers(t, a).peers[..|t.peers|][i];
      } else if i < |t.peers| + |a| {
        assert r1.peers[i] == AddPeers(t, a).peers[i];
        assert (a + b)[i - |t.peers|] == a[i - |t.peers|];
      } else {
        assert (a + b)[i - |t.peers|] == b[i - |t.peers| - |a|];
      }
    }
  }

  // ---------------------------------------------------------------- blocks

  /** How many blocks prepBlocks lays out: Go's pieceLength / 16384, and
      none when that quotient is not positive. */
  function BlockCount(pieceLength: GoInt): (n: nat)
    ensures pieceLength < 16384 ==> n == 0
    ensures 0 <= pieceLength ==> n * 16384 <= pieceLength < (n + 1) * 16384
  {
    var amount := GoQuotient(pieceLength, 16384);
    if amount > 0 then amount else 0
  }

  /** The block loop of prepBlocks from counter value i onward. */
  function AppendBlocks(piece: Piece, amount: int, i: nat): (r: Piece)
    ensures r == piece.(blocks := r.blocks)
    ensures |r.blocks| == |piece.blocks| + (if amount > i then amount - i else 0)
    ensures r.blocks[..|piece.blocks|] == piece.blocks
    ensures forall k :: |piece.blocks| <= k < |r.blocks| ==>
      r.blocks[k] == Block((i + k - |piece.blocks|) * 16384, [])
    decreases amount - i
  {
    if amount > i then
      var p' := piece.(blocks := piece.blocks + [Block(i * 16384, [])]);
      var r := AppendBlocks(p', amount, i + 1);
      assert r.blocks[..|piece.blocks|] == r.blocks[..|p'.blocks|][..|piece.blocks|];
      r
    else piece
  }

  /** prepBlocks: appends ⌊pieceLength/16384⌋ empty blocks at offsets
      0, 16384, 2·16384, … and changes nothing else about the piece. */
  function PrepBlocks(piece: Piece, pieceLength: GoInt): (r: Piece)
    ensures r == piece.(blocks := r.blocks)
    ensures |r.blocks| == |piece.blocks| + BlockCount(pieceLength)
    ensures r.blocks[..|piece.blocks|] == piece.blocks
    ensures forall i :: 0 <= i < BlockCount(pieceLength) ==>
      r.blocks[|piece.blocks| + i] == Block(i * 16384, [])
  {
    AppendBlocks(piece, GoQuotient(pieceLength, 16384), 0)
  }

  // ---------------------------------------------------------------- pieces

  /** How many whole 20-byte digests the digest string holds. */
  function DigestCount(digests: seq<byte>): (n: nat)
    ensures 20 * n <= |digests| < 20 * (n + 1)
  {
    |digests| / 20
  }

  /** The i-th 20-byte digest of the concatenated digest string. */
  function Digest(digests: seq<byte>, i: nat): (r: seq<byte>)
    requires 20 * (i + 1) <= |digests|
    ensures |r| == 20
  {
    digests[20 * i .. 20 * (i + 1)]
  }

  /** The blocks prepBlocks gives a piece that has none yet. */
  function Layout(pieceLength: GoInt): (r: seq<Block>)
    ensures |r| == BlockCount(pieceLength)
    ensures forall i :: 0 <= i < |r| ==> r[i] == Block(i * 16384, [])
  {
    seq(BlockCount(pieceLength), i => Block(i * 16384, []))
  }

  /** The piece splitPieces builds for digest i: index i, that digest, the
      prepBlocks layout, incomplete and with no known holders. */
  function NewPiece(i: nat, digests: seq<byte>, pieceLength: GoInt): Piece
    requires 20 * (i + 1) <= |digests|
  {
    Piece(i, Digest(digests, i), Layout(pieceLength), false, [])
  }

  /** NewPiece is what splitPieces's loop body makes: a piece with index i
      and digest i, passed through prepBlocks. */
  lemma NewPieceIsPrepared(i: nat, digests: seq<byte>, pieceLength: GoInt)
    requires 20 * (i + 1) <= |digests|
    ensures NewPiece(i, digests, pieceLength) == PrepBlocks(Piece(i, Digest(digests, i), [], false, []), pieceLength)
  {
    var prepared := PrepBlocks(Piece(i, Digest(digests, i), [], false, []), pieceLength);
    assert prepared.blocks == Layout(pieceLength);
  }

  /** The pieces for the first n digests, in order. */
  function PiecesFor(digests: seq<byte>, pieceLength: GoInt, n: nat): (r: seq<Piece>)
    requires 20 * n <= |digests|
    ensures |r| == n
    ensures forall i :: 0 <= i < n ==> r[i] == NewPiece(i, digests, pieceLength)
  {
    if n == 0 then []
    else
      var r := PiecesFor(digests, pieceLength, n - 1) + [NewPiece(n - 1, digests, pieceLength)];
      assert forall i :: 0 <= i < n - 1 ==> r[i] == PiecesFor(digests, pieceLength, n - 1)[i];
      r
  }

  /** splitPieces with its loop bound corrected to `20*(i+1) <= len`: one
      piece per whole digest, appended after the existing pieces. */
  function SplitPieces(t: Torrent): (r: Torrent)
    ensures r == t.(pieces := r.pieces)
    ensures |r.pieces| == |t.pieces| + DigestCount(t.info.pieces)
    ensures r.pieces[..|t.pieces|] == t.pieces
    ensures forall i :: 0 <= i < DigestCount(t.info.pieces) ==>
      var p := r.pieces[|t.pieces| + i];
      && p.index == i
      && p.hash == Digest(t.info.pieces, i)
      && !p.complete
      && p.availablePeers == []
      && p.blocks == Layout(t.info.pieceLength)
  {
    var added := PiecesFor(t.info.pieces, t.info.pieceLength, DigestCount(t.info.pieces));
    AppendFreshPieces(t.pieces, t.info.pieces, t.info.pieceLength, DigestCount(t.info.pieces));
    t.(pieces := t.pieces + added)
  }

  /** Where the fresh pieces lie once appended after the existing ones. */
  lemma AppendFreshPieces(front: seq<Piece>, digests: seq<byte>, pieceLength: GoInt, n: nat)
    requires 20 * n <= |digests|
    ensures var all := front + PiecesFor(digests, pieceLength, n);
      && all[..|front|] == front
      && forall i :: 0 <= i < n ==>
        var p := all[|front| + i];
        && p.index == i
        && p.hash == Digest(digests, i)
        && !p.complete
        && p.availablePeers == []
        && p.blocks == Layout(pieceLength)
  {
    FreshPieces(digests, pieceLength, n);
    AppendedAt(front, PiecesFor(digests, pieceLength, n));
  }

  /** Field by field, what the pieces made for the first n digests hold. */
  lemma FreshPieces(digests: seq<byte>, pieceLength: GoInt, n: nat)
    requires 20 * n <= |digests|
    ensures forall i :: 0 <= i < n ==>
      var p := PiecesFor(digests, pieceLength, n)[i];
      && p.index == i
      && p.hash == Digest(digests, i)
      && !p.complete
      && p.availablePeers == []
      && p.blocks == Layout(pieceLength)
  {
  }

  /** Where the parts of a two-part piece list lie. */
  lemma AppendedAt(front: seq<Piece>, added: seq<Piece>)
    ensures (front + added)[..|front|] == front
    ensures forall i :: 0 <= i < |added| ==> (front + added)[|front| + i] == added[i]
  {
  }

  function Hashes(ps: seq<Piece>): (r: seq<seq<byte>>)
    ensures |r| == |ps|
    ensures forall i :: 0 <= i < |ps| ==> r[i] == ps[i].hash
  {
    seq(|ps|, i requires 0 <= i < |ps| => ps[i].hash)
  }

  lemma {:induction false} FlattenPieceHashes(digests: seq<byte>, pieceLength: GoInt, n: nat)
    requires 20 * n <= |digests|
    ensures Flatten(Hashes(PiecesFor(digests, pieceLength, n))) == digests[..20 * n]
  {
    if n > 0 {
      var front := PiecesFor(digests, pieceLength, n - 1);
      var last := NewPiece(n - 1, digests, pieceLength);
      assert PiecesFor(digests, pieceLength, n) == front + [last];
      FlattenPieceHashes(digests, pieceLength, n - 1);
      HashesAppend(front, last);
      FlattenAppend(Hashes(front), last.hash);
      assert digests[..20 * n] == digests[..20 * (n - 1)] + Digest(digests, n - 1);
    }
  }

  lemma HashesAppend(ps: seq<Piece>, p: Piece)
    ensures Hashes(ps + [p]) == Hashes(ps) + [p.hash]
  {
  }

  lemma {:induction false} FlattenAppend(parts: seq<seq<byte>>, last: seq<byte>)
    ensures Flatten(parts + [last]) == Flatten(parts) + last
  {
    if |parts| > 0 {
      assert (parts + [last])[1..] == parts[1..] + [last];
      FlattenAppend(parts[1..], last);
    }
  }

  /** When the digest string is a whole number of digests, the hashes of the
      pieces splitPieces adds, concatenated in order, are that string again:
      no digest is lost, duplicated or reordered. */
  lemma SplitPiecesKeepsEveryDigest(t: Torrent)
    requires |t.info.pieces| % 20 == 0
    ensures Flatten(Hashes(SplitPieces(t).pieces[|t.pieces|..])) == t.info.pieces
  {
    var n := DigestCount(t.info.pieces);
    var added := SplitPieces(t).pieces[|t.pieces|..];
    assert added == PiecesFor(t.info.pieces, t.info.pieceLength, n);
    FlattenPieceHashes(t.info.pieces, t.info.pieceLength, n);
    assert t.info.pieces[..20 * n] == t.info.pieces;
  }

  /** The loop condition of splitPieces as written, `len(s[:20*(i+1)]) < len(s)`,
      evaluated from counter i: Go panics once 20*(i+1) passes the string's
      end, and otherwise the loop stops when 20*(i+1) reaches it. Ok(n) means
      the loop ran n times. */
  function SplitCountAsWritten(digests: seq<byte>, i: nat): (r: Result<nat>)
    ensures r.Ok? <==> |digests| % 20 == 0 && 20 * (i + 1) <= |digests|
    ensures r.Ok? ==> r.value == DigestCount(digests) - 1
    decreases |digests| - 20 * i
  {
    if 20 * (i + 1) > |digests| then Panic(SliceOutOfRange)
    else if 20 * (i + 1) < |digests| then SplitCountAsWritten(digests, i + 1)
    else Ok(i)
  }

  /** splitPieces exactly as written: the strict `<` in the loop condition
      stops one digest early, and a digest string whose length is not a
      positive multiple of 20 makes the slice expression panic. */
  function SplitPiecesAsWritten(t: Torrent): (r: Result<Torrent>)
    ensures r.Ok? <==> |t.info.pieces| % 20 == 0 && 20 <= |t.info.pieces|
  {
    match SplitCountAsWritten(t.info.pieces, 0)
    case Panic(f) => Panic(f)
    case Ok(n) => Ok(t.(pieces := t.pieces + PiecesFor(t.info.pieces, t.info.pieceLength, n)))
  }

  /** For a well-formed string of n ≥ 1 digests the as-written split yields
      the corrected result minus its last piece: the final digest is dropped. */
  lemma SplitPiecesAsWrittenDropsLastDigest(t: Torrent)
    requires |t.info.pieces| % 20 == 0 && 20 <= |t.info.pieces|
    ensures var fixed := SplitPieces(t).pieces;
      && SplitPiecesAsWritten(t) == Ok(t.(pieces := fixed[..|fixed| - 1]))
      && |fixed| == |t.pieces| + DigestCount(t.info.pieces)
  {
    var n := DigestCount(t.info.pieces);
    assert SplitCountAsWritten(t.info.pieces, 0) == Ok(n - 1);
    var front := PiecesFor(t.info.pieces, t.info.pieceLength, n - 1);
    var last := NewPiece(n - 1, t.info.pieces, t.info.pieceLength);
    assert PiecesFor(t.info.pieces, t.info.pieceLength, n) == front + [last];
    DropLast(t.pieces, front, last);
  }

  lemma DropLast(a: seq<Piece>, b: seq<Piece>, x: Piece)
    ensures (a + (b + [x]))[..|a| + |b|] == a + b
  {
  }

  // ---------------------------------------------------------------- state queries

  function AnyIncomplete(ps: seq<Piece>): (r: bool)
    ensures r <==> exists i :: 0 <= i < |ps| && !ps[i].complete
  {
    if |ps| == 0 then false
    else
      assert forall i :: 1 <= i < |ps| ==> ps[i] == ps[1..][i - 1];
      !ps[0].complete || AnyIncomplete(ps[1..])
  }

  /** torrentNotComplete: true exactly when some piece is not complete, so
      false for a torrent without pieces. */
  function TorrentNotComplete(t: Torrent): (r: bool)
    ensures r <==> exists i :: 0 <= i < |t.pieces| && !t.pieces[i].complete
    ensures |t.pieces| == 0 ==> !r
  {
    AnyIncomplete(t.pieces)
  }

  // ---------------------------------------------------------------- availability

  /** The peer has a bitfield with a 1 at position `index`. */
  predicate Holds(p: Peer, index: int)
  {
    p.bitfield.Some? && 0 <= index < |p.bitfield.value| && p.bitfield.value[index] == 1
  }

  /** Reading `p.Bitfield[index]` is safe: the bitfield is nil (the read is
      skipped) or long enough. */
  predicate CanIndex(p: Peer, index: int)
  {
    p.bitfield.None? || 0 <= index < |p.bitfield.value|
  }

  predicate Ascending(s: seq<nat>)
  {
    forall a, b :: 0 <= a < b < |s| ==> s[a] < s[b]
  }

  /** Positions of the peers holding piece `index`, in peer order; Go panics
      on a non-nil bitfield too short for the index. */
  function Holders(peers: seq<Peer>, index: int): (r: Result<seq<nat>>)
    ensures r.Ok? <==> forall q :: 0 <= q < |peers| ==> CanIndex(peers[q], index)
    ensures r.Ok? ==> forall q: nat :: q in r.value <==> q < |peers| && Holds(peers[q], index)
    ensures r.Ok? ==> Ascending(r.value)
  {
    if |peers| == 0 then Ok([])
    else
      var last := |peers| - 1;
      var front := peers[..last];
      assert forall q :: 0 <= q < last ==> peers[q] == front[q];
      match Holders(front, index)
      case Panic(f) => Panic(f)
      case Ok(h) =>
        var p := peers[last];
        if p.bitfield.Some? && !(0 <= index < |p.bitfield.value|) then Panic(IndexOutOfRange)
        else if Holds(p, index) then
          assert forall a :: 0 <= a < |h| ==> h[a] in h;
          Ok(h + [last])
        else Ok(h)
  }

  /** `after` is `before` with, appended to its available peers, exactly the
      positions of the peers holding its index, each once, in peer order. */
  ghost predicate Annotated(before: Piece, after: Piece, peers: seq<Peer>)
  {
    && after == before.(availablePeers := after.availablePeers)
    && |before.availablePeers| <= |after.availablePeers|
    && after.availablePeers[..|before.availablePeers|] == before.availablePeers
    && var added := after.availablePeers[|before.availablePeers|..];
       && (forall q: nat :: q in added <==> q < |peers| && Holds(peers[q], before.index))
       && Ascending(added)
  }

  /** arrangePiecesBasedOnRarity: the same pieces in the same order (no
      sorting happens), each annotated with the peers whose non-nil bitfield
      has a 1 at its index; Go panics when some non-nil bitfield is too short
      for some piece's index. */
  function ArrangePiecesBasedOnRarity(t: Torrent, pieces: seq<Piece>): (r: Result<seq<Piece>>)
    ensures r.Ok? <==> forall i, q :: 0 <= i < |pieces| && 0 <= q < |t.peers| ==>
                         CanIndex(t.peers[q], pieces[i].index)
    ensures r.Ok? ==> |r.value| == |pieces|
    ensures r.Ok? ==> forall i :: 0 <= i < |pieces| ==> Annotated(pieces[i], r.value[i], t.peers)
  {
    if |pieces| == 0 then Ok([])
    else
      var piece := pieces[0];
      assert forall i :: 1 <= i < |pieces| ==> pieces[i] == pieces[1..][i - 1];
      match Holders(t.peers, piece.index)
      case Panic(f) => Panic(f)
      case Ok(h) =>
        var annotated := piece.(availablePeers := piece.availablePeers + h);
        assert annotated.availablePeers[|piece.availablePeers|..] == h;
        match ArrangePiecesBasedOnRarity(t, pieces[1..])
        case Panic(f) => Panic(f)
        case Ok(rest) => Ok([annotated] + rest)
  }
}

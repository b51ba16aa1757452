/** The tracker wire formats of client/tracker.go: the UDP connect and
    announce datagrams of BEP 15, validation of the announce reply, and the
    compact peer list of BEP 23 shared by the UDP and HTTP transports. */
module Tracker {
  import opened Binary
  import opened Scripts
  import opened Models

  /** The fixed protocol id that opens every UDP connect request. */
  const ConnectMagic: nat := 0x41727101980

  /** The port the client listens on (client/client.go). */
  const ListenPort: GoInt := 4242

  /** CreateTrackerRequest: a compact-mode request for the given info hash
      and local peer id, on the listening port, with zero transfer counters
      and a 4-byte big-endian transaction id. */
  function CreateTrackerRequest(hash: seq<byte>, myPeerId: seq<byte>, transactionId: Uint32): (r: TrackerRequest)
    ensures r.infoHash == hash && r.peerId == myPeerId
    ensures r.compact == 1 && r.port == ListenPort && r.event == NoEvent
    ensures r.uploaded == 0 && r.downloaded == 0 && r.left == 0
    ensures |r.transactionId| == 4 && FromBE(r.transactionId) == transactionId
  {
    TrackerRequest(hash, myPeerId, ListenPort, 0, 0, 0, 1, NoEvent, "", [], ToBE(transactionId, 4))
  }

  /** isUDP: the announce URL's (already parsed) scheme is exactly "udp". */
  function IsUDP(scheme: string): (r: bool)
    ensures r <==> scheme == "udp"
  {
    if scheme == "udp" then true else false
  }

  // ---------------------------------------------------------------- UDP requests

  /** The 16-byte connect request: protocol id, action 0 (connect), transaction id. */
  function ConnectRequest(transactionId: Uint32): (r: seq<byte>)
    ensures |r| == 16
    ensures FromBE(r[0..8]) == ConnectMagic
    ensures FromBE(r[8..12]) == 0
    ensures FromBE(r[12..16]) == transactionId
  {
    var magic, action, tx := ToBE(ConnectMagic, 8), ToBE(0, 4), ToBE(transactionId, 4);
    var r := magic + action + tx;
    assert r[0..8] == magic && r[8..12] == action && r[12..16] == tx;
    r
  }

  /** Bytes 0..16 of the announce: connection id, action 1, transaction id. */
  function AnnounceHeader(connectionId: seq<byte>, transactionId: Uint32): (r: seq<byte>)
    requires |connectionId| == 8
    ensures |r| == 16
    ensures r[0..8] == connectionId
    ensures FromBE(r[8..12]) == 1 && FromBE(r[12..16]) == transactionId
  {
    ToBEFromBE(connectionId);
    var id, action, tx := ToBE(FromBE(connectionId), 8), ToBE(1, 4), ToBE(transactionId, 4);
    var r := id + action + tx;
    assert r[0..8] == id && r[8..12] == action && r[12..16] == tx;
    r
  }

  /** Bytes 56..80 of the announce: downloaded, left and uploaded as uint64. */
  function AnnounceCounters(downloaded: GoInt, left: GoInt, uploaded: GoInt): (r: seq<byte>)
    ensures |r| == 24
    ensures FromBE(r[0..8]) == downloaded % Two64
    ensures FromBE(r[8..16]) == left % Two64
    ensures FromBE(r[16..24]) == uploaded % Two64
  {
    var d, l, u := ToBE(ConvertIntToUint64(downloaded), 8), ToBE(ConvertIntToUint64(left), 8),
                   ToBE(ConvertIntToUint64(uploaded), 8);
    var r := d + l + u;
    assert r[0..8] == d && r[8..16] == l && r[16..24] == u;
    r
  }

  /** Bytes 80..98 of the announce: event 2, IP 0, key 0, num_want -1, port. */
  function AnnounceTail(localPort: GoInt): (r: seq<byte>)
    ensures |r| == 18
    ensures FromBE(r[0..4]) == 2
    ensures FromBE(r[4..8]) == 0 && FromBE(r[8..12]) == 0
    ensures FromBE(r[12..16]) == 0xFFFF_FFFF
    ensures FromBE(r[16..18]) == localPort % Two16
  {
    var event, ip, key := ToBE(2, 4), ToBE(0, 4), ToBE(0, 4);
    var numWant, port := ToBE(ConvertIntToUint32(-1), 4), ToBE(ConvertIntToUint16(localPort), 2);
    Concat5(event, ip, key, numWant, port);
    event + ip + key + numWant + port
  }

  /** The 98-byte announce request built from the connect reply (of which
      bytes 8..16 are the connection id), the request record, a fresh
      transaction id and the local UDP port. Event is always 2 (started),
      IP and key 0, num_want -1 sent as 0xFFFFFFFF. */
  function AnnounceRequest(connectResponse: seq<byte>, req: TrackerRequest,
                           transactionId: Uint32, localPort: GoInt): (r: seq<byte>)
    requires |connectResponse| >= 16
    ensures |r| == 98
    ensures r[0..8] == connectResponse[8..16]
    ensures FromBE(r[8..12]) == 1
    ensures FromBE(r[12..16]) == transactionId
    ensures r[16..36] == Padded(req.infoHash, 20)
    ensures r[36..56] == Padded(req.peerId, 20)
    ensures FromBE(r[56..64]) == req.downloaded % Two64
    ensures FromBE(r[64..72]) == req.left % Two64
    ensures FromBE(r[72..80]) == req.uploaded % Two64
    ensures FromBE(r[80..84]) == 2
    ensures FromBE(r[84..88]) == 0 && FromBE(r[88..92]) == 0
    ensures FromBE(r[92..96]) == 0xFFFF_FFFF
    ensures FromBE(r[96..98]) == localPort % Two16
  {
    var head := AnnounceHeader(connectResponse[8..16], transactionId);
    var hash, id := Padded(req.infoHash, 20), Padded(req.peerId, 20);
    var counters := AnnounceCounters(req.downloaded, req.left, req.uploaded);
    var tail := AnnounceTail(localPort);
    var r := head + hash + id + counters + tail;
    AnnounceLayout(head, hash, id, counters, tail);
    r
  }

  /** Where each field of the announce lands once its five parts are joined. */
  lemma AnnounceLayout(head: seq<byte>, hash: seq<byte>, id: seq<byte>, counters: seq<byte>, tail: seq<byte>)
    requires |head| == 16 && |hash| == 20 && |id| == 20 && |counters| == 24 && |tail| == 18
    ensures var r := head + hash + id + counters + tail;
      && r[0..8] == head[0..8] && r[8..12] == head[8..12] && r[12..16] == head[12..16]
      && r[16..36] == hash && r[36..56] == id
      && r[56..64] == counters[0..8] && r[64..72] == counters[8..16] && r[72..80] == counters[16..24]
      && r[80..84] == tail[0..4] && r[84..88] == tail[4..8] && r[88..92] == tail[8..12]
      && r[92..96] == tail[12..16] && r[96..98] == tail[16..18]
  {
  }

  // ---------------------------------------------------------------- compact peers

  /** One compact peer entry: a 4-byte IPv4 address and a port. */
  datatype Endpoint = Endpoint(ip: seq<byte>, port: Uint16)

  predicate WellFormed(e: Endpoint)
  {
    |e.ip| == 4
  }

  /** "a.b.c.d:port", as net.IP.String and strconv.FormatUint print an IPv4
      entry: four decimal octets joined by '.', then ':' and the decimal port. */
  function FormatEndpoint(e: Endpoint): (r: string)
    requires WellFormed(e)
  {
    Decimal(e.ip[0]) + ['.'] + (Decimal(e.ip[1]) + ['.'] + (Decimal(e.ip[2]) + ['.']
    + (Decimal(e.ip[3]) + [':'] + Decimal(e.port))))
  }

  /** The printed entry determines the entry: reading it back gives `e`, so
      distinct peers never print alike. */
  lemma FormatEndpointRoundTrip(e: Endpoint)
    requires WellFormed(e)
    ensures ReadEndpoint(FormatEndpoint(e)) == Some(e)
  {
    var d0, d1, d2, d3, dp := Decimal(e.ip[0]), Decimal(e.ip[1]), Decimal(e.ip[2]), Decimal(e.ip[3]), Decimal(e.port);
    ReadDecimal(e.ip[0], 256);
    ReadDecimal(e.ip[1], 256);
    ReadDecimal(e.ip[2], 256);
    ReadDecimal(e.ip[3], 256);
    ReadDecimal(e.port, Two16);
    var rest3 := d3 + [':'] + dp;
    var rest2 := d2 + ['.'] + rest3;
    var rest1 := d1 + ['.'] + rest2;
    SplitAtJoin(d0, rest1, '.');
    SplitAtJoin(d1, rest2, '.');
    SplitAtJoin(d2, rest3, '.');
    SplitAtJoin(d3, dp, ':');
    FourBytes(e.ip);
  }

  lemma FourBytes(ip: seq<byte>)
    requires |ip| == 4
    ensures ip == [ip[0], ip[1], ip[2], ip[3]]
  {
  }

  /** The text before the first `sep` and the text after it, or None when
      `sep` does not occur. */
  function SplitAt(s: string, sep: char): (r: Option<(string, string)>)
    ensures r.Some? ==> s == r.value.0 + [sep] + r.value.1 && sep !in r.value.0
    ensures r.None? ==> sep !in s
  {
    if |s| == 0 then None
    else if s[0] == sep then Some(([], s[1..]))
    else
      match SplitAt(s[1..], sep)
      case None => None
      case Some(p) => Some(([s[0]] + p.0, p.1))
  }

  /** Splitting at a separator the front part does not contain recovers
      both parts. */
  lemma {:induction false} SplitAtJoin(a: string, b: string, sep: char)
    requires sep !in a
    ensures SplitAt(a + [sep] + b, sep) == Some((a, b))
  {
    var s := a + [sep] + b;
    if |a| == 0 {
      assert s[0] == sep && s[1..] == b;
    } else {
      assert s[0] == a[0] && a[0] != sep;
      assert s[1..] == a[1..] + [sep] + b;
      SplitAtJoin(a[1..], b, sep);
      assert [a[0]] + a[1..] == a;
    }
  }

  /** A decimal field no wider than `bound` allows, as a number. */
  function ReadField(s: string, bound: nat): (r: Option<nat>)
    ensures r.Some? ==> r.value < bound
  {
    if |s| > 0 && AllDigits(s) && DecimalValue(s) < bound then Some(DecimalValue(s)) else None
  }

  /** Reads "a.b.c.d:port" back into an entry: four decimal octets below
      256 separated by '.', then ':' and a decimal port below 65536. */
  function ReadEndpoint(s: string): (r: Option<Endpoint>)
    ensures r.Some? ==> WellFormed(r.value)
  {
    match SplitAt(s, '.')
    case None => None
    case Some(p0) =>
      match SplitAt(p0.1, '.')
      case None => None
      case Some(p1) =>
        match SplitAt(p1.1, '.')
        case None => None
        case Some(p2) =>
          match SplitAt(p2.1, ':')
          case None => None
          case Some(p3) =>
            match (ReadField(p0.0, 256), ReadField(p1.0, 256), ReadField(p2.0, 256),
                   ReadField(p3.0, 256), ReadField(p3.1, Two16))
            case (Some(a), Some(b), Some(c), Some(d), Some(port)) => Some(Endpoint([a, b, c, d], port))
            case _ => None
  }

  /** Each decimal field of a printed entry reads back to its value. */
  lemma ReadDecimal(n: nat, bound: nat)
    requires n < bound
    ensures ReadField(Decimal(n), bound) == Some(n)
    ensures '.' !in Decimal(n) && ':' !in Decimal(n)
  {
    DecimalReadsBack(n);
  }

  /** Entry i of a reply lies wholly inside the buffer. */
  predicate EntryFits(response: seq<byte>, i: nat)
  {
    26 + 6 * i <= |response|
  }

  /** The IPv4 field of entry i (bytes 20+6i..24+6i) is readable and zero:
      the terminator parsePeers looks for. */
  predicate TerminatorAt(response: seq<byte>, i: nat)
  {
    24 + 6 * i <= |response| && FromBE(response[20 + 6 * i .. 24 + 6 * i]) == 0
  }

  /** Entry i of a reply: big-endian IPv4 at 20+6i, big-endian port at 24+6i. */
  function EntryAt(response: seq<byte>, i: nat): (e: Endpoint)
    requires EntryFits(response, i)
    ensures WellFormed(e)
  {
    Endpoint(response[20 + 6 * i .. 24 + 6 * i], FromBE(response[24 + 6 * i .. 26 + 6 * i]))
  }

  /** The entries parsePeers's loop visits from entry i on, with the loop
      also bounded by the buffer: entries in order until the first zero
      address or the first entry that does not fit. */
  function ParseEntriesFrom(response: seq<byte>, i: nat): (r: seq<Endpoint>)
    ensures AllWellFormed(r)
    ensures forall j :: i <= j < i + |r| ==> EntryFits(response, j) && !TerminatorAt(response, j)
    ensures forall j :: i <= j < i + |r| ==> r[j - i] == EntryAt(response, j)
    ensures EntryFits(response, i + |r|) ==> TerminatorAt(response, i + |r|)
    ensures |r| > 0 ==> 20 + 6 * (i + |r|) <= |response|
    decreases |response| - 6 * i
  {
    if !EntryFits(response, i) then []
    else if TerminatorAt(response, i) then []
    else [EntryAt(response, i)] + ParseEntriesFrom(response, i + 1)
  }

  function ParseEntries(response: seq<byte>): (r: seq<Endpoint>)
    ensures AllWellFormed(r)
    ensures 20 + 6 * |r| <= |response| || r == []
    ensures forall k :: 0 <= k < |r| ==>
      EntryFits(response, k) && !TerminatorAt(response, k) && r[k] == EntryAt(response, k)
    ensures EntryFits(response, |r|) ==> TerminatorAt(response, |r|)
  {
    var r := ParseEntriesFrom(response, 0);
    assert forall k :: 0 <= k < |r| ==> r[k] == r[k - 0] == EntryAt(response, k);
    r
  }

  /** parsePeers, corrected to stop at the end of the buffer as well as at a
      zero address: entry k of the result is the k-th 6-byte entry after the
      20-byte header, printed, and parsing stops exactly at the first zero
      address or incomplete entry. */
  function ParsePeers(response: seq<byte>): (r: seq<string>)
    ensures forall k :: 0 <= k < |r| ==>
      EntryFits(response, k) && !TerminatorAt(response, k) && r[k] == FormatEndpoint(EntryAt(response, k))
    ensures EntryFits(response, |r|) ==> TerminatorAt(response, |r|)
  {
    Formats(ParseEntries(response))
  }

  /** The entries the as-written loop visits: it only stops at a zero
      address, so when the buffer ends first the slice expressions panic.
      Where it does not panic it visits what the corrected loop visits. */
  function ParseEntriesAsWrittenFrom(response: seq<byte>, i: nat): (r: Result<seq<Endpoint>>)
    ensures r.Ok? <==> TerminatorAt(response, i + |ParseEntriesFrom(response, i)|)
    ensures r.Ok? ==> r.value == ParseEntriesFrom(response, i)
    decreases |response| - 6 * i
  {
    if 24 + 6 * i > |response| then Panic(SliceOutOfRange)
    else if TerminatorAt(response, i) then Ok([])
    else if !EntryFits(response, i) then Panic(SliceOutOfRange)
    else
      match ParseEntriesAsWrittenFrom(response, i + 1)
      case Panic(f) => Panic(f)
      case Ok(rest) => Ok([EntryAt(response, i)] + rest)
  }

  /** parsePeers as written: it panics exactly when the buffer holds no zero
      address where the corrected parser stops, and otherwise agrees with it. */
  function ParsePeersAsWritten(response: seq<byte>): (r: Result<seq<string>>)
    ensures r.Ok? <==> TerminatorAt(response, |ParsePeers(response)|)
    ensures r.Ok? ==> r.value == ParsePeers(response)
  {
    match ParseEntriesAsWrittenFrom(response, 0)
    case Panic(f) => Panic(f)
    case Ok(eps) => Ok(Formats(eps))
  }

  /** The compact encoding of one entry and of a list of entries. */
  function EncodeEndpoint(e: Endpoint): (r: seq<byte>)
    requires WellFormed(e)
    ensures |r| == 6
    ensures r[0..4] == e.ip && FromBE(r[4..6]) == e.port
  {
    PowersOf256();
    var r := e.ip + ToBE(e.port, 2);
    assert r[4..6] == ToBE(e.port, 2);
    r
  }

  predicate AllWellFormed(eps: seq<Endpoint>)
  {
    forall i :: 0 <= i < |eps| ==> WellFormed(eps[i])
  }

  /** No entry has the all-zero address that parsePeers treats as a terminator. */
  predicate NoZeroAddress(eps: seq<Endpoint>)
    requires AllWellFormed(eps)
  {
    forall i :: 0 <= i < |eps| ==> FromBE(eps[i].ip) != 0
  }

  function EncodeCompact(eps: seq<Endpoint>): (r: seq<byte>)
    requires AllWellFormed(eps)
    ensures |r| == 6 * |eps|
  {
    if |eps| == 0 then [] else EncodeEndpoint(eps[0]) + EncodeCompact(eps[1..])
  }

  function Formats(eps: seq<Endpoint>): (r: seq<string>)
    requires AllWellFormed(eps)
    ensures |r| == |eps|
    ensures forall i :: 0 <= i < |eps| ==> r[i] == FormatEndpoint(eps[i])
  {
    seq(|eps|, i requires 0 <= i < |eps| && AllWellFormed(eps) => FormatEndpoint(eps[i]))
  }

  /** Entry i of the compact encoding sits at bytes 6i..6i+6: the address
      first, then the big-endian port. */
  lemma {:induction false} EncodeCompactAt(eps: seq<Endpoint>, i: nat)
    requires AllWellFormed(eps)
    requires i < |eps|
    ensures EncodeCompact(eps)[6 * i .. 6 * i + 4] == eps[i].ip
    ensures FromBE(EncodeCompact(eps)[6 * i + 4 .. 6 * i + 6]) == eps[i].port
  {
    var head, rest := EncodeEndpoint(eps[0]), EncodeCompact(eps[1..]);
    assert EncodeCompact(eps) == head + rest;
    if i > 0 {
      EncodeCompactAt(eps[1..], i - 1);
      SliceAfter(head, rest, 6 * (i - 1), 6 * (i - 1) + 4);
      SliceAfter(head, rest, 6 * (i - 1) + 4, 6 * (i - 1) + 6);
    } else {
      SliceBefore(head, rest, 0, 4);
      SliceBefore(head, rest, 4, 6);
    }
  }

  /** Entry i of a header followed by c is read from bytes 6i..6i+6 of c. */
  lemma EntryAfterHeader(header: seq<byte>, c: seq<byte>, i: nat)
    requires |header| == 20 && 6 * i + 6 <= |c|
    ensures EntryFits(header + c, i)
    ensures EntryAt(header + c, i) == Endpoint(c[6 * i .. 6 * i + 4], FromBE(c[6 * i + 4 .. 6 * i + 6]))
  {
    SliceAfter(header, c, 6 * i, 6 * i + 4);
    SliceAfter(header, c, 6 * i + 4, 6 * i + 6);
  }

  /** The entry read back at position i of a header followed by the
      compact encoding is the i-th endpoint. */
  lemma EntryOfEncoding(header: seq<byte>, eps: seq<Endpoint>, i: nat)
    requires |header| == 20 && AllWellFormed(eps) && i < |eps|
    ensures EntryFits(header + EncodeCompact(eps), i)
    ensures EntryAt(header + EncodeCompact(eps), i) == eps[i]
  {
    EncodeCompactAt(eps, i);
    EntryAfterHeader(header, EncodeCompact(eps), i);
  }

  /** An encoded entry with a non-zero address fits and does not stop parsing. */
  lemma EncodedEntryIsNoTerminator(header: seq<byte>, eps: seq<Endpoint>, i: nat)
    requires |header| == 20 && AllWellFormed(eps) && NoZeroAddress(eps) && i < |eps|
    ensures EntryFits(header + EncodeCompact(eps), i)
    ensures !TerminatorAt(header + EncodeCompact(eps), i)
  {
    EntryOfEncoding(header, eps, i);
    var response := header + EncodeCompact(eps);
    assert response[20 + 6 * i .. 24 + 6 * i] == EntryAt(response, i).ip == eps[i].ip;
  }

  /** Round trip: after any 20-byte header, the compact encoding of entries
      with non-zero addresses is read back entry for entry. */
  lemma ParseEntriesRoundTrip(header: seq<byte>, eps: seq<Endpoint>)
    requires |header| == 20 && AllWellFormed(eps) && NoZeroAddress(eps)
    ensures ParseEntries(header + EncodeCompact(eps)) == eps
  {
    var response := header + EncodeCompact(eps);
    var r := ParseEntries(response);
    if |r| < |eps| {
      EncodedEntryIsNoTerminator(header, eps, |r|);
      assert false;
    }
    if |r| > |eps| {
      assert false;
    }
    forall k | 0 <= k < |r|
      ensures r[k] == eps[k]
    {
      EntryOfEncoding(header, eps, k);
    }
  }

  /** The same round trip through the printed form parsePeers returns. */
  lemma ParsePeersRoundTrip(header: seq<byte>, eps: seq<Endpoint>)
    requires |header| == 20 && AllWellFormed(eps) && NoZeroAddress(eps)
    ensures ParsePeers(header + EncodeCompact(eps)) == Formats(eps)
  {
    ParseEntriesRoundTrip(header, eps);
  }

  /** The as-written parser on the same buffer: the list carries no zero
      terminator, so the loop reads past the end and panics. */
  lemma ParsePeersAsWrittenOverruns(header: seq<byte>, eps: seq<Endpoint>)
    requires |header| == 20 && AllWellFormed(eps) && NoZeroAddress(eps)
    ensures ParsePeersAsWritten(header + EncodeCompact(eps)).Panic?
  {
    ParsePeersRoundTrip(header, eps);
  }

  /** The decimal renderings the reference example needs. */
  lemma DecimalExamples()
    ensures Decimal(0) == "0" && Decimal(1) == "1" && Decimal(5) == "5"
    ensures Decimal(10) == "10" && Decimal(168) == "168" && Decimal(192) == "192"
    ensures Decimal(6881) == "6881" && Decimal(51413) == "51413"
  {
    FirstDecimals();
    SecondDecimals();
  }

  lemma FirstDecimals()
    ensures Decimal(1) == "1" && Decimal(168) == "168" && Decimal(192) == "192" && Decimal(6881) == "6881"
  {
    DecimalStep(16, '8');
    DecimalStep(19, '2');
    DecimalStep(68, '1');
    DecimalStep(688, '1');
  }

  lemma SecondDecimals()
    ensures Decimal(0) == "0" && Decimal(5) == "5" && Decimal(10) == "10" && Decimal(51413) == "51413"
  {
    DecimalStep(51, '4');
    DecimalStep(514, '1');
    DecimalStep(5141, '3');
  }

  /** Appending a digit: Decimal(10n + d) is Decimal(n) followed by d. */
  lemma DecimalStep(n: nat, d: char)
    requires 1 <= n && '0' <= d <= '9'
    ensures Decimal(10 * n + (d as int - '0' as int)) == Decimal(n) + [d]
  {
    var m := 10 * n + (d as int - '0' as int);
    assert m / 10 == n && m % 10 == d as int - '0' as int;
  }

  /** The reference example: 192.168.1.1:6881 and 10.0.0.5:51413 in compact
      form parse back to their dotted strings. */
  lemma ParsePeersTwoExample(header: seq<byte>)
    requires |header| == 20
    ensures ParsePeers(header + [192, 168, 1, 1, 0x1A, 0xE1, 10, 0, 0, 5, 0xC8, 0xD5])
            == ["192.168.1.1:6881", "10.0.0.5:51413"]
  {
    var first, second := Endpoint([192, 168, 1, 1], 6881), Endpoint([10, 0, 0, 5], 51413);
    ParseEntriesExample(header);
    FormatsPair(first, second);
    FormatFirstExample();
    FormatSecondExample();
  }

  lemma FormatsPair(a: Endpoint, b: Endpoint)
    requires WellFormed(a) && WellFormed(b)
    ensures AllWellFormed([a, b]) && Formats([a, b]) == [FormatEndpoint(a), FormatEndpoint(b)]
  {
  }

  /** A zero address at position 1 stops parsing after position 0. */
  lemma ParsePeersStopExample(header: seq<byte>)
    requires |header| == 20
    ensures ParsePeers(header + [192, 168, 1, 1, 0x1A, 0xE1, 0, 0, 0, 0, 0xC8, 0xD5])
            == ["192.168.1.1:6881"]
  {
    FormatFirstExample();
    ParseEntriesStopExample(header);
  }

  lemma FormatFirstExample()
    ensures FormatEndpoint(Endpoint([192, 168, 1, 1], 6881)) == "192.168.1.1:6881"
  {
    FirstDecimals();
    PrintedAs([192, 168, 1, 1], 6881, "192", "168", "1", "1", "6881");
    assert "192" + ['.'] + ("168" + ['.'] + ("1" + ['.'] + ("1" + [':'] + "6881"))) == "192.168.1.1:6881";
  }

  lemma FormatSecondExample()
    ensures FormatEndpoint(Endpoint([10, 0, 0, 5], 51413)) == "10.0.0.5:51413"
  {
    SecondDecimals();
    PrintedAs([10, 0, 0, 5], 51413, "10", "0", "0", "5", "51413");
    assert "10" + ['.'] + ("0" + ['.'] + ("0" + ['.'] + ("5" + [':'] + "51413"))) == "10.0.0.5:51413";
  }

  /** An entry whose fields print as the given decimal strings. */
  lemma PrintedAs(ip: seq<byte>, port: Uint16, a: string, b: string, c: string, d: string, p: string)
    requires |ip| == 4
    requires Decimal(ip[0]) == a && Decimal(ip[1]) == b && Decimal(ip[2]) == c && Decimal(ip[3]) == d
    requires Decimal(port) == p
    ensures FormatEndpoint(Endpoint(ip, port)) == a + ['.'] + (b + ['.'] + (c + ['.'] + (d + [':'] + p)))
  {
  }

  lemma ParseEntriesExample(header: seq<byte>)
    requires |header| == 20
    ensures ParseEntries(header + [192, 168, 1, 1, 0x1A, 0xE1, 10, 0, 0, 5, 0xC8, 0xD5])
            == [Endpoint([192, 168, 1, 1], 6881), Endpoint([10, 0, 0, 5], 51413)]
  {
    var two: seq<byte> := [192, 168, 1, 1, 0x1A, 0xE1, 10, 0, 0, 5, 0xC8, 0xD5];
    var response := header + two;
    ExampleFirstEntry(header, two);
    ExampleSecondEntry(header, two);
    ParseStep(response, 0);
    ParseStep(response, 1);
    assert ParseEntriesFrom(response, 2) == [];
  }

  lemma ParseEntriesStopExample(header: seq<byte>)
    requires |header| == 20
    ensures ParseEntries(header + [192, 168, 1, 1, 0x1A, 0xE1, 0, 0, 0, 0, 0xC8, 0xD5])
            == [Endpoint([192, 168, 1, 1], 6881)]
  {
    var stop: seq<byte> := [192, 168, 1, 1, 0x1A, 0xE1, 0, 0, 0, 0, 0xC8, 0xD5];
    var response := header + stop;
    ExampleFirstEntry(header, stop);
    ExampleEntry(header, stop, 1, [0, 0, 0, 0], [0xC8, 0xD5]);
    ParseStep(response, 0);
    assert ParseEntriesFrom(response, 1) == [];
  }

  /** The entry 192.168.1.1:6881 at the head of both examples. */
  lemma ExampleFirstEntry(header: seq<byte>, c: seq<byte>)
    requires |header| == 20 && |c| == 12
    requires c[0] == 192 && c[1] == 168 && c[2] == 1 && c[3] == 1 && c[4] == 0x1A && c[5] == 0xE1
    ensures EntryFits(header + c, 0) && !TerminatorAt(header + c, 0)
    ensures EntryAt(header + c, 0) == Endpoint([192, 168, 1, 1], 6881)
  {
    ExampleEntry(header, c, 0, [192, 168, 1, 1], [0x1A, 0xE1]);
  }

  /** The entry 10.0.0.5:51413 second in the first example. */
  lemma ExampleSecondEntry(header: seq<byte>, c: seq<byte>)
    requires |header| == 20 && |c| == 12
    requires c[6] == 10 && c[7] == 0 && c[8] == 0 && c[9] == 5 && c[10] == 0xC8 && c[11] == 0xD5
    ensures EntryFits(header + c, 1) && !TerminatorAt(header + c, 1)
    ensures EntryAt(header + c, 1) == Endpoint([10, 0, 0, 5], 51413)
  {
    ExampleEntry(header, c, 1, [10, 0, 0, 5], [0xC8, 0xD5]);
  }

  /** Entry i of a header followed by c, given the bytes of its two fields. */
  lemma ExampleEntry(header: seq<byte>, c: seq<byte>, i: nat, ip: seq<byte>, port: seq<byte>)
    requires |header| == 20 && 6 * i + 6 <= |c|
    requires ip == [192, 168, 1, 1] || ip == [10, 0, 0, 5] || ip == [0, 0, 0, 0]
    requires port == [0x1A, 0xE1] || port == [0xC8, 0xD5]
    requires c[6 * i] == ip[0] && c[6 * i + 1] == ip[1] && c[6 * i + 2] == ip[2] && c[6 * i + 3] == ip[3]
    requires c[6 * i + 4] == port[0] && c[6 * i + 5] == port[1]
    ensures EntryFits(header + c, i)
    ensures EntryAt(header + c, i) == Endpoint(ip, if port == [0x1A, 0xE1] then 6881 else 51413)
    ensures TerminatorAt(header + c, i) <==> ip == [0, 0, 0, 0]
  {
    EntryAfterHeader(header, c, i);
    assert c[6 * i .. 6 * i + 4] == ip;
    assert c[6 * i + 4 .. 6 * i + 6] == port;
    FromBEZero(ip);
    assert FromBE([0x1A]) == 0x1A && FromBE([0xC8]) == 0xC8;
  }

  /** One step of the corrected loop: an entry that fits and is not a
      terminator is taken, and parsing goes on with the next one. */
  lemma ParseStep(response: seq<byte>, i: nat)
    requires EntryFits(response, i) && !TerminatorAt(response, i)
    ensures ParseEntriesFrom(response, i) == [EntryAt(response, i)] + ParseEntriesFrom(response, i + 1)
  {
  }

  // ---------------------------------------------------------------- replies

  /** The announce reply check of announceUDP: peers are parsed, by
      parsePeers as written, only when bytes 0..4 hold action 1 and bytes
      4..8 echo the request's transaction id (request bytes 12..16); any
      other reply yields no peers. Go panics on a reply shorter than 8
      bytes, on a matching one shorter than 20 bytes (its seeder count at
      16..20 is read), and wherever the parser runs past the buffer. */
  function AnnounceResponsePeers(request: seq<byte>, response: seq<byte>): (r: Result<seq<string>>)
    requires |request| == 98
    ensures |response| < 8 ==> r.Panic?
    ensures r.Ok? && r.value != [] ==> response[4..8] == request[12..16] && FromBE(response[..4]) == 1
    ensures |response| >= 20 && response[4..8] == request[12..16] && FromBE(response[..4]) == 1 ==>
      r == ParsePeersAsWritten(response)
    ensures |response| >= 8 && !(response[4..8] == request[12..16] && FromBE(response[..4]) == 1) ==> r == Ok([])
    ensures 8 <= |response| < 20 && response[4..8] == request[12..16] && FromBE(response[..4]) == 1 ==> r.Panic?
  {
    if |response| < 8 then Panic(SliceOutOfRange)
    else if request[12..16] == response[4..8] && FromBE(response[..4]) == 1 then
      if |response| < 20 then Panic(SliceOutOfRange) else ParsePeersAsWritten(response)
    else Ok([])
  }

  /** What sendUDPRequest hands back: its whole 8192-byte read buffer,
      holding the datagram followed by zeros (the number of bytes read is
      not passed on). */
  function UdpReplyBuffer(datagram: seq<byte>): (r: seq<byte>)
    ensures |r| == 8192
    ensures forall i :: 0 <= i < |datagram| && i < 8192 ==> r[i] == datagram[i]
    ensures forall i :: |datagram| <= i < 8192 ==> r[i] == 0
  {
    Padded(datagram, 8192)
  }

  /** On the UDP path the zero padding always supplies a terminator for a
      datagram of at most 8186 bytes, so parsePeers as written cannot run
      past the buffer there and returns what the corrected parser returns. */
  lemma UdpReplyNeverOverruns(datagram: seq<byte>)
    requires |datagram| <= 8186
    ensures ParsePeersAsWritten(UdpReplyBuffer(datagram)) == Ok(ParsePeers(UdpReplyBuffer(datagram)))
  {
    var buffer := UdpReplyBuffer(datagram);
    PaddingTerminates(datagram);
    var n := |ParseEntries(buffer)|;
    assert n <= 1361;
    assert EntryFits(buffer, n);
  }

  /** The address field of entry 1361 (bytes 8186..8190) lies in the zero
      padding, so it is a terminator. */
  lemma PaddingTerminates(datagram: seq<byte>)
    requires |datagram| <= 8186
    ensures TerminatorAt(UdpReplyBuffer(datagram), 1361)
  {
    var zeros := UdpReplyBuffer(datagram)[8186..8190];
    assert forall i :: 0 <= i < 4 ==> zeros[i] == 0;
    FromBEZero(zeros);
  }

  /** A well-formed announce reply, received over UDP, yields the peers the
      corrected parser finds, or none when the action or transaction id does
      not match; it never panics. */
  lemma AnnounceReplyParses(request: seq<byte>, datagram: seq<byte>)
    requires |request| == 98 && |datagram| <= 8186
    ensures AnnounceResponsePeers(request, UdpReplyBuffer(datagram)).Ok?
    ensures var buffer := UdpReplyBuffer(datagram);
      buffer[4..8] == request[12..16] && FromBE(buffer[..4]) == 1 ==>
        AnnounceResponsePeers(request, buffer).value == ParsePeers(buffer)
  {
    UdpReplyNeverOverruns(datagram);
  }

  /** The HTTP transport's compact peer string, placed at offset 20 of a
      zero-filled buffer and parsed with the corrected parser: every whole
      6-byte entry up to the first zero address. */
  function CompactPeers(peers: seq<byte>): (r: seq<string>)
    ensures |peers| < 6 ==> r == []
    ensures |r| <= |peers| / 6
  {
    var response := Zeros(20) + peers;
    var r := ParsePeers(response);
    assert |r| > 0 ==> EntryFits(response, |r| - 1);
    r
  }

  /** The compact string wrapping of announceTCP as written: the buffer is
      parsed only when longer than 30 bytes, i.e. the string is longer than
      10 bytes, and then by the as-written parser. */
  function CompactPeersAsWritten(peers: seq<byte>): (r: Result<seq<string>>)
    ensures |peers| <= 10 ==> r == Ok([])
    ensures r.Ok? ==> r.value == [] || r.value == CompactPeers(peers)
  {
    var response := Zeros(20) + peers;
    if |response| > 30 then ParsePeersAsWritten(response) else Ok([])
  }

  /** Above the threshold the as-written wrapping is exactly the as-written
      parser on the zero header followed by the string, so it panics where
      that parser panics and otherwise returns the corrected parse. */
  lemma CompactPeersAsWrittenParsesLong(peers: seq<byte>)
    requires |peers| > 10
    ensures CompactPeersAsWritten(peers) == ParsePeersAsWritten(Zeros(20) + peers)
    ensures CompactPeersAsWritten(peers).Ok? ==> CompactPeersAsWritten(peers).value == CompactPeers(peers)
  {
  }

  /** The HTTP compact list round-trips through the corrected wrapping. */
  lemma CompactPeersRoundTrip(eps: seq<Endpoint>)
    requires AllWellFormed(eps) && NoZeroAddress(eps)
    ensures CompactPeers(EncodeCompact(eps)) == Formats(eps)
  {
    ParsePeersRoundTrip(Zeros(20), eps);
  }

  /** As written, a reply carrying a single peer (6 bytes, a 26-byte buffer)
      is below the 30-byte threshold and yields no peers. */
  lemma CompactPeersAsWrittenDropsLonePeer(e: Endpoint)
    requires WellFormed(e) && FromBE(e.ip) != 0
    ensures CompactPeersAsWritten(EncodeEndpoint(e)) == Ok([])
    ensures CompactPeers(EncodeEndpoint(e)) == [FormatEndpoint(e)]
  {
    assert EncodeCompact([e]) == EncodeEndpoint(e);
    CompactPeersRoundTrip([e]);
  }

  /** As written, any reply with two or more peers and no zero address panics. */
  lemma CompactPeersAsWrittenOverruns(eps: seq<Endpoint>)
    requires AllWellFormed(eps) && NoZeroAddress(eps) && |eps| >= 2
    ensures CompactPeersAsWritten(EncodeCompact(eps)).Panic?
  {
    ParsePeersAsWrittenOverruns(Zeros(20), eps);
  }
}

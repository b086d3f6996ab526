/**
 * The peer side of the BitTorrent peer wire protocol (the "peer protocol"
 * section of BEP 3) as the prototype's `TorrentPeer` implements it: the
 * handshake codec, the length-prefixed message framing with its keep-alive
 * rule, the classification of message ids and the walk over a received
 * bitfield.
 *
 * The socket is modelled by everything the remote peer sends before it
 * closes the connection (`stream`); a `recv(n)` hands back the next
 * min(n, available) of those bytes, and an empty read means the end of the
 * stream. The socket timeout, which a real `recv` raises while an open
 * connection is idle, is not modelled.
 */
module Peer {
  import opened Wrappers
  import opened Bytes

  /** The exceptions the peer code lets escape. */
  datatype PeerError =
    | StructError                // struct.unpack got a buffer of the wrong size
    | IndexError                 // an empty byte string indexed, or an empty bit array popped
    | ProtocolError              // PeerProtocolError: the handshake names another protocol
    | MessageTypeError(id: byte) // PeerProtocolMessageTypeError: an unrecognised message id
  {
    /** PeerProtocolMessageTypeError is a subclass of PeerProtocolError. */
    predicate IsPeerProtocolError()
    {
      ProtocolError? || MessageTypeError?
    }
  }

  /** A value decoded from the stream, with how many bytes were read for it. */
  datatype Incoming<+T> = Incoming(value: T, consumed: nat)

  function Ascii(s: string): (r: seq<byte>)
    requires forall i :: 0 <= i < |s| ==> s[i] as int < 256
    ensures |r| == |s|
    ensures forall i :: 0 <= i < |s| ==> r[i] == s[i] as int
  {
    seq(|s|, i requires 0 <= i < |s| => s[i] as int)
  }

  /** The protocol name of every handshake, `b'BitTorrent protocol'`. */
  const ProtocolName: seq<byte> := Ascii("BitTorrent protocol")

  /** 1 + 19 + 8 + 20 + 20: length byte, protocol name, reserved, info hash, peer id. */
  const HandshakeLength: nat := 68

  datatype Handshake = Handshake(pstr: seq<byte>, infoHash: seq<byte>, peerId: seq<byte>)

  /** A frame split into its id byte and the rest. */
  datatype RawMessage = RawMessage(id: byte, payload: seq<byte>)

  /** The ten message types `handle_message` recognises. */
  datatype MessageType =
    | Choke | Unchoke | Interested | NotInterested | Have
    | Bitfield | Request | Piece | Cancel | Port

  /** The wire id of each message type. */
  function MessageId(t: MessageType): byte
  {
    match t
    case Choke => 0
    case Unchoke => 1
    case Interested => 2
    case NotInterested => 3
    case Have => 4
    case Bitfield => 5
    case Request => 6
    case Piece => 7
    case Cancel => 8
    case Port => 9
  }

  /** The `if msg_id == 0 ... elif msg_id == 9 ... else raise` chain of `handle_message`. */
  function Classify(id: byte): (r: Result<MessageType, PeerError>)
    ensures r.Ok? <==> id <= 9
    ensures r.Ok? ==> MessageId(r.value) == id
    ensures r.Err? ==> r.error == MessageTypeError(id) && r.error.IsPeerProtocolError()
  {
    if id == 0 then Ok(Choke)
    else if id == 1 then Ok(Unchoke)
    else if id == 2 then Ok(Interested)
    else if id == 3 then Ok(NotInterested)
    else if id == 4 then Ok(Have)
    else if id == 5 then Ok(Bitfield)
    else if id == 6 then Ok(Request)
    else if id == 7 then Ok(Piece)
    else if id == 8 then Ok(Cancel)
    else if id == 9 then Ok(Port)
    else Err(MessageTypeError(id))
  }

  /** Every message type is recognised from its own id. */
  lemma ClassifyMessageId(t: MessageType)
    ensures Classify(MessageId(t)) == Ok(t)
  {
  }

  /** What `recv(n)` returns: at most n of the bytes still to be read. */
  function Recv(stream: seq<byte>, n: nat): (r: seq<byte>)
    ensures |r| == if n <= |stream| then n else |stream|
    ensures r == stream[..|r|]
  {
    if n <= |stream| then stream[..n] else stream
  }

  /**
   * The bit indices the bitfield walk reports missing after i pops: pop
   * number j takes the last remaining bit, bits[|bits| - 1 - j], and piece j
   * is reported when that bit is 0.
   */
  function PoppedMissing(bits: seq<bool>, i: nat): seq<nat>
    requires i <= |bits|
  {
    if i == 0 then []
    else PoppedMissing(bits, i - 1) + (if bits[|bits| - i] then [] else [i - 1])
  }

  /** The walk over pieceCount pieces: the pops fail once the array is empty. */
  function BitfieldReport(bits: seq<bool>, pieceCount: nat): (r: Result<seq<nat>, PeerError>)
    ensures r.Ok? <==> pieceCount <= |bits|
    ensures r.Err? ==> r.error == IndexError
  {
    if pieceCount <= |bits| then Ok(PoppedMissing(bits, pieceCount)) else Err(IndexError)
  }

  /** Piece j is reported missing exactly when the bit popped for it is 0. */
  lemma {:induction false} PoppedMissingMembers(bits: seq<bool>, i: nat)
    requires i <= |bits|
    ensures forall j: nat :: j in PoppedMissing(bits, i) <==> j < i && !bits[|bits| - 1 - j]
  {
    if i > 0 {
      PoppedMissingMembers(bits, i - 1);
    }
  }

  /** Missing pieces are reported in ascending order, each once. */
  lemma {:induction false} PoppedMissingAscending(bits: seq<bool>, i: nat)
    requires i <= |bits|
    ensures forall j, k :: 0 <= j < k < |PoppedMissing(bits, i)| ==>
              PoppedMissing(bits, i)[j] < PoppedMissing(bits, i)[k]
  {
    if i > 0 {
      PoppedMissingAscending(bits, i - 1);
      PoppedMissingMembers(bits, i - 1);
      var prev := PoppedMissing(bits, i - 1);
      assert forall j :: 0 <= j < |prev| ==> prev[j] in prev;
    }
  }

  /**
   * On the bytes of a bitfield payload, piece 8 * q + m is reported missing
   * exactly when bit m, counted from the least significant end, of the byte
   * q places from the end of the payload is 0.
   */
  lemma BitfieldReportBytes(payload: seq<byte>, pieceCount: nat, q: nat, m: nat)
    requires pieceCount <= 8 * |payload| && q < |payload| && m < 8 && 8 * q + m < pieceCount
    ensures BitfieldReport(Bits(payload), pieceCount) == Ok(PoppedMissing(Bits(payload), pieceCount))
    ensures 8 * q + m in PoppedMissing(Bits(payload), pieceCount) <==> !BitOf(payload[|payload| - 1 - q], m)
  {
    PoppedBit(payload, q, m);
    PoppedMissingAt(Bits(payload), pieceCount, 8 * q + m);
  }

  /** The bit popped for piece 8 * q + m is bit m of the byte q places from the end. */
  lemma PoppedBit(payload: seq<byte>, q: nat, m: nat)
    requires q < |payload| && m < 8
    ensures Bits(payload)[|Bits(payload)| - 1 - (8 * q + m)] == BitOf(payload[|payload| - 1 - q], m)
  {
    var n := |payload|;
    var k := 8 * (n - 1 - q) + (7 - m);
    assert k == |Bits(payload)| - 1 - (8 * q + m);
    DivMod8(n - 1 - q, 7 - m);
    BitsAt(payload, k);
  }

  lemma DivMod8(q: int, r: int)
    requires 0 <= q && 0 <= r < 8
    ensures (8 * q + r) / 8 == q && (8 * q + r) % 8 == r
  {
  }

  lemma PoppedMissingAt(bits: seq<bool>, n: nat, i: nat)
    requires i < n <= |bits|
    ensures i in PoppedMissing(bits, n) <==> !bits[|bits| - 1 - i]
  {
    PoppedMissingMembers(bits, n);
  }

  /**
   * The bitfield branch of `handle_message`: fill a big-endian bit array from
   * the payload, then pop one bit off its end for each piece.
   */
  method WalkBitfield(payload: seq<byte>, pieceCount: nat) returns (r: Result<seq<nat>, PeerError>)
    ensures r == BitfieldReport(Bits(payload), pieceCount)
  {
    var ba := Bits(payload);
    ghost var bits := ba;
    var missing: seq<nat> := [];
    for i := 0 to pieceCount
      invariant i <= |bits|
      invariant ba == bits[..|bits| - i]
      invariant missing == PoppedMissing(bits, i)
    {
      if ba == [] {
        return Err(IndexError);
      }
      var bit := ba[|ba| - 1];
      ba := ba[..|ba| - 1];
      if !bit {
        missing := missing + [i];
      }
    }
    return Ok(missing);
  }

  /** What handling a message found: its type and, for a bitfield, the pieces reported missing. */
  datatype Handled = Handled(kind: MessageType, missing: seq<nat>)

  /** Specification of `handle_message` for a peer of a torrent with pieceCount pieces. */
  function HandleResult(msg: RawMessage, pieceCount: nat): (r: Result<Handled, PeerError>)
    ensures msg.id > 9 <==> r.Err? && r.error.IsPeerProtocolError()
    ensures msg.id > 9 ==> r == Err(MessageTypeError(msg.id))
    ensures r.Ok? ==> MessageId(r.value.kind) == msg.id
    ensures msg.id <= 9 && msg.id != 5 ==> r.Ok? && r.value.missing == []
    ensures msg.id == 5 ==> (r.Ok? <==> pieceCount <= 8 * |msg.payload|)
    ensures msg.id == 5 && r.Err? ==> r.error == IndexError
    ensures msg.id == 5 && r.Ok? ==> Ok(r.value.missing) == BitfieldReport(Bits(msg.payload), pieceCount)
  {
    match Classify(msg.id)
    case Err(e) => Err(e)
    case Ok(kind) =>
      if kind == Bitfield then
        match BitfieldReport(Bits(msg.payload), pieceCount)
        case Err(e) => Err(e)
        case Ok(missing) => Ok(Handled(kind, missing))
      else
        Ok(Handled(kind, []))
  }

  /** What one call of `receive_message` read: a keep-alive or a dispatched message. */
  datatype Received = KeepAlive | Dispatched(message: RawMessage, handled: Handled)

  /** Specification of `receive_message` on the bytes the peer has sent. */
  function ReceiveResult(stream: seq<byte>, pieceCount: nat): (r: Result<Incoming<Received>, PeerError>)
    ensures |stream| < 4 ==> r == Err(StructError)
    ensures r.Ok? ==> 4 <= r.value.consumed <= |stream|
  {
    var prefix := Recv(stream, 4);
    if |prefix| != 4 then Err(StructError)
    else
      var length := UnpackU32(prefix);
      if length == 0 then Ok(Incoming(KeepAlive, 4))
      else
        var body := Recv(stream[4..], length);
        match TorrentPeer.DecodeMessage(body)
        case Err(e) => Err(e)
        case Ok(msg) =>
          match HandleResult(msg, pieceCount)
          case Err(e) => Err(e)
          case Ok(handled) => Ok(Incoming(Dispatched(msg, handled), 4 + |body|))
  }

  /**
   * A zero length prefix is a keep-alive and nothing after it is read;
   * any other prefix is never taken for a keep-alive.
   */
  lemma KeepAliveRule(stream: seq<byte>, pieceCount: nat)
    requires |stream| >= 4
    ensures stream[..4] == Zeros(4) <==> ReceiveResult(stream, pieceCount) == Ok(Incoming(KeepAlive, 4))
    ensures stream[..4] != Zeros(4) ==> !(ReceiveResult(stream, pieceCount).Ok? && ReceiveResult(stream, pieceCount).value.value.KeepAlive?)
  {
    UnpackU32Zero(stream[..4]);
  }

  /**
   * A whole frame, `<length prefix><id><payload>`, is read back as that
   * message (or the error handling it raises), consuming exactly the frame.
   */
  lemma FrameRoundTrip(id: byte, payload: seq<byte>, rest: seq<byte>, pieceCount: nat)
    requires 1 + |payload| < U32Bound
    ensures var frame := PackU32(1 + |payload|) + [id] + payload;
            ReceiveResult(frame + rest, pieceCount) ==
              match HandleResult(RawMessage(id, payload), pieceCount)
              case Err(e) => Err(e)
              case Ok(h) => Ok(Incoming(Dispatched(RawMessage(id, payload), h), |frame|))
  {
    var frame := PackU32(1 + |payload|) + [id] + payload;
    var stream := frame + rest;
    assert stream[..4] == PackU32(1 + |payload|);
    UnpackPackU32(1 + |payload|);
    assert Recv(stream[4..], 1 + |payload|) == [id] + payload;
  }

  class TorrentPeer {
    /** The number of pieces of the peer's torrent, `len(info['pieces'])`. */
    const pieceCount: nat
    const ip: string
    const port: int
    const peerId: Option<seq<byte>>

    var isStarted: bool
    var amChoking: bool
    var amInterested: bool
    var peerChoking: bool
    var peerInterested: bool

    /** A new peer is choked and not interested in both directions, and not started. */
    constructor (pieceCount: nat, ip: string, port: int, peerId: Option<seq<byte>>)
      ensures this.pieceCount == pieceCount && this.ip == ip && this.port == port && this.peerId == peerId
      ensures !isStarted
      ensures amChoking && !amInterested
      ensures peerChoking && !peerInterested
    {
      this.pieceCount := pieceCount;
      this.ip := ip;
      this.port := port;
      this.peerId := peerId;
      isStarted := false;
      amChoking := true;
      amInterested := false;
      peerChoking := true;
      peerInterested := false;
    }

    /** `build_handshake`: `struct.pack('!B19s8x20s20s', 19, pstr, info_hash, peer_id)`. */
    static function BuildHandshake(infoHash: seq<byte>, peerId: seq<byte>): (r: seq<byte>)
      ensures |r| == 1 + |ProtocolName| + 8 + 20 + 20 == HandshakeLength
    {
      [|ProtocolName|] + ProtocolName + Zeros(8) + PackFixed(infoHash, 20) + PackFixed(peerId, 20)
    }

    /** `decode_handshake`: `struct.unpack('!<pstrlen>s8x20s20s', data)`; the 8 pad bytes are skipped unread. */
    static function DecodeHandshake(pstrlen: nat, data: seq<byte>): (r: Result<Handshake, PeerError>)
      ensures r.Ok? <==> |data| == pstrlen + 48
      ensures r.Err? ==> r.error == StructError
      ensures r.Ok? ==> |r.value.pstr| == pstrlen && |r.value.infoHash| == 20 && |r.value.peerId| == 20
      ensures r.Ok? ==> data == r.value.pstr + data[pstrlen..pstrlen + 8] + r.value.infoHash + r.value.peerId
    {
      if |data| != pstrlen + 48 then Err(StructError)
      else Ok(Handshake(data[..pstrlen], data[pstrlen + 8..pstrlen + 28], data[pstrlen + 28..]))
    }

    /**
     * `receive_handshake`: read the length byte, then exactly 49 - 1 + pstrlen
     * more bytes (the size of decode_handshake's format), and reject a
     * handshake that names another protocol.
     */
    static function ReceiveHandshake(stream: seq<byte>): (r: Result<Incoming<Handshake>, PeerError>)
      ensures stream == [] ==> r == Err(IndexError)
      ensures stream != [] && |stream| < 49 + stream[0] as int ==> r == Err(StructError)
      ensures stream != [] && |stream| >= 49 + stream[0] as int ==>
                (r.Ok? <==> stream[1..1 + stream[0] as int] == ProtocolName) &&
                (r.Err? ==> r.error == ProtocolError && r.error.IsPeerProtocolError())
      ensures r.Ok? ==> r.value == Incoming(Handshake(ProtocolName, stream[28..48], stream[48..68]), HandshakeLength)
    {
      var first := Recv(stream, 1);
      if |first| == 0 then Err(IndexError)
      else
        var pstrlen: nat := first[0];
        var data := Recv(stream[1..], 49 - 1 + pstrlen);
        assert |data| == pstrlen + 48 ==> data == stream[1..49 + pstrlen] && data[..pstrlen] == stream[1..1 + pstrlen];
        assert |ProtocolName| == 19;
        match DecodeHandshake(pstrlen, data)
        case Err(e) => Err(e)
        case Ok(hs) =>
          if hs.pstr != ProtocolName then Err(ProtocolError)
          else
            assert pstrlen == 19 && data == stream[1..68];
            assert data[27..47] == stream[28..48] && data[47..] == stream[48..68];
            Ok(Incoming(hs, 1 + |data|))
    }

    /** `decode_message`: the first byte is the id, the rest the payload. */
    static function DecodeMessage(data: seq<byte>): (r: Result<RawMessage, PeerError>)
      ensures r.Ok? <==> |data| > 0
      ensures r.Err? ==> r.error == IndexError
      ensures r.Ok? ==> [r.value.id] + r.value.payload == data
    {
      if |data| == 0 then Err(IndexError) else Ok(RawMessage(data[0], data[1..]))
    }

    /** `handle_message`. */
    method HandleMessage(msg: RawMessage) returns (r: Result<Handled, PeerError>)
      ensures r == HandleResult(msg, pieceCount)
    {
      var kind := Classify(msg.id);
      if kind.Err? {
        return Err(kind.error);
      }
      var missing: seq<nat> := [];
      if kind.value == Bitfield {
        var walk := WalkBitfield(msg.payload, pieceCount);
        if walk.Err? {
          return Err(walk.error);
        }
        missing := walk.value;
      }
      return Ok(Handled(kind.value, missing));
    }

    /**
     * `receive_message`: read a 4-byte length prefix; zero is a keep-alive,
     * otherwise read up to that many bytes and decode and handle them.
     */
    method ReceiveMessage(stream: seq<byte>) returns (r: Result<Incoming<Received>, PeerError>)
      ensures r == ReceiveResult(stream, pieceCount)
    {
      var data := Recv(stream, 4);
      if |data| != 4 {
        return Err(StructError);
      }
      var lengthPrefix := UnpackU32(data);
      if lengthPrefix == 0 {
        return Ok(Incoming(KeepAlive, 4));
      }
      data := Recv(stream[4..], lengthPrefix);
      var msg := DecodeMessage(data);
      if msg.Err? {
        return Err(msg.error);
      }
      var handled := HandleMessage(msg.value);
      if handled.Err? {
        return Err(handled.error);
      }
      return Ok(Incoming(Dispatched(msg.value, handled.value), 4 + |data|));
    }
  }

  /** The handshake's fixed layout, for a 20-byte info hash and peer id. */
  lemma HandshakeLayout(infoHash: seq<byte>, peerId: seq<byte>)
    requires |infoHash| == 20 && |peerId| == 20
    ensures var m := TorrentPeer.BuildHandshake(infoHash, peerId);
            m[0] == 19 && m[1..20] == ProtocolName && m[20..28] == Zeros(8) &&
            m[28..48] == infoHash && m[48..68] == peerId
  {
    var m := TorrentPeer.BuildHandshake(infoHash, peerId);
    PackFixedExact(infoHash, 20);
    PackFixedExact(peerId, 20);
    assert m[28..48] == PackFixed(infoHash, 20);
    assert m[48..68] == PackFixed(peerId, 20);
  }

  /** Decoding what build_handshake wrote, after its length byte, gives back its fields. */
  lemma HandshakeRoundTrip(infoHash: seq<byte>, peerId: seq<byte>)
    ensures var m := TorrentPeer.BuildHandshake(infoHash, peerId);
            TorrentPeer.DecodeHandshake(m[0], m[1..]) ==
              Ok(Handshake(ProtocolName, PackFixed(infoHash, 20), PackFixed(peerId, 20)))
    ensures |infoHash| == 20 && |peerId| == 20 ==>
              TorrentPeer.DecodeHandshake(19, TorrentPeer.BuildHandshake(infoHash, peerId)[1..]) ==
                Ok(Handshake(ProtocolName, infoHash, peerId))
  {
    var m := TorrentPeer.BuildHandshake(infoHash, peerId);
    var data := m[1..];
    assert data[..19] == ProtocolName;
    assert data[27..47] == PackFixed(infoHash, 20);
    assert data[47..] == PackFixed(peerId, 20);
    if |infoHash| == 20 && |peerId| == 20 {
      PackFixedExact(infoHash, 20);
      PackFixedExact(peerId, 20);
    }
  }

  /** A peer that sent our own kind of handshake is accepted after exactly 68 bytes. */
  lemma HandshakeExchange(infoHash: seq<byte>, peerId: seq<byte>, rest: seq<byte>)
    ensures TorrentPeer.ReceiveHandshake(TorrentPeer.BuildHandshake(infoHash, peerId) + rest) ==
              Ok(Incoming(Handshake(ProtocolName, PackFixed(infoHash, 20), PackFixed(peerId, 20)), HandshakeLength))
  {
    var m := TorrentPeer.BuildHandshake(infoHash, peerId);
    var stream := m + rest;
    assert stream[0] == 19;
    assert stream[1..20] == ProtocolName;
    assert stream[28..48] == PackFixed(infoHash, 20);
    assert stream[48..68] == PackFixed(peerId, 20);
  }

  /** The 8 reserved bytes are skipped: their content never changes the decoded handshake. */
  lemma ReservedBytesIgnored(pstrlen: nat, data: seq<byte>, other: seq<byte>)
    requires |data| == |other| == pstrlen + 48
    requires data[..pstrlen] == other[..pstrlen] && data[pstrlen + 8..] == other[pstrlen + 8..]
    ensures TorrentPeer.DecodeHandshake(pstrlen, data) == TorrentPeer.DecodeHandshake(pstrlen, other)
  {
    assert data[pstrlen + 8..pstrlen + 28] == data[pstrlen + 8..][..20];
    assert other[pstrlen + 8..pstrlen + 28] == other[pstrlen + 8..][..20];
    assert data[pstrlen + 28..] == data[pstrlen + 8..][20..];
    assert other[pstrlen + 28..] == other[pstrlen + 8..][20..];
  }

  /** Decoding is the inverse of splitting off the id byte. */
  lemma DecodeMessageRoundTrip(id: byte, payload: seq<byte>)
    ensures TorrentPeer.DecodeMessage([id] + payload) == Ok(RawMessage(id, payload))
  {
  }
}

# Peer wire protocol and block requests of a BitTorrent prototype

This project models the core of `pgbt`, a single-threaded BitTorrent client
prototype: the peer side of the peer wire protocol (the "peer protocol"
section of BEP 3, The BitTorrent Protocol Specification) and the rule by which
the client requests blocks from a peer. The model follows the code as written.

- `bytes.dfy` (module `Bytes`): bytes as `seq<byte>`. It covers the parts of
  Python's `struct` the peer code uses: the `'!L'` codes for a 4-byte
  big-endian length prefix, and `<n>s` fields, which pack by truncation or
  zero padding. It also covers a big-endian `bitarray` filled by `frombytes`.
- `peer.dfy` (module `Peer`) models `peer.py`:
  - the static codec functions `build_handshake`, `decode_handshake` and
    `decode_message`, as static functions of class `TorrentPeer`;
  - `receive_handshake`, with its protocol-name check;
  - `receive_message`, with its keep-alive rule;
  - `handle_message`, which classifies the message id and walks a bitfield;
  - the choke and interest flags a new peer starts with.

  The socket is modelled as everything the remote peer sends before it closes
  the connection (`stream`). A `recv(n)` returns the next min(n, available) of
  those bytes, so an empty read means the end of the stream. The socket
  timeout, which a real `recv` raises while an open connection is idle, is not
  modelled; the error results for too few bytes are those of a closed stream.
  The methods `HandleMessage`, `ReceiveMessage` and `WalkBitfield` are proved against the
  functions `HandleResult`, `ReceiveResult` and `BitfieldReport`. What the
  source promises is then proved as lemmas about those functions.
- `client.dfy` (module `Client`) models `client.py`:
  - the nested loops of `_request_all_pieces`, as `RequestAllPieces`, proved
    against the function `Schedule`;
  - its bounded polling loop, as `AwaitCompletion`;
  - class `PgbtClient`, with its torrent list and completion routing.

Python exceptions are `Err` values: `PeerError` in `Peer` and `ClientError` in
`Client`.

Some behaviours here are read from the code rather than from the protocol
standard:

- The bitfield walk pops bits off the END of the bit array. So piece `i` is
  read from bit `i % 8`, counted from the least significant end, of the byte
  `i / 8` places from the end of the payload. BEP 3 puts piece 0 in the high
  bit of the first byte. `BitfieldReportBytes` states the order the code uses.
- The remote peer's info hash is decoded but never compared with the local
  one.
- `decode_message` checks no payload sizes. It only splits off the id byte.
- The body that `receive_message` reads is not checked against the length
  prefix (the code marks this as a TODO). A short read is decoded as it is.
- The piece count is `len(info['pieces'])`, as both source files use it.

## Model

| member | source | states |
|---|---|---|
| `Bytes.PackFixed` | python-twisted/pgbt/peer.py:112-113 | a `20s` field is exactly 20 bytes: byte i is the argument's byte i when it has one, else 0 |
| `Bytes.PackFixedExact` | python-twisted/pgbt/peer.py:112-113 | a 20-byte argument is written unchanged |
| `Bytes.UnpackU32` | python-twisted/pgbt/peer.py:55 | the length prefix is an unsigned 32-bit value |
| `Bytes.UnpackPackU32` | python-twisted/pgbt/peer.py:55 | unpacking a packed 32-bit value gives it back |
| `Bytes.PackUnpackU32` | python-twisted/pgbt/peer.py:55 | packing an unpacked 4-byte prefix gives the same 4 bytes |
| `Bytes.UnpackU32Zero` | python-twisted/pgbt/peer.py:55-56 | the prefix is 0 exactly when all four bytes are 0 |
| `Bytes.ByteBits` | python-twisted/pgbt/peer.py:86-87 | a byte enters a big-endian bit array as 8 bits, most significant first |
| `Bytes.ByteBitsValue` | python-twisted/pgbt/peer.py:86-87 | the eight bits of a byte, read back as a binary number most significant bit first, give the byte |
| `Bytes.Bits` | python-twisted/pgbt/peer.py:86-87 | `frombytes` yields 8 bits per payload byte |
| `Bytes.BitsAt` | python-twisted/pgbt/peer.py:86-87 | bit k of the array is bit 7 - k % 8 (from the low end) of byte k / 8 |
| `Peer.Classify` | python-twisted/pgbt/peer.py:73-101 | ids 0..9 and only those are recognised, each as the type whose wire id it is; any other id gives a PeerProtocolMessageTypeError carrying the id, which is a PeerProtocolError |
| `Peer.ClassifyMessageId` | python-twisted/pgbt/peer.py:73-98 | each of the ten types is recognised from its own id (choke 0 ... port 9) |
| `Peer.Recv` | python-twisted/pgbt/peer.py:46-47 | a read returns at most n of the bytes still to come, in order |
| `Peer.BitfieldReport` | python-twisted/pgbt/peer.py:85-90 | the walk succeeds exactly when there are at least as many bits as pieces; otherwise the pop fails with IndexError |
| `Peer.PoppedMissingMembers` | python-twisted/pgbt/peer.py:88-90 | after i pops, piece j is reported missing iff j < i and bit 8·len(payload) - 1 - j is 0 |
| `Peer.PoppedMissingAscending` | python-twisted/pgbt/peer.py:88-90 | missing pieces are reported in strictly ascending order |
| `Peer.BitfieldReportBytes` | python-twisted/pgbt/peer.py:85-90 | piece 8q + m is reported missing iff bit m (from the low end) of the byte q places from the end of the payload is 0 |
| `Peer.PoppedBit` | python-twisted/pgbt/peer.py:86-89 | the bit popped for piece 8q + m is bit m of the byte q places from the end |
| `Peer.WalkBitfield` | python-twisted/pgbt/peer.py:85-90 | the pop loop reports exactly what `BitfieldReport` says, and fails exactly when it does |
| `Peer.HandleResult` | python-twisted/pgbt/peer.py:68-101 | an id above 9 is a PeerProtocolMessageTypeError, and nothing else is a protocol error. A recognised id keeps its type. Non-bitfield types report nothing missing. A bitfield succeeds iff the payload has at least one bit per piece, and then reports the walk's result |
| `Peer.ReceiveResult` | python-twisted/pgbt/peer.py:53-62 | fewer than 4 prefix bytes before the stream ends give a struct error; a successful read consumes at least the prefix and no more than was sent |
| `Peer.KeepAliveRule` | python-twisted/pgbt/peer.py:54-58 | a zero prefix is a keep-alive that consumes exactly the 4 prefix bytes; any other prefix is never a keep-alive |
| `Peer.FrameRoundTrip` | python-twisted/pgbt/peer.py:53-62 | a frame `<prefix><id><payload>` is read as that message, handled as `HandleResult` says, consuming exactly the frame |
| `Peer.TorrentPeer.constructor` | python-twisted/pgbt/peer.py:11-22 | a new peer is not started, am_choking and peer_choking are true, and both interest flags are false |
| `Peer.TorrentPeer.BuildHandshake` | python-twisted/pgbt/peer.py:108-114 | the handshake is always 1 + 19 + 8 + 20 + 20 = 68 bytes |
| `Peer.TorrentPeer.DecodeHandshake` | python-twisted/pgbt/peer.py:116-125 | decoding succeeds iff the data is pstrlen + 48 bytes, and otherwise is a struct error. The fields are pstrlen, 20 and 20 bytes long, and with the 8 skipped bytes they put the data back together |
| `Peer.TorrentPeer.ReceiveHandshake` | python-twisted/pgbt/peer.py:45-50 | a stream that ends with no bytes is an IndexError, and one that ends before 49 + pstrlen bytes is a struct error. Otherwise the handshake is accepted iff its protocol name is `BitTorrent protocol`, else it is a PeerProtocolError. An accepted handshake consumed 68 bytes and its info hash and peer id are bytes 28..47 and 48..67 |
| `Peer.TorrentPeer.DecodeMessage` | python-twisted/pgbt/peer.py:127-135 | decoding fails (IndexError) exactly on empty data; otherwise `[msg_id] + payload == data` |
| `Peer.TorrentPeer.HandleMessage` | python-twisted/pgbt/peer.py:68-101 | the id chain and bitfield branch give exactly `HandleResult` |
| `Peer.TorrentPeer.ReceiveMessage` | python-twisted/pgbt/peer.py:53-62 | reading the prefix, the body, decoding and handling give exactly `ReceiveResult` |
| `Peer.HandshakeLayout` | python-twisted/pgbt/peer.py:110-114 | byte 0 is 19, bytes 1..19 are `BitTorrent protocol`, 20..27 are zero, 28..47 the info hash, 48..67 the peer id |
| `Peer.HandshakeRoundTrip` | python-twisted/pgbt/peer.py:108-125 | decoding a built handshake after its length byte gives the protocol name, info hash and peer id (as packed into 20 bytes; for 20-byte inputs, the inputs) |
| `Peer.HandshakeExchange` | python-twisted/pgbt/peer.py:45-50 | a stream that starts with a built handshake is accepted after exactly 68 bytes, with that info hash and peer id |
| `Peer.ReservedBytesIgnored` | python-twisted/pgbt/peer.py:117-119 | the content of the 8 reserved bytes never changes the decoded handshake |
| `Peer.DecodeMessageRoundTrip` | python-twisted/pgbt/peer.py:127-135 | `decode_message([id] + payload)` gives back id and payload |
| `Client.BlockRequestsCount` | python-twisted/pgbt/client.py:72 | the offsets from `begin` below L number ceil((L - begin) / B) |
| `Client.BlockRequestsAt` | python-twisted/pgbt/client.py:72-73 | request k from `begin` has offset begin + k·B < L and length min(L, B) |
| `Client.BlockRequestsInRange` | python-twisted/pgbt/client.py:72 | every offset begin + k·B below L is requested |
| `Client.PieceRequests` | python-twisted/pgbt/client.py:72-76 | an incomplete piece gets exactly ceil(L / B) requests. The k-th is at offset k·B < L (so the first is at 0). Each one's length is min(L, B) whatever its offset. They are in ascending offset order |
| `Client.ScheduleSound` | python-twisted/pgbt/client.py:66-77 | every request is for an existing piece that was not complete, at a multiple of B below that piece's length, of length min(piece length, B) |
| `Client.ScheduleOrdered` | python-twisted/pgbt/client.py:67-72 | requests go out by ascending piece index, and by ascending offset within a piece |
| `Client.ScheduleComplete` | python-twisted/pgbt/client.py:67-77 | every block k·B < L of every incomplete piece is requested |
| `Client.ScheduleLength` | python-twisted/pgbt/client.py:66-77 | the number of requests is the sum of ceil(L / B) over incomplete pieces; complete pieces add none |
| `Client.RequestAllPieces` | python-twisted/pgbt/client.py:66-77 | the nested loops fail with ValueError exactly when B = 0 and some piece is incomplete, with nothing sent. Otherwise they send exactly `Schedule` (nothing when B = 0) |
| `Client.AwaitCompletion` | python-twisted/pgbt/client.py:79-83 | at most 10 rounds are waited. Every round waited saw a piece missing. Stopping before 10 means the next check found every piece complete |
| `Client.PgbtClient.constructor` | python-twisted/pgbt/client.py:14-17 | a new client has no active and no finished torrents |
| `Client.PgbtClient.AddTorrent` | python-twisted/pgbt/client.py:24-26 | the torrent is appended to the active torrents; nothing else changes |
| `Client.PgbtClient.SaveMultipleFile` | python-twisted/pgbt/client.py:43-44 | always fails with NotImplementedError |
| `Client.PgbtClient.HandleCompletedTorrent` | python-twisted/pgbt/client.py:28-33 | a completed torrent is saved as a single file iff its format is `SINGLE_FILE`, under its name with the data; any other format fails with NotImplementedError |

## Left out

- Socket I/O is not modelled: creating, connecting and timing out sockets in `start_peer`, `send_handshake`, and the close in `__del__`. The model keeps the byte-level decisions that reading feeds.
- A `recv` that returns fewer bytes than are available is not modelled. `Recv` returns min(n, available) bytes.
- `send_message` is called but not defined in the source, so no encoding of outgoing messages is modelled. `PackU32` stands in only as the inverse of the prefix decoder.
- `_drain_msgs` is not modelled as a member. It calls `receive_message`, which `Peer.TorrentPeer.ReceiveMessage` models, until the socket times out; the timeout is not modelled, so a drain is what happens between two requests or two polling rounds.
- `Client.RequestAllPieces` and `Client.AwaitCompletion` assume that every drain ends in `socket.timeout`. A drain that raises anything else (a struct error once the peer closes, a PeerProtocolMessageTypeError for an id above 9, an IndexError from a short bitfield) ends `_request_all_pieces` early, after only a prefix of `Schedule` has been sent or in the middle of polling; the model does not capture that early exit.
- The UTF-8 `.decode` of pstr and peer_id is left out. The protocol name is compared as raw bytes with the ASCII literal. So three cases raise `UnicodeDecodeError` in the source but not here: a peer id that is not valid UTF-8, which is accepted here; a pstr that is not valid UTF-8, which is a PeerProtocolError here; and a wrong pstr with a peer id that is not valid UTF-8, which is a PeerProtocolError here because the source decodes the peer id before it compares the pstr.
- `print`/`log` output, `__repr__` and the empty `handle_keepalive` are left out. The bitfield walk's printed lines are the list of missing pieces it returns.
- `run_torrent` is left out: its choice of the first torrent and first peer, the `interested` send, and the unbounded `while not torrent.is_complete` loop. That loop's progress depends on the torrent's state, which this model does not include.
- `time.sleep` is left out. `AwaitCompletion` takes the observed completion state of each round as a parameter.
- `add_torrent` file reading and metainfo parsing are left out: `AddTorrent` takes the parsed metainfo. The path handling and file write of `save_single_file` are left out too: the model returns the write it would make.
- `Torrent`, `TorrentMetainfo` and `CONFIG` are not part of this model. Their results are parameters: the piece count, the piece lengths, the completion flags and the block length.
- The torrent object is taken to hold one completion flag per piece. `Client.RequestAllPieces` requires this.
- Hash checks, a piece store, a table of outstanding requests, many peers and concurrency are left out. The code implements none of them.
- `qqtorrent/tests/qqbt_tests.py` is left out: it holds only placeholder and disabled tests.

# finch: a verified model of the client/server core

finch is a sharded in-memory key-value store reached over a small binary
TCP protocol. This project models its two core files in Dafny and proves
properties of the model.

- **Wire format (`wire.dfy`, `bytes.dfy`).**
  - A request frame is `[total_size:u32][op:u8][key_hash:u64][key_len:u32][key]`. A PUT adds `[value_len:u32][value]`.
  - Every integer is big-endian. `total_size` counts the whole frame, its own four bytes included.
  - The client's frame builder is `EncodeFrame`. The server's frame cutter is `NextFrame`, and its field reader is `Parse`.
  - A reply is a status byte (`'0'` or `'1'`) followed by a payload. The client strips trailing `'\n'` and `'\r'` before reading it (`ParseReply`).
  - The 32- and 64-bit host/network conversions are big-endian byte sequences (`BE32`, `BE64` and their inverses).
- **Partitioned store (`store.dfy`).**
  - There are 1024 maps from key to value. A request addresses map `key_hash % 1024`, where `key_hash` is the hash the client sent.
  - `Shards` is the abstract value.
  - `PartitionedStore` is the in-place array of maps that the handler updates.
- **Server connection handler (`server.dfy`).**
  - `Dispatch` is the effect of one parsed request: its reply and the new store.
  - `Drain` specifies the inner loop, which cuts every complete frame off the front of the buffer.
  - `Serve` specifies the outer loop, which handles one receive after another.
  - `ConnectionHandler` implements both loops imperatively: a per-connection buffer plus the shared store. Its methods are proved against `Drain` and `Serve`.
- **Client (`client.dfy`, `transport.dfy`).**
  - Server list parsing: `ServerList`, and `ReadServerList` as a loop.
  - Routing: `hash(key) % |servers|`.
  - The liveness probe and the table of open connections.
  - The frame builder and the send loop with reconnection.
  - The reply read, and the result mapping of `get`, `put` and `del`.
  - Socket calls are modelled by `Transport.Sockets`: one script of outcomes per kind of call, plus a log of what was sent, closed and received. Its whole state is the value `World`.
  - Each client operation is proved against a function on `World`: `Connection` for connect_to_server, `SendLoop` for the send loop, `ReadReply` for the receive, and `Command` for all of send_command after routing.
- **Both ends together (`session.dfy`).** End-to-end properties of the protocol:
  - a put then a get on one connection returns the value put;
  - a delete then a get finds nothing;
  - a second delete fails;
  - a value of 1023 bytes or more, or one that ends in a line ending, does not come back unchanged.

Three behaviours of the code that a reader might not expect, all modelled as written:

- **Size field.** `total_size` counts the whole frame, its own four bytes included: `17 + |key|` for GET/DEL and `21 + |key| + |value|` for PUT. The server cuts exactly `total_size` bytes.
- **Reconnect after a failed send.** The send loop closes the descriptor and reconnects after every failed send, with no bound. It resumes at the byte where it stopped, on the new connection. The model's loop terminates only because the `socket()` script is finite.
- **A failed `get`.** `get` throws when the command fails. `GetResult` returns `None` for that case.

The server never checks that `total_size >= 17`. With a smaller value, the field reads run past the frame. `NextFrame` returns a distinct `Undefined` outcome for this case. `Drain` and the handler stop there and report it (`undefined`, `defined == false`), and no reply is invented.

## Model

| member | source | states |
|---|---|---|
| Bytes.BE32 | client.cpp:160-162 | hton_uint32: four bytes, most significant first; FromBE32OfBE32 and BE32OfFromBE32 prove it the inverse of FromBE32 |
| Bytes.FromBE32 | server.cpp:27-29 | ntoh_uint32: the number whose big-endian bytes are given; its properties are the two round-trip lemmas |
| Bytes.BE64 | client.cpp:164-168 | hton_uint64: the high half's four bytes, then the low half's; FromBE64OfBE64 and BE64OfFromBE64 prove it the inverse of FromBE64 |
| Bytes.FromBE64 | server.cpp:31-35 | ntoh_uint64: the high half read from the first four bytes, the low half from the last four |
| Bytes.FromBE32OfBE32 | server.cpp:27-29 | reading back the four big-endian bytes of a 32-bit value gives the value |
| Bytes.BE32OfFromBE32 | client.cpp:160-162 | every four bytes are the big-endian encoding of the value they decode to |
| Bytes.FromBE64OfBE64 | server.cpp:31-35 | decoding the two-halves big-endian encoding of a 64-bit value gives the value |
| Bytes.BE64OfFromBE64 | client.cpp:164-168 | every eight bytes are the encoding of the 64-bit value they decode to |
| Bytes.BE32Injective | client.cpp:160-162 | two 32-bit values have equal encodings exactly when they are equal |
| Wire.EncodeFrame | client.cpp:187-233 | the frame the client writes, sizes wrapped modulo 2^32; FrameLayout gives every field's position, DeclaredSizeIsFrameLength its size field, ParseEncodeFrame the round trip through the server's parser |
| Wire.FrameLayout | client.cpp:207-233 | the frame's length is FrameLength; bytes 0..3 hold total_size, byte 4 the op, bytes 5..12 the big-endian hash, bytes 13..16 the big-endian key length; then the key, and for PUT only the value length and the value |
| Wire.EncodedSize | client.cpp:200-209 | the encoded frame is FrameLength bytes long and starts with that length modulo 2^32 |
| Wire.DeclaredSizeIsFrameLength | client.cpp:200-205 | when the frame fits, its total_size field equals its whole length: 17+\|key\| for GET/DEL and 21+\|key\|+\|value\| for PUT |
| Wire.EncodingIgnoresValue | client.cpp:202-204 | for any op but PUT, the frame does not depend on the value argument |
| Wire.NextFrame | server.cpp:49-69 | a frame is cut only when at least 4 and at least total_size bytes are buffered; it is exactly the first total_size bytes, and the rest is kept in order |
| Wire.NextFrameWaitsForWholeFrame | server.cpp:50-63 | the buffer is left alone exactly when it holds fewer than 4 bytes or fewer than total_size; a complete frame with total_size below 17 is the undefined case |
| Wire.NextFrameAppend | server.cpp:45-69 | bytes received later change neither a frame already complete at the front nor an undefined size field |
| Wire.ParseAfterKey | server.cpp:93-138 | once the key length matches the key, the request is GET/DEL/Unknown by op; for PUT it is Malformed when the value length or the value overruns the frame |
| Wire.Parse | server.cpp:72-138 | the server's field reads as a request (GET, PUT, DEL, Unknown op or Malformed); ParseEncodeFrame, ParseAfterKey, KeyOverrunIsMalformed and ParseIgnoresPadding state what it returns |
| Wire.EncodedHeader | server.cpp:77-91 | in an encoded frame the server reads back the op, the hash and the key length, and the key follows the header |
| Wire.EncodedValueField | server.cpp:120-137 | in a PUT frame the server reads back the value length and the value |
| Wire.ParseEncodeFrame | server.cpp:72-138 | round trip: the server parses a frame the client encoded as the request the client meant (op, hash, key, and value for PUT) |
| Wire.ParseIgnoresPadding | server.cpp:72-138 | bytes after the last field inside a frame do not change what a well-formed frame means |
| Wire.KeyOverrunIsMalformed | server.cpp:93-97 | a key length running past the frame makes it Malformed, whatever the op |
| Wire.NextFrameOfEncoded | server.cpp:55-69 | an encoded frame at the front of the buffer is cut off whole, and the bytes after it are kept |
| Wire.StripLineEndings | client.cpp:261-262 | the result is the longest prefix that does not end in '\n' or '\r', and only such bytes were removed |
| Wire.StripAfterFirst | client.cpp:261-262 | a first byte that is not a line ending survives stripping, which then acts on the rest alone |
| Wire.ParseReply | client.cpp:259-269 | a reply exists exactly when something is left after stripping; status followed by payload is the stripped text |
| Wire.ParseReplyIgnoresLineEndings | client.cpp:262 | trailing line endings do not change the parsed reply |
| Wire.ParseReplyOfResponse | client.cpp:262-268 | a server response that does not end in a line ending is parsed as the status and payload the server wrote |
| Wire.TrailingLineEndingIsLost | client.cpp:262 | a payload that ends in a line ending does not come back unchanged |
| Store.EmptyShards | server.cpp:21 | the store starts with every partition empty |
| Store.PartitionOf | server.cpp:104-105 | the partition is below 1024, and a hash below 1024 selects itself |
| Store.Lookup | server.cpp:110-117 | the value the key has in the partition its hash selects; Insert, Erase and HashesShareEntries state how updates change it |
| Store.Insert | server.cpp:140-143 | after a PUT the key maps to the value; every other entry and every other partition is unchanged |
| Store.Erase | server.cpp:146-150 | after a DEL the key is absent; every other entry and partition is unchanged; deleting an absent key changes nothing |
| Store.HashesShareEntries | server.cpp:104-105 | two hashes that select the same partition see, and update, the same entry for a key |
| Store.PartitionedStore.constructor | server.cpp:13-21 | a fresh array of 1024 empty maps |
| Store.PartitionedStore.Find | server.cpp:110-117 | the value under the key in that partition, if any |
| Store.PartitionedStore.Assign | server.cpp:141-143 | only the one partition changes, to its old map with key set to value |
| Store.PartitionedStore.Remove | server.cpp:147-150 | reports whether the key was present; only that partition changes, losing the key |
| Server.Dispatch | server.cpp:104-156 | GET answers "0"+value or "1NOT_FOUND" and changes nothing; PUT answers "0OK" and inserts; DEL answers "0DELETED" or "1NOT_FOUND" and erases; Malformed and Unknown answer the two error replies and change nothing |
| Server.PutThenGet | server.cpp:107-144 | a GET after a PUT to the same partition and key answers "0" followed by the value put |
| Server.DelThenGet | server.cpp:107-153 | a DEL answers "0DELETED" exactly when the key was present; a GET after it answers "1NOT_FOUND"; a second DEL answers "1NOT_FOUND" and changes nothing |
| Server.Drain | server.cpp:49-157 | the inner loop stops either on an undefined size field or when no complete frame is left |
| Server.DrainStep | server.cpp:66-71 | one turn: the front frame is answered, and the rest is drained from the store it leaves |
| Server.DrainAppend | server.cpp:40-63 | draining a buffer plus more bytes is draining the buffer, then draining what was left plus the new bytes |
| Server.DrainEncodedFrame | server.cpp:60-138 | an encoded frame at the front is consumed whole and answered as the client intended |
| Server.MalformedFrameIsSkipped | server.cpp:93-97 | a frame whose key overruns it is answered "1ERROR: Invalid message" and removed, so the next frame is still answered |
| Server.ServeStep | server.cpp:40-49 | one receive: append the chunk and drain; an undefined frame ends the connection's model |
| Server.Serve | server.cpp:40-158 | the outer loop over receives, as a function; ServeIsDrainOfConcat proves it equal to draining the whole stream, and HandleClient is proved to compute it |
| Server.ServeIsDrainOfConcat | server.cpp:40-158 | however the stream is cut into receives, the replies, store and leftover are those of draining the whole stream at once |
| Server.ChunkingDoesNotMatter | server.cpp:40-63 | two ways of cutting the same bytes into receives give the same replies and the same store |
| Server.ConnectionHandler.HandleMessage | server.cpp:72-156 | reading the fields at advancing offsets and updating one partition in place gives Dispatch's reply and store |
| Server.ConnectionHandler.Receive | server.cpp:42-157 | appending a chunk and running the inner loop leaves the buffer, replies and store that Drain gives |
| Server.ConnectionHandler.HandleClient | server.cpp:37-160 | the outer loop produces Serve's replies and store |
| Transport.Take | client.cpp:256-260 | recv returns a prefix of what the peer has, of at most the buffer's capacity |
| Transport.Sockets.Close | client.cpp:116 | close(): the descriptor is appended to the log of closed descriptors and nothing else changes |
| Transport.Sockets.Socket | client.cpp:122 | socket(): the next fresh descriptor when the script says it succeeds, otherwise -1; only the script and the next descriptor change |
| Transport.Sockets.Connect | client.cpp:130 | connect(): succeeds exactly as the script says; only the connect script changes |
| Transport.Sockets.Probe | client.cpp:142 | recv(MSG_PEEK \| MSG_DONTWAIT): the next scripted peek, or a reset error once the script is used up; only the peek script changes |
| Transport.Sockets.Recv | client.cpp:258 | the count is -1 on an error and otherwise the number of bytes returned, at most the capacity; only the receive script and the log of delivered data change |
| Transport.Sockets.Send | client.cpp:239 | the count is never more than asked and is -1 once the script is used up; a positive count logs exactly that prefix of the bytes; nothing else changes |
| Client.FindColon | client.cpp:100 | the position of the first ':', or none exactly when the line has no ':' |
| Client.SkipSpacesIsSuffix | client.cpp:102 | stoi starts reading at the first character that is not white space: every skipped character is white space, and what is left is a suffix that does not start with white space |
| Client.LeadingDigitsIsLongest | client.cpp:102 | the digits stoi reads are the longest run of decimal digits at the front |
| Client.Stoi | client.cpp:102 | a result lies in the int range; none where stoi throws |
| Client.StoiOfDecimal | client.cpp:102 | a port written in decimal and followed by a non-digit is read back as written |
| Client.ParseLineParts | client.cpp:100-103 | a line without ':' is skipped; otherwise it gives the address before the first ':' and the port stoi reads after it, or throws |
| Client.ParseLine | client.cpp:99-104 | what one line contributes: skipped, an entry, or the throw of stoi; ParseLineParts states it in terms of the line's parts |
| Client.ServerList | client.cpp:95-106 | read_server_list as a function of the lines; ServerListIsColonLines characterizes it and ReadServerList is proved to compute it |
| Client.ServerListIsColonLines | client.cpp:95-106 | the list has one entry per line containing ':', in file order, each from that line's parts; reading fails exactly when stoi fails on one of those lines |
| Client.ServerListStaysFailed | client.cpp:99-104 | once stoi has thrown, later lines do not matter |
| Client.ReadServerList | client.cpp:95-106 | the line loop computes ServerList |
| Client.Route | client.cpp:177-179 | the server index is below the number of servers, and a hash below it selects itself |
| Client.Alive | client.cpp:139-158 | a result of 0 means dead; a positive result means alive; a negative result means alive exactly when errno is EAGAIN or EWOULDBLOCK |
| Client.GetResult | client.cpp:51-65 | get throws (None) exactly when the command failed; a '0' reply gives its payload; any other status gives "" |
| Client.SucceededOnReceived | client.cpp:67-89 | put and del are true exactly when the received bytes are not all line endings and start with '0'; get then returns the stripped bytes after the status |
| Client.EmptyValueLooksMissing | client.cpp:55-61 | a stored empty value and an error reply both give "" |
| Client.BuildMessage | client.cpp:187-233 | appending the fields one by one, with 32-bit size arithmetic, gives EncodeFrame |
| Client.WrappedTotalSize | client.cpp:200-205 | total_size computed in uint32 steps is the frame length modulo 2^32 |
| Client.OpenConnection | client.cpp:121-136 | a descriptor is returned exactly when socket() and connect() both succeed, and it is the fresh one; a descriptor connect() refused is closed; nothing is sent or received |
| Client.Connection | client.cpp:108-137 | connect_to_server as a function of the socket layer and the cached descriptor; it never sends or receives and only adds to the closed log |
| Client.ConnectionReusesOrReopens | client.cpp:108-137 | a cached descriptor is returned exactly while the probe says alive; a dead one is closed first; otherwise the result is the fresh descriptor exactly when socket() and connect() succeed |
| Client.SendLoop | client.cpp:235-253 | the send loop as a function: it only adds to the sent and closed logs and never receives |
| Client.SendLoopWritesRest | client.cpp:235-253 | when the loop ends connected, the bytes written on all the connections it used are exactly the rest of the message |
| Client.SendLoopDoneInOneSend | client.cpp:237-252 | a send that takes everything left ends the loop on the same descriptor, with nothing closed |
| Client.SendLoopClosesFailedSocket | client.cpp:240-244 | a failed send closes its own descriptor before anything else is closed |
| Client.ReadReply | client.cpp:255-281 | the receive after sending: a reply from the data returned, or the descriptor closed when it returned nothing |
| Client.Command | client.cpp:176-282 | send_command after routing: connect, send the whole frame, one receive |
| Client.CommandOutcome | client.cpp:176-282 | a reply comes only from the one receive made, after the whole frame was written; the connection is kept exactly when that receive returned data; a receive that returned nothing closes its descriptor |
| Client.CommandSucceeds | client.cpp:176-282 | over a working connection, a send that takes the whole frame and a receive with data give the reply in that data and keep the connection |
| Client.FinchClient.constructor | client.cpp:30-40 | every server starts with no connection (-1) |
| Client.FinchClient.ServerFor | client.cpp:177-179 | the key's server is a valid index of the connection table |
| Client.FinchClient.IsSocketAlive | client.cpp:139-158 | one non-blocking peek, judged by Alive |
| Client.FinchClient.ConnectToServer | client.cpp:108-137 | the new socket layer and the returned descriptor are those Connection gives; the slot holds exactly what is returned, other slots are unchanged |
| Client.FinchClient.Establish | client.cpp:121-136 | socket() then connect(), as OpenConnection gives; the slot is written only on success |
| Client.FinchClient.SendAll | client.cpp:235-253 | the loop leaves the socket layer and descriptor that SendLoop gives, and the slot holds that descriptor |
| Client.FinchClient.Reconnect | client.cpp:240-248 | the failed descriptor is closed first, the slot reset, and the result is OpenConnection of what is left |
| Client.FinchClient.SendCommand | client.cpp:170-283 | an empty key fails with nothing changed; otherwise the result is Command of the key's slot and frame, and only that slot changes; no delivery means no reply and a reset slot; a delivery means the whole frame was written and the reply is parsed from those at most 1023 bytes |
| Client.FinchClient.Exchange | client.cpp:176-282 | connect, send and receive leave the socket layer, slot and reply that Command gives |
| Client.FinchClient.Receive | client.cpp:255-281 | the receive leaves the socket layer, slot and reply that ReadReply gives |
| Client.FinchClient.Get | client.cpp:51-65 | get("") throws with the socket layer and the connection table unchanged; otherwise GetResult of Command's reply: it throws exactly when nothing was received or the stripped reply is empty, and is GetResult of the reply received otherwise |
| Client.FinchClient.Put | client.cpp:67-75 | an empty key is false with the socket layer and the connection table unchanged; otherwise true exactly when one reply was received and its status is '0', after the whole PUT frame was written |
| Client.FinchClient.Del | client.cpp:77-89 | an empty key is false with the socket layer and the connection table unchanged; otherwise true exactly when one reply was received and its status is '0', after the whole DEL frame was written |
| Client.NewClient | client.cpp:30-40 | construction fails exactly when stoi throws or no server is listed; otherwise the client has the listed servers, the given hasher and no connections |
| Session.Received | client.cpp:256-262 | a whole response of at most 1023 bytes is parsed as sent |
| Session.TwoRequests | server.cpp:49-157 | two encoded requests on one connection are answered in order, and every byte is consumed |
| Session.PutThenGetReturnsValue | client.cpp:51-75 | put(k, v) then get(k) over one connection: put is true and get returns v, when v fits one receive and does not end in a line ending |
| Session.DelThenGetFindsNothing | server.cpp:145-153 | del of a present key is true, and get afterwards returns "" |
| Session.SecondDelFails | server.cpp:145-153 | deleting the same key twice: the first del is true, the second false |
| Session.LongValueIsCut | client.cpp:256-260 | a value of 1023 bytes or more never comes back whole from get |
| Session.LineEndingIsCut | client.cpp:261-262 | a value ending in '\n' or '\r' comes back from get with its trailing line endings removed, so not unchanged |

## Left out

- Threads and locks are not modelled. The server's detached thread per connection and the per-partition mutexes are left out, and the store is used by one handler at a time.
- The listener and both `main` functions are not modelled (port binding, accept loop, example usage).
- The client destructor, which closes every open socket, is not modelled.
- Socket calls are scripted outcomes, not I/O:
  - `socket`, `connect`, the liveness peek, `send`, `recv` and `close` take their results from finite scripts;
  - an exhausted script makes the call fail;
  - `inet_pton` and the address and port given to `connect` are not modelled.
- Bytes that one `recv` leaves unread are not modelled. Any part of a reply beyond the first 1023 bytes is dropped, not kept for the next receive.
- The server's replies are collected in order as values. The server's `send` calls and their possible partial writes are not modelled.
- Server receives are arbitrary non-empty chunks. The 4096-byte bound on each receive is not imposed. An empty chunk stands for a receive that returned zero or an error.
- `std::hash<std::string>` is the client's `hasher` parameter, because its values are implementation-defined.
- Reading the server-list file is not modelled. The model starts from its lines, as `std::getline` yields them.
- Host byte order is not modelled. The conversions are big-endian byte sequences; the C++ swap in `hton_uint64`/`ntoh_uint64` yields these bytes on a little-endian host.
- `std::cerr` diagnostics are not modelled.
- Client.Stoi: reads base-10 numbers only, after white space and an optional sign. The model has no locale and does not follow `strtol` beyond what `stoi` accepts for a port.
- Session.PutThenGetReturnsValue: assumes that the server's reply arrives whole in one receive.

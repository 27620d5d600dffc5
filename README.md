# grubbnet core in Dafny

grubbnet is a small TCP networking library for games. A `Server` and a `Client`
each run a `tick` that polls their sockets, reads bytes into a fixed 16 KiB
intake buffer per connection, cuts complete packets off the front of that
buffer, and flushes a FIFO of outgoing packets into the socket. A packet on the
wire is a 3-byte header (the body length as a big-endian u16, then a u8 id)
followed by the body.

This project models that core and proves its properties:

- `buffer.dfy` (module `NetBuffer`): the intake buffer, a class holding an
  array and an offset, with `drain` and `clear` done in place.
- `packet.dfy` (module `Wire`): the header and packet format. Serialisation
  and header decoding are pure functions.
- `lib.dfy` (module `Net`): error kinds, the `PacketRecipient` selectors and
  the `send_bytes` loop. The loop appears twice: as written and as intended.
- `reassembly.dfy` (module `Reassembly`): the three loops the engines run on
  a connection. These are the read burst, the packet extraction loop and the
  outgoing flush. The read burst is the client's loop. The server is modelled
  with that loop too, and its own read loop as written, which differs, is
  kept apart (see Findings). Each is an imperative method proved against a value-level
  function, and lemmas about those functions give the framing guarantees.
- `server.dfy` (module `ServerEngine`): the `Server` class, with its token
  table, connection ceiling, token counter and incoming FIFO, and one method
  per operation. It also holds the server's read loop as written.
- `client.dfy` (module `ClientEngine`): the `Client` class and a value-level
  description of its tick.

Sockets and polling are replaced by inputs:

- a listener event carries the outcome of one `accept`;
- a socket event carries its readiness flags, the results its reads would
  return (`ReadResult`: bytes, would-block or an error) and the results of
  its writes (`WriteResult`: how many bytes the socket takes, or an error);
- running out of read results means the socket would block; running out of
  write results means a write would block.

## Model

| member | source | states |
|---|---|---|
| NetBuffer.NetworkBuffer.constructor | src/buffer.rs:13-18 | a new buffer has offset 0 and a zero-filled array of `MAX_BUFFER_SIZE` (16384) bytes |
| NetBuffer.NetworkBuffer.Drain | src/buffer.rs:21-32 | with `count <= offset`: the offset drops by `count`; the valid bytes become the old valid bytes after the first `count`, in order; every byte from the new offset on keeps its value; `drain(offset)` empties and `drain(0)` changes nothing; the offset stays within the array |
| NetBuffer.NetworkBuffer.Clear | src/buffer.rs:34-37 | offset 0 and every byte 0 |
| Wire.EncodeU16 | src/packet.rs:54 | two bytes that spell the length in big-endian order, truncated to 16 bits as `as u16` does |
| Wire.U16Bytes | src/packet.rs:71 | reading the two bytes as a big-endian u16 and encoding that u16 again gives back the same two bytes |
| Wire.SerializePacket | src/packet.rs:48-65 | for a body that serialises: length 3 + body length, bytes 0-1 are the length mod 2^16 big-endian, byte 2 is the id and the rest is the body verbatim |
| Wire.DeserializePacketHeader | src/packet.rs:67-92 | any error is `InvalidData`; an accepted header's packet, 3 + size, is below `MAX_PACKET_SIZE`, which is below `MAX_BUFFER_SIZE`, so the body slice is always in bounds |
| Wire.HeaderDecision | src/packet.rs:71-91 | a header is accepted exactly when its first two bytes are what `EncodeU16` writes for some size below 1024; an accepted header re-encodes, with its id, to the three bytes it was read from |
| Wire.SerializeIsFrame | src/packet.rs:48-65 | a body shorter than 1024 bytes serialises to exactly the frame of the packet the receiver rebuilds (its length, its id, its bytes) |
| Wire.FrameRoundTrip | src/packet.rs:48-92 | with a well-formed packet's frame at the front of the array, whatever follows, decoding yields its header and the body is `data[3..3+size]` |
| Wire.FrameInjective | src/packet.rs:48-65 | two well-formed packets with the same frame are equal |
| Net.Recipients | src/lib.rs:19-25 | the connections a selector reaches are among the live ones |
| Net.RecipientSets | src/lib.rs:19-25 | `All` reaches every connection; `Single(t)` reaches t if present; `Exclude(t)` all but t; `ExcludeMany(ts)` those not in ts; `Include(ts)` the live ones in ts |
| Net.Selects | src/server.rs:123-157 | `All` selects every connection; `Exclude(t)` selects exactly the connections `Single(t)` does not; `ExcludeMany(ts)` selects exactly those `Include(ts)` does not |
| Net.Deliver | src/lib.rs:36-45 | a send uses no more write results than given and sends at most the length; it completes exactly when every byte went out; an empty send completes at once |
| Net.SendBytes | src/lib.rs:29-48 | (intended `send_bytes`; see Findings) an empty buffer gives `InvalidData` without writing; a failed or blocked write gives `FailedToSendBytes`; success returns the buffer's length and the wire carries exactly the buffer, however the writes were split |
| Net.SendBytesAsWritten | src/lib.rs:29-48 | the loop as written: the same outcome and count of writes as `Deliver`, but each write echoes a prefix of the buffer, so the wire carries `EchoedPrefixes` |
| Net.AsWrittenRepeatsPrefix | src/lib.rs:37 | for the buffer [1, 2] and two one-byte writes, the loop reports success yet the wire carried [1, 1] |
| Reassembly.SocketRead | src/client.rs:90-116 | a read that returns data returns 1 to `room` bytes and consumes input, so the loop terminates |
| Reassembly.Burst | src/client.rs:88-117 | a read burst never appends more bytes than the free room |
| Reassembly.BurstTakesStream | src/client.rs:88-117 | a burst appends exactly the start of the peer's byte stream, in order, as much as fits; when the stream does not fit, the full buffer reads 0 bytes and the burst ends as if closed |
| Reassembly.ReadBurst | src/client.rs:88-117 | the read loop on the buffer: the valid bytes become the old ones followed by the burst's bytes, and it stops for the burst's reason |
| Reassembly.FrameEnd | src/client.rs:120-125 | a packet the loop accepts ends within the valid bytes, after its header and below `MAX_PACKET_SIZE` |
| Reassembly.FrontPacket | src/client.rs:128-132 | the packet cut off has a body as long as its header says, shorter than 1024 |
| Reassembly.Extract | src/client.rs:120-137 | the extraction loop on values: it leaves no more bytes than it had; it extracts nothing exactly when no complete packet is at the front, and then leaves the bytes alone; every packet extracted is well formed |
| Reassembly.FrontFrame | src/client.rs:128-130 | the packet cut off is byte exact: its frame is the prefix it was cut from |
| Reassembly.FrontUnderAppend | src/client.rs:120-130 | bytes arriving behind a complete packet change neither that packet nor where it ends |
| Reassembly.ExtractSplitsFrames | src/client.rs:120-137 | the valid bytes are exactly the frames of the extracted packets, in order, followed by the leftover, and the leftover holds no complete packet at its front |
| Reassembly.ExtractFrames | src/client.rs:120-137 | round trip: the frames of well-formed packets, followed by bytes with no complete packet at the front, extract to exactly those packets and those bytes |
| Reassembly.ExtractChunked | src/client.rs:120-137 | extracting from `a`, then from the leftover plus `b`, equals extracting from `a + b` at once |
| Reassembly.ChunkingIsInvisible | src/client.rs:88-137 | however the stream is cut into per-tick chunks, one extraction per tick yields the same packets and leftover as a single delivery |
| Reassembly.ExtractPackets | src/server.rs:240-257 | the extraction loop on the buffer, decoding from the whole array as the source does: it returns the packets `Extract` gives for the old valid bytes, in order, and leaves its leftover |
| Reassembly.Intake | src/client.rs:87-138 | one readable event on the pending bytes: the read burst, then extraction; it never leaves more than a buffer's worth of bytes pending (the split into frames is `IntakeSplits`) |
| Reassembly.IntakeSplits | src/client.rs:87-138 | after a read burst and the extraction, old bytes plus bytes read equal the frames of the packets handed on followed by what stays; no complete packet stays; the connection counts as closed exactly when the burst did not end by blocking |
| Reassembly.ReadAndExtract | src/client.rs:87-138 | the read loop and the extraction loop on one buffer do exactly what `Intake` describes |
| Reassembly.Flush | src/client.rs:141-163 | the write loop on values: it uses no more write results than given and keeps no more bodies than it had; a flush that does not fail empties the FIFO |
| Reassembly.FlushKeepsTail | src/client.rs:141-163 | a flush only consumes the front of the FIFO: what stays queued is a suffix, in order |
| Reassembly.FlushQueue | src/server.rs:261-285 | the write loop as a method: it pops bodies, skips those that do not serialise, sends each with `send_bytes`, and stops on a failure with the rest queued, exactly as `Flush` describes |
| Reassembly.FlushInOrder | src/client.rs:142-153 | (intended `send_bytes`; see Findings) a flush that does not fail puts the serialised bodies on the wire back to back, in FIFO order, skipping only those that do not serialise, and reports each one's size |
| Reassembly.ReceivedAll | src/client.rs:142-153 | the packets a peer rebuilds from the bodies that serialise are well formed |
| Reassembly.OnWireIsFrames | src/client.rs:142-153 | (intended `send_bytes`; see Findings) the bytes a completed flush writes are the frames of those packets |
| Reassembly.FlushThenExtract | src/client.rs:141-163 | (intended `send_bytes`; see Findings) end to end: extracting what a completed flush wrote yields one packet per body that serialised, with its id and bytes, in queue order, and nothing left over |
| ServerEngine.ReadPhase | src/server.rs:212-258 | (intended read loop; see Findings) the read phase of a socket event: the pending bytes stay within the buffer, the FIFO is untouched and the flag is never cleared |
| ServerEngine.WritePhase | src/server.rs:260-285 | the write phase: the pending bytes are untouched; the FIFO loses only its front; the flag is set exactly when it was set or a send failed; a connection left unflagged has an empty FIFO |
| ServerEngine.Service | src/server.rs:211-285 | (intended read loop; see Findings) one socket event: the FIFO only loses its front; the flag is never cleared; without readability nothing is read; without writability the FIFO is untouched and no `SentPacket` is reported; the events are one `ReceivedPacket` per packet received, in order, with its size on the wire, and then `SentPacket` events |
| ServerEngine.ReadConnection | src/server.rs:212-258 | (intended read loop; see Findings) the read phase on a connection's buffer, in place, as `ReadPhase` states it; the entry keeps its token and buffer |
| ServerEngine.Enqueued | src/server.rs:122-159 | the routing of `send_boxed`: exactly the selected connections get the body appended, once, at the back of their FIFO; the others and the key set are unchanged |
| ServerEngine.ReceivedEvents | src/server.rs:254-256 | one `ReceivedPacket` per packet cut off, in order, with the connection's token and the packet's size on the wire (3 + body size) |
| ServerEngine.SentEvents | src/server.rs:273 | one `SentPacket` per packet sent, in order, with the connection's token and the size `send_bytes` reported |
| ServerEngine.TaggedPairs | src/server.rs:254 | each packet received joins the incoming FIFO as `(token, packet)`, in the order it was cut off |
| ServerEngine.InsertKeepsKeyed | src/server.rs:182-194 | storing a new connection under `token_counter + 1`, below the ceiling, uses a token not in use and keeps the table within the ceiling |
| ServerEngine.Kept | src/server.rs:312 | `retain` keeps exactly the connections whose flag is clear |
| ServerEngine.DisconnectEvents | src/server.rs:307-309 | one `ClientDisconnected` per flagged token, each exactly once, and no other event |
| ServerEngine.Step | src/server.rs:169-303 | one poll event on the server's state: it stops exactly when a socket event names a token with no connection, and then changes nothing and reports nothing |
| ServerEngine.Reaped | src/server.rs:306-312 | exactly the flagged connections go; every remaining one is unchanged and unflagged; ceiling, counter and incoming FIFO are unchanged |
| ServerEngine.StepsStopAtPanic | src/server.rs:203-209 | once an event stops the tick, the events after it are never handled |
| ServerEngine.ServiceReportsNoDisconnects | src/server.rs:211-302 | servicing a socket reports received and sent packets only, never a disconnection |
| ServerEngine.StepsAdvance | src/server.rs:169-304 | the loop over a tick's events never changes the ceiling, only grows the counter, removes no connection, clears no flag, gives new connections only tokens handed out during it, only consumes the front of each FIFO and only appends received packets; it stops only on a token that had no connection when it began |
| ServerEngine.TickReaps | src/server.rs:162-315 | after a whole tick that does not stop: no flagged connection survives; a connection present before survives exactly when it is not reported disconnected; every disconnection reported names a connection no longer present, and each is reported once |
| ServerEngine.FixedSliceBurst | src/server.rs:214-237 | with the slice taken once, every chunk read has 1 to `room` bytes |
| ServerEngine.Overlay | src/server.rs:214-216 | every read into the fixed slice overwrites the array from the old offset; the array keeps its length |
| ServerEngine.ReadLoopAsWritten | src/server.rs:214-237 | the server's read loop as written: the array is the chunks overlaid at the old offset, and the offset grows by the total read |
| ServerEngine.FixedSliceOverwrites | src/server.rs:214-224 | two one-byte reads [1] then [2] into an empty buffer leave the valid bytes [2, 0], where the recomputed slice gives [1, 2] |
| ServerEngine.FixedSliceOverruns | src/server.rs:224 | with one byte of room, two one-byte reads push the offset to 16385, past the array |
| ServerEngine.Server.Host | src/server.rs:63-81 | an empty table with the given ceiling, the counter at 0 and no received packets |
| ServerEngine.Server.NumConnections | src/server.rs:84-86 | never more than the ceiling; 0 exactly when the table is empty |
| ServerEngine.Server.ConnectionLimit | src/server.rs:89-91 | the ceiling, which the table never exceeds |
| ServerEngine.Server.DrainIncomingPackets | src/server.rs:94-96 | every received `(token, packet)` in arrival order; the queue is left empty and nothing else changes |
| ServerEngine.Server.Kick | src/server.rs:99-110 | an absent token gives `ConnectionNotFound` and changes nothing; otherwise only that connection's flag is set |
| ServerEngine.Server.SendBoxed | src/server.rs:122-159 | the body is appended once to the back of the FIFO of exactly the connections the selector reaches; unknown tokens are ignored; nothing else changes |
| ServerEngine.Server.Accept | src/server.rs:172-199 | a failed accept changes nothing; at the ceiling the peer is rejected and nothing changes; otherwise the counter grows by one and the new connection, with an empty buffer and FIFO and its flag clear, is stored under it, a token never used before and never `LOCAL_TOKEN`; the state afterwards is `AcceptStep` of the state before |
| ServerEngine.Server.Admit | src/server.rs:181-196 | below the ceiling: the counter grows by one; a connection with a fresh empty buffer, an empty FIFO and its flag clear is stored under the new token, which was not in use and is not `LOCAL_TOKEN`; the only event is `ClientConnected` with that token and the peer's address; nothing else changes |
| ServerEngine.Server.ReadSocket | src/server.rs:211-258 | (intended read loop; see Findings) when the socket is readable, the read phase on one connection, in place, exactly as `ReadPhase` states it, and otherwise nothing; its packets join the incoming FIFO tagged with its token; no other connection changes |
| ServerEngine.Server.WriteSocket | src/server.rs:260-285 | when the socket is writable, the write phase on one connection exactly as `WritePhase` states it, and otherwise nothing; the incoming FIFO and every other connection are unchanged |
| ServerEngine.Server.ServiceSocket | src/server.rs:211-302 | (intended read loop; see Findings) one socket event on a present connection, exactly as `Service` states it, with its `ReceivedPacket` and `SentPacket` events; the server state afterwards is `Step` of the state before |
| ServerEngine.Server.Reap | src/server.rs:306-312 | one `ClientDisconnected` per flagged connection, each exactly once, and no other event; exactly the flagged connections are removed and the others kept unchanged; the state afterwards is `Reaped` of the state before |
| ServerEngine.Server.Handle | src/server.rs:169-303 | one poll event: the state afterwards and the events are exactly `Step` of the state before; it stops exactly when a socket event names a token with no connection, where the source panics; old connections keep their buffers and new ones get fresh buffers |
| ServerEngine.Server.HandleSocket | src/server.rs:201-302 | (intended read loop; see Findings) a socket event: a token with no connection stops it with no change and no event, where the source panics; otherwise that connection is serviced, as `Step` states |
| ServerEngine.Server.HandleAll | src/server.rs:169-304 | the loop over a tick's events: the state afterwards and the events are exactly `Steps` of the state before; it stops only at a socket event whose token had no connection |
| ServerEngine.Server.Tick | src/server.rs:162-315 | a tick is `Steps` over the events followed by `Reaped`, with the loop's events first and then one `ClientDisconnected` per flagged connection; after a tick that does not stop: no flagged connection remains; a connection present before survives exactly when it is not reported disconnected; every reported token is gone and reported once; every connection was present before or accepted during the tick; received packets are only appended |
| ClientEngine.ReceivedEvents | src/client.rs:134-136 | one `ReceivedPacket` per packet cut off, in order, with the packet's size on the wire (3 + body size) |
| ClientEngine.SentEvents | src/client.rs:152-153 | one `SentPacket` per packet sent, in order, with the size `send_bytes` reported |
| ClientEngine.EventsReport | src/client.rs:134-153 | the `ReceivedPacket` helper reports exactly the wire sizes of its packets and the `SentPacket` helper exactly its sizes, and neither reports `Disconnected` |
| ClientEngine.ReadPhase | src/client.rs:86-138 | the read half of a readable event never leaves more than a buffer's worth of bytes pending (what it reports is `ReadPhaseReports`) |
| ClientEngine.ReadPhaseReports | src/client.rs:86-138 | the read half reports one `ReceivedPacket` per packet it appends to the received queue, in order, each with 3 + its body size; `Disconnected` comes first if at all, exactly when the reads did not end by blocking, and the flag is then set; it sends nothing and leaves the FIFO alone |
| ClientEngine.WritePhase | src/client.rs:140-164 | the write half of a writable event never touches the pending bytes or received packets; unless it sets the flag, it empties the FIFO and reports no `Disconnected` |
| ClientEngine.WritePhaseReports | src/client.rs:140-164 | the write half receives nothing; without a failed send it empties the FIFO and reports one `SentPacket` per body that serialises, in FIFO order, with its frame's size; a failed send happens on a body that serialises, reports the sizes of the bodies sent before it, ends the events with `Disconnected` and sets the flag; the rest of the FIFO stays queued |
| Reassembly.FlushFailed | src/client.rs:141-163 | a flush that fails stops on a body that serialises; that body and all before it leave the FIFO, and the sizes reported are those of the bodies before it that serialise |
| ClientEngine.Service | src/client.rs:85-165 | one readiness event never leaves more than a buffer's worth of bytes pending (what it reports is `ServiceProgress`) |
| ClientEngine.ServiceAll | src/client.rs:82-168 | every event of a poll in turn, with no check of the flag between them; see `ServiceAllProgress` |
| ClientEngine.TickSpec | src/client.rs:71-182 | a tick, which never leaves more than a buffer's worth of bytes pending; see `TickProgress` |
| ClientEngine.ServiceProgress | src/client.rs:85-165 | one event only sets the flag, only appends received packets, only consumes the front of the FIFO and leaves no complete packet pending; its `ReceivedPacket` events are, in order, one per packet appended, with 3 + its body size; while the client stays connected its `SentPacket` events are, in order, one per consumed body that serialises, with its frame's size; the flag ends set exactly when it was set or `Disconnected` is reported |
| ClientEngine.ServiceAllProgress | src/client.rs:82-168 | the same over all events of a poll |
| ClientEngine.TickProgress | src/client.rs:71-182 | the same over a tick: a tick only sets the flag, only appends received packets and only consumes the front of the FIFO; the `ReceivedPacket` events match the packets appended, and while connected the `SentPacket` events match the bodies consumed; a connected client ends it disconnected exactly when it reports `Disconnected`; a disconnected client's tick changes nothing and reports nothing |
| ClientEngine.Client.Connect | src/client.rs:33-55 | a fresh empty buffer, empty FIFOs and the flag clear |
| ClientEngine.Client.IsDisconnected | src/client.rs:57-59 | the flag, which `TickProgress` shows is never cleared |
| ClientEngine.Client.DrainIncomingPackets | src/client.rs:61-63 | the received packets in FIFO order; the queue is left empty and nothing else changes |
| ClientEngine.Client.Send | src/client.rs:65-68 | the body joins the back of the outgoing FIFO and nothing else changes |
| ClientEngine.Client.ServiceEvent | src/client.rs:85-165 | one socket event on the client's state, in place, exactly as `Service` describes |
| ClientEngine.Client.Tick | src/client.rs:71-182 | the tick on the client's state, in place, exactly as `TickSpec` describes |

## Left out

- Sockets and `mio`: polling, registration, re-registration, the 1 ms timeout, `bind`, `connect`, `accept`, `read` and `write`. They are replaced by the inputs described above.
- A write result `Room(n)` means the socket takes `n` bytes, or all it is offered if fewer. A write that would block counts as an error, as it does in the source.
- The I/O error paths of `Server::host` and `Client::connect` (address parsing, bind, connect, registration) are not modelled. The constructors model a successful start only.
- Panics on poll and registration failures are left out.
- A socket event for a token with no connection makes the source panic. `Server.Handle` and `Server.Tick` stop there instead and report `panicked`; the changes made before that point stay.
- The client's `unreachable!()` branch is left out. The client registers only `LOCAL_TOKEN`, so its poll events carry no token.
- `println!` and `eprintln!` logging is left out.
- `HashMap` iteration order is unspecified. `Enqueued` and `DisconnectEvents` take keys in any order, and their contracts speak of sets. The order of the `ClientDisconnected` events within a tick is therefore not stated.
- Wire.SerializePacket: `serialize_packet` and `PacketBody::serialize` return a plain `Vec<u8>` (src/packet.rs:27, src/packet.rs:48) and cannot fail. The engines nevertheless match on an `Err` arm that skips the packet (src/client.rs:143-149, src/server.rs:263-268). A body whose `encoding` is `None`, for which `SerializePacket` gives `None`, models that arm.
- The `PacketBody` trait machinery (`Any`, `box_clone`, boxing) is not modelled. A body is its id and the bytes it serialises to, or `None` when serialising fails. `PacketBody::deserialize` belongs to the application.
- `Server::send` only boxes the body and calls `send_boxed`, so `Server.SendBoxed` models both.
- src/crypto.rs and the examples are not part of this model. Neither is the rest of src/error.rs: the core produces only `FailedToSendBytes`, `InvalidData` and `ConnectionNotFound`.
- `token_counter` is an unbounded natural number. Wrap-around of the `usize` after 2^64 accepts is not modelled.
- NetBuffer.NetworkBuffer: the offset has the type `Offset` (at most 16384), where the source uses an unbounded `usize`. Within the model only the server's read loop as written can push it further, and that loop is modelled on values in `ServerEngine.ReadLoopAsWritten`.
- NetBuffer.NetworkBuffer.Drain: requires `count <= offset`. For a larger count the source's `self.offset - count` underflows. Both callers drain only a packet that lies within the valid bytes.
- Net.SendBytesAsWritten: requires `WritesFit`, i.e. no write reports more bytes than are still unsent. Otherwise `len -= sent_bytes` would underflow, which panics in a debug build and wraps in a release build; neither is modelled.
- ServerEngine.Server.ReadSocket: uses the intended read loop (`Reassembly.ReadBurst`), not the loop as written; see Findings.
- ServerEngine.ReadPhase: describes the intended read loop, not the loop as written at src/server.rs:214-237; see Findings.
- ServerEngine.ReadConnection: runs the intended read loop; see Findings.
- ServerEngine.Service: its read half is the intended read loop; see Findings.
- ServerEngine.Server.ServiceSocket: its read half is the intended read loop; see Findings.
- ServerEngine.Step: a socket event is serviced with the intended read loop, and so are `Steps`, `Server.Handle`, `Server.HandleSocket`, `Server.HandleAll` and `Server.Tick`; see Findings.
- ServerEngine.Server.HandleSocket: services a connection with the intended read loop; see Findings.
- Net.SendBytes: is the intended loop, which writes the unsent part of the buffer on each turn; src/lib.rs:37 passes the whole buffer, and that loop is `Net.SendBytesAsWritten`. Both report the same outcome and the same sizes, so the `SentPacket` events of both engines are unaffected; only the bytes on the wire differ. See Findings.
- Reassembly.FlushInOrder: states the wire bytes of the intended `send_bytes`; with the loop as written the wire carries `Net.EchoedPrefixes` instead; see Findings.
- Reassembly.OnWireIsFrames: the bytes it speaks of are those of the intended `send_bytes`; see Findings.
- Reassembly.FlushThenExtract: holds for the intended `send_bytes`; see Findings.
- Reassembly.FlushQueue: sends with the intended `Net.SendBytes`, not the loop as written; see Findings.

## Findings

| source | as written | input that shows it | evidently intended | confidence | as-written member | corrected member |
|---|---|---|---|---|---|---|
| src/server.rs:214 | the slice `data[offset..]` is taken once before the read loop, so every read writes at the old offset while `offset += read_bytes` keeps growing (src/server.rs:224) | an empty buffer and two reads returning [1] then [2]: the valid bytes become [2, 0]. With one byte of room, two one-byte reads leave the offset at 16385, past the 16384-byte array | take the slice again before every read, as the client does (src/client.rs:92) | high; not executed | ServerEngine.ReadLoopAsWritten, ServerEngine.FixedSliceOverwrites, ServerEngine.FixedSliceOverruns | Reassembly.ReadBurst, via ServerEngine.ReadConnection |
| src/lib.rs:37 | every `write` is passed the whole buffer rather than its unsent part | the buffer [1, 2] and a socket that takes one byte per write: `send_bytes` returns `Ok(2)`, but the wire carried [1, 1] | write `buffer[buffer.len() - len..]` on each turn | high; not executed | Net.SendBytesAsWritten, Net.AsWrittenRepeatsPrefix | Net.SendBytes |

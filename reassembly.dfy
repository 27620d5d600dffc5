/** The three loops the client and the server engines run on a connection's
    state in every tick (src/client.rs:88-163, src/server.rs:212-285): reading
    from the socket into the intake buffer, cutting complete packets off the
    front of the buffer, and flushing the outgoing queue into the socket. */
module Reassembly {
  import opened NetBuffer
  import opened Net
  import opened Wire

  // ---------------------------------------------------------------------------
  // Reading
  // ---------------------------------------------------------------------------

  /** One outcome of a non-blocking `read` as the peer and the kernel would
      produce it if the slice were large enough: some bytes (an empty chunk is
      the `Ok(0)` of a closed peer), would-block, or another error. */
  datatype ReadResult = Data(bytes: seq<u8>) | WouldBlock | ReadFailed

  /** Why a read loop stopped: no data for now, the peer closed (a read
      returned 0 bytes), or an error. */
  datatype ReadStop = Blocked | Closed | Failed

  /** One `read` into a slice of `room` bytes: the bytes it returns and the
      outcomes still pending, or the reason the loop stops. */
  datatype ReadStep = Got(bytes: seq<u8>, rest: seq<ReadResult>) | Stopped(stop: ReadStop)

  function ResultWeight(r: ReadResult): nat
  {
    if r.Data? then 1 + |r.bytes| else 1
  }

  /** A measure that every read returning bytes decreases. */
  function Weight(rs: seq<ReadResult>): nat
  {
    if rs == [] then 0 else ResultWeight(rs[0]) + Weight(rs[1..])
  }

  /** A socket `read` into a slice of `room` bytes. A chunk larger than the
      slice is cut and its tail stays queued in the socket; a slice of length
      0 makes `read` return 0, which the engines take for a closed peer;
      running out of outcomes means the socket would block. */
  function SocketRead(room: nat, rs: seq<ReadResult>): (s: ReadStep)
    ensures s.Got? ==> 0 < |s.bytes| <= room && Weight(s.rest) < Weight(rs)
  {
    if room == 0 then Stopped(Closed)
    else if rs == [] then Stopped(Blocked)
    else match rs[0]
      case WouldBlock => Stopped(Blocked)
      case ReadFailed => Stopped(Failed)
      case Data(b) =>
        if |b| == 0 then Stopped(Closed)
        else if |b| <= room then Got(b, rs[1..])
        else
          var rest := [Data(b[room..])] + rs[1..];
          assert rest[1..] == rs[1..];
          Got(b[..room], rest)
  }

  /** The bytes the peer has made available, in order, up to the first pause,
      error or close. */
  function Stream(rs: seq<ReadResult>): seq<u8>
  {
    if rs == [] || !rs[0].Data? || rs[0].bytes == [] then []
    else rs[0].bytes + Stream(rs[1..])
  }

  datatype BurstResult = BurstResult(bytes: seq<u8>, stop: ReadStop)

  /** The read loop on a slice that is recomputed before every read: the
      bytes appended to the buffer and why the loop ended. */
  function Burst(room: nat, rs: seq<ReadResult>): (b: BurstResult)
    ensures |b.bytes| <= room
    decreases Weight(rs)
  {
    match SocketRead(room, rs)
    case Stopped(s) => BurstResult([], s)
    case Got(bytes, rest) =>
      var b := Burst(room - |bytes|, rest);
      BurstResult(bytes + b.bytes, b.stop)
  }

  /** A read burst appends exactly the start of the peer's byte stream, in
      order, as much of it as fits; when the stream does not fit, the loop
      ends by reading 0 bytes into the full buffer, i.e. as if closed. */
  lemma {:induction false} BurstTakesStream(room: nat, rs: seq<ReadResult>)
    ensures Burst(room, rs).bytes == Stream(rs)[..Min(room, |Stream(rs)|)]
    ensures room <= |Stream(rs)| ==> Burst(room, rs).stop == Closed
    decreases Weight(rs)
  {
    if room == 0 || rs == [] || !rs[0].Data? || rs[0].bytes == [] {
    } else {
      var b := rs[0].bytes;
      if |b| <= room {
        BurstTakesStream(room - |b|, rs[1..]);
        assert Stream(rs) == b + Stream(rs[1..]);
      } else {
        var rest := [Data(b[room..])] + rs[1..];
        assert SocketRead(room, rs) == Got(b[..room], rest);
        assert Burst(0, rest) == BurstResult([], Closed);
        assert Stream(rs)[..room] == b[..room];
      }
    }
  }

  /** The engines' read loop (src/client.rs:88-117): read into the free part
      of the buffer, `data[offset..]`, recomputed before every read, until the
      socket would block, closes or fails. */
  method ReadBurst(buf: NetworkBuffer, rs: seq<ReadResult>) returns (stop: ReadStop)
    requires buf.Valid()
    modifies buf, buf.data
    ensures buf.Valid()
    ensures var b := Burst(MAX_BUFFER_SIZE - old(buf.offset), rs);
      buf.Contents() == old(buf.Contents()) + b.bytes && stop == b.stop
  {
    var pending := rs;
    while true
      invariant buf.Valid()
      invariant var whole, tail := Burst(MAX_BUFFER_SIZE - old(buf.offset), rs), Burst(MAX_BUFFER_SIZE - buf.offset, pending);
        old(buf.Contents()) + whole.bytes == buf.Contents() + tail.bytes && whole.stop == tail.stop
      decreases Weight(pending)
    {
      var step := SocketRead(MAX_BUFFER_SIZE - buf.offset, pending);
      match step
      case Stopped(s) =>
        return s;
      case Got(bytes, rest) =>
        ghost var before := buf.Contents();
        var at := buf.offset;
        forall i | 0 <= i < |bytes| {
          buf.data[at + i] := bytes[i];
        }
        buf.offset := at + |bytes|;
        assert buf.Contents() == before + bytes;
        pending := rest;
    }
  }

  // ---------------------------------------------------------------------------
  // Packet extraction
  // ---------------------------------------------------------------------------

  /** The packets cut off the front of the buffer and the bytes left in it. */
  datatype Extraction = Extraction(packets: seq<Packet>, rest: seq<u8>)

  /** The valid bytes `c` start with a complete packet the loop accepts: at
      least a header, a header that decodes, and its whole body. */
  predicate FrameAtFront(c: seq<u8>)
  {
    && |c| >= PACKET_HEADER_SIZE
    && DeserializePacketHeader(c).Ok?
    && |c| >= PACKET_HEADER_SIZE + DeserializePacketHeader(c).value.size
  }

  /** Where the packet at the front of `c` ends. */
  function FrameEnd(c: seq<u8>): (n: nat)
    requires FrameAtFront(c)
    ensures PACKET_HEADER_SIZE <= n <= |c| && n < MAX_PACKET_SIZE
  {
    PACKET_HEADER_SIZE + DeserializePacketHeader(c).value.size
  }

  /** The packet at the front of `c`. */
  function FrontPacket(c: seq<u8>): (p: Packet)
    requires FrameAtFront(c)
    ensures WellFormed(p)
  {
    Packet(DeserializePacketHeader(c).value, c[PACKET_HEADER_SIZE..FrameEnd(c)])
  }

  /** The extraction loop on the valid bytes `c`: while a header decodes and
      its whole packet is present, cut that packet off. Fewer than three valid
      bytes stop it just as a refused header or a partial packet does. */
  function Extract(c: seq<u8>): (e: Extraction)
    ensures |e.rest| <= |c|
    ensures e.packets == [] <==> !FrameAtFront(c)
    ensures e.packets == [] ==> e.rest == c
    ensures forall i :: 0 <= i < |e.packets| ==> WellFormed(e.packets[i])
    decreases |c|
  {
    if !FrameAtFront(c) then Extraction([], c)
    else
      var e := Extract(c[FrameEnd(c)..]);
      Extraction([FrontPacket(c)] + e.packets, e.rest)
  }

  /** The concatenated frames of a sequence of packets. */
  function Frames(ps: seq<Packet>): seq<u8>
  {
    if ps == [] then [] else Frame(ps[0]) + Frames(ps[1..])
  }

  /** The packet at the front is byte exact: its frame is the prefix it was
      cut from. */
  lemma FrontFrame(c: seq<u8>)
    requires FrameAtFront(c)
    ensures Frame(FrontPacket(c)) == c[..FrameEnd(c)]
  {
    U16Bytes(c[0], c[1]);
  }

  /** Bytes arriving behind a complete packet change neither the packet nor
      where it ends. */
  lemma FrontUnderAppend(a: seq<u8>, b: seq<u8>)
    requires FrameAtFront(a)
    ensures FrameAtFront(a + b) && FrameEnd(a + b) == FrameEnd(a)
    ensures FrontPacket(a + b) == FrontPacket(a)
    ensures (a + b)[FrameEnd(a)..] == a[FrameEnd(a)..] + b
  {
    assert (a + b)[..PACKET_HEADER_SIZE] == a[..PACKET_HEADER_SIZE];
    assert (a + b)[PACKET_HEADER_SIZE..FrameEnd(a)] == a[PACKET_HEADER_SIZE..FrameEnd(a)];
  }

  /** Extraction is byte exact: the valid bytes are the frames of the
      extracted packets, in order, followed by what is left, and what is left
      does not start with a complete acceptable packet. */
  lemma {:induction false} ExtractSplitsFrames(c: seq<u8>)
    ensures var e := Extract(c); c == Frames(e.packets) + e.rest && !FrameAtFront(e.rest)
    decreases |c|
  {
    if FrameAtFront(c) {
      var total := FrameEnd(c);
      var tail := c[total..];
      ExtractSplitsFrames(tail);
      var e := Extract(tail);
      var p := FrontPacket(c);
      FrontFrame(c);
      FramesCons(p, e.packets);
      Reglue(c, total, Frames(e.packets), e.rest);
    }
  }

  lemma FramesCons(p: Packet, ps: seq<Packet>)
    ensures Frames([p] + ps) == Frame(p) + Frames(ps)
  {
    assert ([p] + ps)[1..] == ps;
  }

  lemma Reglue(c: seq<u8>, n: nat, front: seq<u8>, rest: seq<u8>)
    requires n <= |c| && c[n..] == front + rest
    ensures c == (c[..n] + front) + rest
  {
    assert c == c[..n] + c[n..];
  }

  /** Framing round trip: the frames of well-formed packets, followed by
      bytes that hold no complete packet, extract to exactly those packets. */
  lemma {:induction false} ExtractFrames(ps: seq<Packet>, rest: seq<u8>)
    requires forall i :: 0 <= i < |ps| ==> WellFormed(ps[i])
    requires !FrameAtFront(rest)
    ensures Extract(Frames(ps) + rest) == Extraction(ps, rest)
  {
    if ps != [] {
      var p, tail := ps[0], Frames(ps[1..]) + rest;
      ExtractFrames(ps[1..], rest);
      assert Frames(ps) + rest == Frame(p) + tail;
      ExtractCons(p, tail);
      assert [p] + ps[1..] == ps;
    }
  }

  /** Extracting from a well-formed packet's frame, whatever follows it,
      yields that packet first and then what extracting the rest yields. */
  lemma ExtractCons(p: Packet, tail: seq<u8>)
    requires WellFormed(p)
    ensures var e := Extract(tail); Extract(Frame(p) + tail) == Extraction([p] + e.packets, e.rest)
  {
    FrameAtFrontOfFrame(p, tail);
  }

  /** A well-formed packet's frame, whatever follows it, is accepted as the
      packet at the front. */
  lemma FrameAtFrontOfFrame(p: Packet, tail: seq<u8>)
    requires WellFormed(p)
    ensures var c := Frame(p) + tail;
      FrameAtFront(c) && FrontPacket(c) == p && c[FrameEnd(c)..] == tail
  {
    FrameRoundTrip(p, tail);
    var c := Frame(p) + tail;
    assert c[PACKET_HEADER_SIZE + |p.body|..] == tail;
  }

  /** Extraction does not depend on where the byte stream was cut: extracting
      from `a`, then from what is left followed by `b`, gives the packets and
      the leftover of extracting from `a + b` in one go. */
  lemma {:induction false} ExtractChunked(a: seq<u8>, b: seq<u8>)
    ensures var first := Extract(a); var second := Extract(first.rest + b);
      Extract(a + b) == Extraction(first.packets + second.packets, second.rest)
    decreases |a|
  {
    if FrameAtFront(a) {
      var total := FrameEnd(a);
      ExtractChunked(a[total..], b);
      FrontUnderAppend(a, b);
      var first := Extract(a[total..]);
      var second := Extract(first.rest + b);
      var p := FrontPacket(a);
      assert [p] + (first.packets + second.packets) == ([p] + first.packets) + second.packets;
    } else {
      assert [] + Extract(a + b).packets == Extract(a + b).packets;
    }
  }

  function Concat(chunks: seq<seq<u8>>): seq<u8>
  {
    if chunks == [] then [] else chunks[0] + Concat(chunks[1..])
  }

  /** Extraction run once per tick, each tick after the next chunk of the
      stream has arrived, starting from the leftover `pending`. */
  function ExtractPerChunk(pending: seq<u8>, chunks: seq<seq<u8>>): Extraction
    decreases |chunks|
  {
    if chunks == [] then Extraction([], pending)
    else
      var e := Extract(pending + chunks[0]);
      var later := ExtractPerChunk(e.rest, chunks[1..]);
      Extraction(e.packets + later.packets, later.rest)
  }

  /** Delivering a stream in chunks over several ticks reassembles the same
      packets, and leaves the same bytes, as delivering it in one read. */
  lemma {:induction false} ChunkingIsInvisible(pending: seq<u8>, chunks: seq<seq<u8>>)
    requires !FrameAtFront(pending)
    ensures ExtractPerChunk(pending, chunks) == Extract(pending + Concat(chunks))
    decreases |chunks|
  {
    if chunks != [] {
      var head := pending + chunks[0];
      var later := Concat(chunks[1..]);
      var e := Extract(head);
      ExtractSplitsFrames(head);
      ChunkingIsInvisible(e.rest, chunks[1..]);
      ExtractChunked(head, later);
      Associative(pending, chunks[0], later);
    } else {
      assert pending + Concat(chunks) == pending;
    }
  }

  /** The extraction loop (src/client.rs:120-137, src/server.rs:240-257): decode
      the header at the front of the array; stop on a refused header or when
      fewer than `3 + size` bytes are valid; otherwise copy the body out, drain
      the packet from the buffer and queue it. */
  method ExtractPackets(buf: NetworkBuffer) returns (packets: seq<Packet>)
    requires buf.Valid()
    modifies buf, buf.data
    ensures buf.Valid()
    ensures Extract(old(buf.Contents())) == Extraction(packets, buf.Contents())
  {
    packets := [];
    while true
      invariant buf.Valid()
      invariant var now := Extract(buf.Contents());
        Extract(old(buf.Contents())) == Extraction(packets + now.packets, now.rest)
      decreases buf.offset
    {
      ghost var c := buf.Contents();
      var header := DeserializePacketHeader(buf.data[..]);
      HeaderOfValidBytes(buf.data[..], buf.offset);
      if header.Err? || buf.offset < PACKET_HEADER_SIZE + header.value.size {
        assert packets + Extract(c).packets == packets;
        break;
      }
      var packetSize := PACKET_HEADER_SIZE + header.value.size;
      var body := buf.data[PACKET_HEADER_SIZE..packetSize];
      assert Packet(header.value, body) == FrontPacket(c);
      buf.Drain(packetSize);
      ExtractStep(c, packets);
      packets := packets + [Packet(header.value, body)];
    }
  }

  /** The header the loop decodes from the whole array is the one at the
      front of the valid bytes, and it is followed by a complete packet
      exactly when the valid bytes start with one. */
  lemma HeaderOfValidBytes(data: seq<u8>, offset: nat)
    requires |data| >= PACKET_HEADER_SIZE && offset <= |data|
    ensures var h := DeserializePacketHeader(data);
      && (FrameAtFront(data[..offset]) <==> h.Ok? && offset >= PACKET_HEADER_SIZE + h.value.size)
      && (FrameAtFront(data[..offset]) ==>
            FrameEnd(data[..offset]) == PACKET_HEADER_SIZE + h.value.size
            && FrontPacket(data[..offset]) == Packet(h.value, data[PACKET_HEADER_SIZE..FrameEnd(data[..offset])]))
  {
    if offset >= PACKET_HEADER_SIZE {
      assert data[..offset][..PACKET_HEADER_SIZE] == data[..PACKET_HEADER_SIZE];
    }
  }

  /** One turn of the extraction loop: cutting off the front packet moves it
      from what is still to be extracted to what has been extracted. */
  lemma ExtractStep(c: seq<u8>, packets: seq<Packet>)
    requires FrameAtFront(c)
    ensures var now, next := Extract(c), Extract(c[FrameEnd(c)..]);
      packets + now.packets == (packets + [FrontPacket(c)]) + next.packets
      && now.rest == next.rest
  {
  }

  /** The read phase of a socket event on the valid bytes `pending`: the
      packets cut off after a read burst, the bytes left, and whether the
      burst ended in a close or an error rather than would-block. */
  datatype Intaken = Intaken(packets: seq<Packet>, rest: seq<u8>, closed: bool)

  function Intake(pending: seq<u8>, rs: seq<ReadResult>): (r: Intaken)
    requires |pending| <= MAX_BUFFER_SIZE
    ensures |r.rest| <= MAX_BUFFER_SIZE
  {
    var b := Burst(MAX_BUFFER_SIZE - |pending|, rs);
    var e := Extract(pending + b.bytes);
    Intaken(e.packets, e.rest, b.stop != Blocked)
  }

  /** What one intake does: the bytes held before plus the bytes read are
      exactly the frames of the packets handed on followed by what stays
      pending, no complete frame stays at the front, and the connection is
      reported closed exactly when the reads did not end by blocking. */
  lemma IntakeSplits(pending: seq<u8>, rs: seq<ReadResult>)
    requires |pending| <= MAX_BUFFER_SIZE
    ensures var r, b := Intake(pending, rs), Burst(MAX_BUFFER_SIZE - |pending|, rs);
      && pending + b.bytes == Frames(r.packets) + r.rest
      && !FrameAtFront(r.rest)
      && (r.closed <==> b.stop != Blocked)
  {
    ExtractSplitsFrames(pending + Burst(MAX_BUFFER_SIZE - |pending|, rs).bytes);
  }

  /** The read loop followed by the extraction loop on one buffer. */
  method ReadAndExtract(buf: NetworkBuffer, rs: seq<ReadResult>) returns (closed: bool, packets: seq<Packet>)
    requires buf.Valid()
    modifies buf, buf.data
    ensures buf.Valid()
    ensures Intake(old(buf.Contents()), rs) == Intaken(packets, buf.Contents(), closed)
  {
    ghost var before := buf.Contents();
    ghost var b := Burst(MAX_BUFFER_SIZE - |before|, rs);
    var stop := ReadBurst(buf, rs);
    closed := stop != Blocked;
    ghost var read := buf.Contents();
    assert read == before + b.bytes;
    packets := ExtractPackets(buf);
    ghost var e := Extract(read);
    assert e == Extraction(packets, buf.Contents());
    IntakeOf(before, rs);
  }

  lemma IntakeOf(pending: seq<u8>, rs: seq<ReadResult>)
    requires |pending| <= MAX_BUFFER_SIZE
    ensures var b := Burst(MAX_BUFFER_SIZE - |pending|, rs); var e := Extract(pending + b.bytes);
      Intake(pending, rs) == Intaken(e.packets, e.rest, b.stop != Blocked)
  {
  }

  // ---------------------------------------------------------------------------
  // Flushing the outgoing queue
  // ---------------------------------------------------------------------------

  /** The end of a flush: the size of each packet sent, in order, what stays
      queued, whether a send failed, how many write outcomes were used and
      the bytes the socket took. */
  datatype FlushResult = FlushResult(sent: seq<nat>, rest: seq<PacketBody>, failed: bool, used: nat, wire: seq<u8>)

  /** The write loop: pop the front packet; drop it when it does not
      serialise; otherwise send it, and on a failed send stop with the rest
      of the queue left as it was. */
  function Flush(queue: seq<PacketBody>, ws: seq<WriteResult>): (f: FlushResult)
    ensures f.used <= |ws|
    ensures |f.rest| <= |queue|
    ensures !f.failed ==> f.rest == []
    decreases |queue|
  {
    if queue == [] then FlushResult([], [], false, 0, [])
    else match SerializePacket(queue[0])
      case None => Flush(queue[1..], ws)
      case Some(data) =>
        var d := Deliver(|data|, ws);
        if !d.complete then FlushResult([], queue[1..], true, d.used, data[..d.sent])
        else
          var f := Flush(queue[1..], ws[d.used..]);
          FlushResult([|data|] + f.sent, f.rest, f.failed, d.used + f.used, data + f.wire)
  }

  /** A flush only ever consumes the front of the queue: what stays queued
      is a suffix of it, in the same order. */
  lemma {:induction false} FlushKeepsTail(queue: seq<PacketBody>, ws: seq<WriteResult>)
    ensures var f := Flush(queue, ws); f.rest == queue[|queue| - |f.rest|..]
    decreases |queue|
  {
    if queue != [] {
      match SerializePacket(queue[0])
      case None =>
        FlushKeepsTail(queue[1..], ws);
      case Some(data) =>
        var d := Deliver(|data|, ws);
        if d.complete {
          FlushKeepsTail(queue[1..], ws[d.used..]);
        }
    }
  }

  /** The engines' write loop (src/client.rs:141-163, src/server.rs:261-285). */
  method FlushQueue(queue: seq<PacketBody>, writes: seq<WriteResult>) returns (f: FlushResult)
    ensures f == Flush(queue, writes)
  {
    var q, ws := queue, writes;
    var sent: seq<nat>, used, wire := [], 0, [];
    while q != []
      invariant used <= |writes| && ws == writes[used..]
      invariant var whole, tail := Flush(queue, writes), Flush(q, ws);
        whole == FlushResult(sent + tail.sent, tail.rest, tail.failed, used + tail.used, wire + tail.wire)
      decreases |q|
    {
      var body := q[0];
      q := q[1..];
      match SerializePacket(body)
      case None =>
      case Some(data) =>
        var r, n, w := SendBytes(data, ws);
        if r.Err? {
          return FlushResult(sent, q, true, used + n, wire + w);
        }
        assert sent + ([|data|] + Flush(q, ws[n..]).sent) == (sent + [r.value]) + Flush(q, ws[n..]).sent;
        assert wire + (data + Flush(q, ws[n..]).wire) == (wire + w) + Flush(q, ws[n..]).wire;
        sent, used, wire := sent + [r.value], used + n, wire + w;
        ws := ws[n..];
    }
    assert sent + [] == sent && wire + [] == wire;
    f := FlushResult(sent, [], false, used, wire);
  }

  /** The bytes of the bodies that serialise, each framed, in queue order. */
  function OnWire(queue: seq<PacketBody>): seq<u8>
  {
    if queue == [] then []
    else (match SerializePacket(queue[0]) case None => [] case Some(d) => d) + OnWire(queue[1..])
  }

  /** The frame sizes of the bodies that serialise, in queue order. */
  function Sizes(queue: seq<PacketBody>): seq<nat>
  {
    if queue == [] then []
    else (match SerializePacket(queue[0]) case None => [] case Some(d) => [|d|]) + Sizes(queue[1..])
  }

  /** A flush that does not fail puts on the wire the serialisations of the
      queued bodies in FIFO order, one after the other, skipping only those
      that do not serialise, and reports each one's size. */
  lemma {:induction false} FlushInOrder(queue: seq<PacketBody>, ws: seq<WriteResult>)
    requires !Flush(queue, ws).failed
    ensures Flush(queue, ws).wire == OnWire(queue)
    ensures Flush(queue, ws).sent == Sizes(queue)
    decreases |queue|
  {
    if queue != [] {
      var d := SerializePacket(queue[0]);
      if d.Some? {
        FlushInOrder(queue[1..], ws[Deliver(|d.value|, ws).used..]);
      } else {
        FlushInOrder(queue[1..], ws);
        assert [] + OnWire(queue[1..]) == OnWire(queue[1..]);
        assert [] + Sizes(queue[1..]) == Sizes(queue[1..]);
      }
    }
  }

  /** A flush that fails stops on a body that serialises: that body and
      everything before it leave the queue, and the sizes reported are those
      of the bodies before it that serialise. */
  lemma {:induction false} FlushFailed(queue: seq<PacketBody>, ws: seq<WriteResult>)
    requires Flush(queue, ws).failed
    ensures var f := Flush(queue, ws); var n := |queue| - |f.rest|;
      && 0 < n && SerializePacket(queue[n - 1]).Some?
      && f.sent == Sizes(queue[..n - 1])
    decreases |queue|
  {
    var d := SerializePacket(queue[0]);
    var f := Flush(queue, ws);
    var n := |queue| - |f.rest|;
    if d.None? {
      FlushFailed(queue[1..], ws);
      assert queue[..n - 1][0] == queue[0] && queue[..n - 1][1..] == queue[1..][..n - 2];
      assert [] + Sizes(queue[1..][..n - 2]) == Sizes(queue[1..][..n - 2]);
    } else if Deliver(|d.value|, ws).complete {
      FlushFailed(queue[1..], ws[Deliver(|d.value|, ws).used..]);
      assert queue[..n - 1][0] == queue[0] && queue[..n - 1][1..] == queue[1..][..n - 2];
    } else {
      assert queue[..n - 1] == [];
    }
  }

  /** Every body in the queue that serialises does so below the maximum size. */
  predicate Fits(queue: seq<PacketBody>)
  {
    forall i :: 0 <= i < |queue| && queue[i].encoding.Some? ==> |queue[i].encoding.value| < MAX_PACKET_BODY_SIZE
  }

  /** The packets a peer reassembles from the bodies that serialise, in order. */
  function ReceivedAll(queue: seq<PacketBody>): (ps: seq<Packet>)
    requires Fits(queue)
    ensures forall i :: 0 <= i < |ps| ==> WellFormed(ps[i])
  {
    if queue == [] then []
    else if queue[0].encoding.Some? then [Received(queue[0])] + ReceivedAll(queue[1..])
    else ReceivedAll(queue[1..])
  }

  lemma {:induction false} OnWireIsFrames(queue: seq<PacketBody>)
    requires Fits(queue)
    ensures OnWire(queue) == Frames(ReceivedAll(queue))
  {
    if queue != [] {
      OnWireIsFrames(queue[1..]);
      if queue[0].encoding.Some? {
        SerializeIsFrame(queue[0]);
        var ps := ReceivedAll(queue);
        assert ps[1..] == ReceivedAll(queue[1..]);
      }
    }
  }

  /** FIFO delivery end to end: when a flush completes, extracting the bytes
      it wrote yields one packet per body that serialised, carrying that
      body's id and bytes, in the order the bodies were queued. */
  lemma FlushThenExtract(queue: seq<PacketBody>, ws: seq<WriteResult>)
    requires Fits(queue) && !Flush(queue, ws).failed
    ensures Extract(Flush(queue, ws).wire) == Extraction(ReceivedAll(queue), [])
  {
    FlushInOrder(queue, ws);
    OnWireIsFrames(queue);
    ExtractFrames(ReceivedAll(queue), []);
    assert Frames(ReceivedAll(queue)) + [] == Frames(ReceivedAll(queue));
  }
}

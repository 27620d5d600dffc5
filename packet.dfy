/** The wire format (src/packet.rs): a 3-byte header, the body length as a
    big-endian u16 followed by a u8 packet id, then the body bytes. */
module Wire {
  import opened NetBuffer
  import opened Net

  const PACKET_HEADER_SIZE: nat := 3
  const MAX_PACKET_BODY_SIZE: nat := 1024
  const MAX_PACKET_SIZE: nat := PACKET_HEADER_SIZE + MAX_PACKET_BODY_SIZE

  /** Rust's `u16`. */
  type u16 = x: nat | x < 0x1_0000

  /** `PacketHeader`: the declared body size and the packet id. */
  datatype PacketHeader = PacketHeader(size: u16, id: u8)

  /** `Packet`: a decoded header and the body bytes that followed it. */
  datatype Packet = Packet(header: PacketHeader, body: seq<u8>)

  /** A value implementing `PacketBody`, seen only through what the core asks
      of it: its id, and the bytes its serialisation produces (`None` when
      serialising it fails). */
  datatype PacketBody = PacketBody(id: u8, encoding: Option<seq<u8>>)

  /** The u16 that the two bytes `hi`, `lo` spell in network byte order. */
  function BigEndian16(hi: u8, lo: u8): (n: u16)
  {
    hi as nat * 256 + lo as nat
  }

  /** The two bytes of `n as u16` in network byte order; `as u16` keeps the
      low 16 bits. */
  function EncodeU16(n: nat): (s: seq<u8>)
    ensures |s| == 2 && BigEndian16(s[0], s[1]) == n % 0x1_0000
  {
    U16Digits(n);
    [(n / 256 % 256) as u8, (n % 256) as u8]
  }

  lemma U16Digits(n: nat)
    ensures (n / 256 % 256) * 256 + n % 256 == n % 0x1_0000
  {
    var q, r := n / 256, n % 256;
    var m := 256 * (q % 256) + r;
    assert n == 256 * q + r && q == 256 * (q / 256) + q % 256;
    assert n == 0x1_0000 * (q / 256) + m && m < 0x1_0000;
    LowDigits(n, q / 256, m);
  }

  lemma LowDigits(n: nat, k: nat, m: nat)
    requires n == 0x1_0000 * k + m && m < 0x1_0000
    ensures n % 0x1_0000 == m
  {
  }

  /** `serialize_packet`: the header for the serialised body, then the body.
      Fails exactly when serialising the body fails. */
  function SerializePacket(body: PacketBody): (r: Option<seq<u8>>)
    ensures r.Some? <==> body.encoding.Some?
    ensures r.Some? ==>
      var payload := body.encoding.value;
      && |r.value| == PACKET_HEADER_SIZE + |payload|
      && BigEndian16(r.value[0], r.value[1]) == |payload| % 0x1_0000
      && r.value[2] == body.id
      && r.value[PACKET_HEADER_SIZE..] == payload
  {
    match body.encoding
    case None => None
    case Some(payload) => Some(EncodeU16(|payload|) + [body.id] + payload)
  }

  /** `deserialize_packet_header`: reads the first three bytes of the whole
      buffer array, whatever its offset. A declared size of 1024 or more is
      refused; an accepted header always describes a packet that fits the
      buffer, so slicing its body out is always in bounds. */
  function DeserializePacketHeader(data: seq<u8>): (r: Result<PacketHeader>)
    requires |data| >= PACKET_HEADER_SIZE
    ensures r.Err? ==> r.error == InvalidData
    ensures r.Ok? ==> PACKET_HEADER_SIZE + r.value.size < MAX_PACKET_SIZE < MAX_BUFFER_SIZE
  {
    var size := BigEndian16(data[0], data[1]);
    if size >= MAX_PACKET_BODY_SIZE then Err(InvalidData)
    else Ok(PacketHeader(size, data[2]))
  }

  /** Decoding undoes the encoder: the two bytes `EncodeU16` writes for
      the u16 that `hi`, `lo` spell are `hi`, `lo` again. */
  lemma U16Bytes(hi: u8, lo: u8)
    ensures EncodeU16(BigEndian16(hi, lo)) == [hi, lo]
  {
    var n := BigEndian16(hi, lo) as nat;
    assert n / 256 == hi as nat && n % 256 == lo as nat;
  }

  /** The header is accepted exactly when its first two bytes are what
      `serialize_packet` writes for some body shorter than 1024 bytes, and
      an accepted header re-encodes to the three bytes it was read from. */
  lemma HeaderDecision(data: seq<u8>)
    requires |data| >= PACKET_HEADER_SIZE
    ensures var r := DeserializePacketHeader(data);
      && (r.Ok? <==> exists s: u16 :: s < MAX_PACKET_BODY_SIZE && data[..2] == EncodeU16(s))
      && (r.Ok? ==> data[..PACKET_HEADER_SIZE] == EncodeU16(r.value.size) + [r.value.id])
  {
    U16Bytes(data[0], data[1]);
    var n := BigEndian16(data[0], data[1]);
    if n >= MAX_PACKET_BODY_SIZE {
      forall s: u16 | s < MAX_PACKET_BODY_SIZE
        ensures data[..2] != EncodeU16(s)
      {
        var e := EncodeU16(s);
        assert BigEndian16(e[0], e[1]) == s != n;
      }
    } else {
      assert data[..2] == EncodeU16(n);
    }
  }

  /** A packet whose header agrees with its body and passes the size check. */
  predicate WellFormed(p: Packet)
  {
    p.header.size == |p.body| && |p.body| < MAX_PACKET_BODY_SIZE
  }

  /** The bytes a packet occupies on the wire. */
  function Frame(p: Packet): (f: seq<u8>)
    ensures |f| == PACKET_HEADER_SIZE + |p.body|
  {
    EncodeU16(p.header.size) + [p.header.id] + p.body
  }

  /** The packet a receiver reassembles from a body that serialises to `payload`. */
  function Received(body: PacketBody): (p: Packet)
    requires body.encoding.Some? && |body.encoding.value| < MAX_PACKET_BODY_SIZE
    ensures WellFormed(p) && p.header.id == body.id && p.body == body.encoding.value
  {
    Packet(PacketHeader(|body.encoding.value|, body.id), body.encoding.value)
  }

  /** Serialising a body whose encoding is shorter than the maximum produces
      exactly the frame of the packet the receiver will rebuild. */
  lemma SerializeIsFrame(body: PacketBody)
    requires body.encoding.Some? && |body.encoding.value| < MAX_PACKET_BODY_SIZE
    ensures SerializePacket(body) == Some(Frame(Received(body)))
  {
  }

  /** Round trip: with a well-formed packet's frame at the front of the
      buffer, decoding the header yields its size and id, and the body is the
      slice right after the header. */
  lemma FrameRoundTrip(p: Packet, rest: seq<u8>)
    requires WellFormed(p)
    ensures var data := Frame(p) + rest;
      && DeserializePacketHeader(data) == Ok(p.header)
      && data[PACKET_HEADER_SIZE..PACKET_HEADER_SIZE + p.header.size] == p.body
  {
    var data := Frame(p) + rest;
    assert data[..2] == EncodeU16(p.header.size);
    assert data[2] == p.header.id;
    assert data[PACKET_HEADER_SIZE..PACKET_HEADER_SIZE + p.header.size] == Frame(p)[PACKET_HEADER_SIZE..];
  }

  /** A frame is determined by its packet: two well-formed packets with the
      same frame are the same packet. */
  lemma FrameInjective(p: Packet, q: Packet)
    requires WellFormed(p) && WellFormed(q) && Frame(p) == Frame(q)
    ensures p == q
  {
    FrameRoundTrip(p, []);
    FrameRoundTrip(q, []);
  }
}

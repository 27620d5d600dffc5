/** The client engine (src/client.rs): one connection to a server, with an
    intake buffer, the FIFO of packets received, the FIFO of packets to send
    and a disconnect flag. Polling and the socket are replaced by the events
    a tick is given, each with the outcomes of its reads and writes. */
module ClientEngine {
  import opened NetBuffer
  import opened Net
  import opened Wire
  import opened Reassembly

  datatype ClientEvent = Disconnected | ReceivedPacket(size: nat) | SentPacket(size: nat)

  /** One readiness event of the client's socket, with the outcomes of the
      reads and writes it leads to. */
  datatype ClientPoll = ClientPoll(readable: bool, writable: bool, rs: seq<ReadResult>, ws: seq<WriteResult>)

  // ---------------------------------------------------------------------------
  // The client as values
  // ---------------------------------------------------------------------------

  /** The client's state as values: the valid bytes of its buffer, the
      packets received and not yet drained, the FIFO of bodies to send and
      the flag. */
  datatype ClientView = ClientView(pending: seq<u8>, incoming: seq<Packet>, outgoing: seq<PacketBody>, disconnected: bool)

  /** What the client holds between ticks: no more than a buffer's worth of
      bytes, and no complete packet left among them. */
  predicate Settled(v: ClientView)
  {
    |v.pending| <= MAX_BUFFER_SIZE && !FrameAtFront(v.pending)
  }

  /** A `ReceivedPacket` per packet, reporting its size on the wire. */
  function ReceivedEvents(ps: seq<Packet>): (evs: seq<ClientEvent>)
    ensures |evs| == |ps|
    ensures forall i :: 0 <= i < |ps| ==> evs[i] == ReceivedPacket(PACKET_HEADER_SIZE + ps[i].header.size)
  {
    if ps == [] then [] else [ReceivedPacket(PACKET_HEADER_SIZE + ps[0].header.size)] + ReceivedEvents(ps[1..])
  }

  /** A `SentPacket` per packet sent, reporting its size. */
  function SentEvents(sizes: seq<nat>): (evs: seq<ClientEvent>)
    ensures |evs| == |sizes|
    ensures forall i :: 0 <= i < |sizes| ==> evs[i] == SentPacket(sizes[i])
  {
    if sizes == [] then [] else [SentPacket(sizes[0])] + SentEvents(sizes[1..])
  }

  // ---------------------------------------------------------------------------
  // What the events report
  // ---------------------------------------------------------------------------

  /** The sizes the `ReceivedPacket` events report, in order. */
  function ReceivedSizes(evs: seq<ClientEvent>): seq<nat>
  {
    if evs == [] then []
    else (if evs[0].ReceivedPacket? then [evs[0].size] else []) + ReceivedSizes(evs[1..])
  }

  /** The sizes the `SentPacket` events report, in order. */
  function SentSizes(evs: seq<ClientEvent>): seq<nat>
  {
    if evs == [] then []
    else (if evs[0].SentPacket? then [evs[0].size] else []) + SentSizes(evs[1..])
  }

  /** The size on the wire of each packet, header included. */
  function WireSizes(ps: seq<Packet>): seq<nat>
  {
    if ps == [] then [] else [PACKET_HEADER_SIZE + ps[0].header.size] + WireSizes(ps[1..])
  }

  lemma {:induction false} ReportedSizesAppend(a: seq<ClientEvent>, b: seq<ClientEvent>)
    ensures ReceivedSizes(a + b) == ReceivedSizes(a) + ReceivedSizes(b)
    ensures SentSizes(a + b) == SentSizes(a) + SentSizes(b)
    ensures Disconnected in a + b <==> Disconnected in a || Disconnected in b
    decreases |a|
  {
    if a == [] {
      assert a + b == b;
    } else {
      assert (a + b)[0] == a[0] && (a + b)[1..] == a[1..] + b;
      ReportedSizesAppend(a[1..], b);
      var r, t := if a[0].ReceivedPacket? then [a[0].size] else [], if a[0].SentPacket? then [a[0].size] else [];
      assert r + (ReceivedSizes(a[1..]) + ReceivedSizes(b)) == (r + ReceivedSizes(a[1..])) + ReceivedSizes(b);
      assert t + (SentSizes(a[1..]) + SentSizes(b)) == (t + SentSizes(a[1..])) + SentSizes(b);
    }
  }

  lemma {:induction false} WireSizesAppend(a: seq<Packet>, b: seq<Packet>)
    ensures WireSizes(a + b) == WireSizes(a) + WireSizes(b)
    decreases |a|
  {
    if a == [] {
      assert a + b == b;
    } else {
      assert (a + b)[0] == a[0] && (a + b)[1..] == a[1..] + b;
      WireSizesAppend(a[1..], b);
      var w := [PACKET_HEADER_SIZE + a[0].header.size];
      assert w + (WireSizes(a[1..]) + WireSizes(b)) == (w + WireSizes(a[1..])) + WireSizes(b);
    }
  }

  /** The helpers report exactly the packets they are given, and nothing
      else. */
  lemma {:induction false} EventsReport(ps: seq<Packet>, sizes: seq<nat>)
    ensures var r := ReceivedEvents(ps);
      ReceivedSizes(r) == WireSizes(ps) && SentSizes(r) == [] && Disconnected !in r
    ensures var s := SentEvents(sizes);
      ReceivedSizes(s) == [] && SentSizes(s) == sizes && Disconnected !in s
    decreases |ps| + |sizes|
  {
    if ps != [] {
      EventsReport(ps[1..], []);
    }
    if sizes != [] {
      EventsReport([], sizes[1..]);
    }
  }

  /** The read half of a readable event: read until the socket would block,
      closes or fails, reporting `Disconnected` and setting the flag in the
      last two cases; then cut off and queue every complete packet. */
  function ReadPhase(v: ClientView, rs: seq<ReadResult>): (r: (ClientView, seq<ClientEvent>))
    requires |v.pending| <= MAX_BUFFER_SIZE
    ensures |r.0.pending| <= MAX_BUFFER_SIZE
  {
    var i := Intake(v.pending, rs);
    (ClientView(i.rest, v.incoming + i.packets, v.outgoing, v.disconnected || i.closed),
     (if i.closed then [Disconnected] else []) + ReceivedEvents(i.packets))
  }

  /** The write half of a writable event: flush the FIFO; a failed send
      reports `Disconnected`, sets the flag and ends the flush. */
  function WritePhase(v: ClientView, ws: seq<WriteResult>): (r: (ClientView, seq<ClientEvent>))
    ensures r.0.pending == v.pending && r.0.incoming == v.incoming
    ensures !r.0.disconnected ==> r.0.outgoing == [] && Disconnected !in r.1
  {
    var f := Flush(v.outgoing, ws);
    (v.(outgoing := f.rest, disconnected := v.disconnected || f.failed),
     SentEvents(f.sent) + (if f.failed then [Disconnected] else []))
  }

  /** One readiness event: the read half when readable, then the write half
      when writable (a flag set by the first does not stop the second). */
  function Service(v: ClientView, e: ClientPoll): (r: (ClientView, seq<ClientEvent>))
    requires |v.pending| <= MAX_BUFFER_SIZE
    ensures |r.0.pending| <= MAX_BUFFER_SIZE
  {
    var read := if e.readable then ReadPhase(v, e.rs) else (v, []);
    var written := if e.writable then WritePhase(read.0, e.ws) else (read.0, []);
    (written.0, read.1 + written.1)
  }

  /** Every event of a tick in turn; the flag is not looked at in between. */
  function ServiceAll(v: ClientView, events: seq<ClientPoll>): (r: (ClientView, seq<ClientEvent>))
    requires |v.pending| <= MAX_BUFFER_SIZE
    ensures |r.0.pending| <= MAX_BUFFER_SIZE
    decreases |events|
  {
    if events == [] then (v, [])
    else
      var first := Service(v, events[0]);
      var rest := ServiceAll(first.0, events[1..]);
      (rest.0, first.1 + rest.1)
  }

  /** `tick`: nothing at all once the client is disconnected; otherwise
      every event of the poll. */
  function TickSpec(v: ClientView, events: seq<ClientPoll>): (r: (ClientView, seq<ClientEvent>))
    requires |v.pending| <= MAX_BUFFER_SIZE
    ensures |r.0.pending| <= MAX_BUFFER_SIZE
  {
    if v.disconnected then (v, []) else ServiceAll(v, events)
  }

  /** Servicing one more event after a sequence of them. */
  lemma {:induction false} ServiceAllSnoc(v: ClientView, events: seq<ClientPoll>, e: ClientPoll)
    requires |v.pending| <= MAX_BUFFER_SIZE
    ensures var r := ServiceAll(v, events); var last := Service(r.0, e);
      ServiceAll(v, events + [e]) == (last.0, r.1 + last.1)
    decreases |events|
  {
    if events == [] {
      var last := Service(v, e);
      assert [] + [e] == [e] && [e][1..] == [];
      assert ServiceAll(last.0, []) == (last.0, []);
      assert [] + last.1 == last.1 + [];
    } else {
      var first := Service(v, events[0]);
      ServiceAllSnoc(first.0, events[1..], e);
      assert (events + [e])[0] == events[0] && (events + [e])[1..] == events[1..] + [e];
      var r := ServiceAll(first.0, events[1..]);
      var last := Service(r.0, e);
      Associative(first.1, r.1, last.1);
    }
  }

  // ---------------------------------------------------------------------------
  // What one event and one tick promise
  // ---------------------------------------------------------------------------

  /** What changes between `v` and `w`: the flag is only ever set, received
      packets are only appended, the FIFO only loses its front, and a
      settled state stays settled. */
  predicate Progress(v: ClientView, w: ClientView)
  {
    && (v.disconnected ==> w.disconnected)
    && |v.incoming| <= |w.incoming| && w.incoming[..|v.incoming|] == v.incoming
    && |w.outgoing| <= |v.outgoing| && w.outgoing == v.outgoing[|v.outgoing| - |w.outgoing|..]
    && (Settled(v) ==> Settled(w))
  }

  /** What the events of a step from `v` to `w` report: one
      `ReceivedPacket` per packet appended to `incoming`, in order, with its
      size on the wire; and, while the client stays connected, one
      `SentPacket` per body taken off the FIFO that serialised, in order,
      with the size of its frame. */
  predicate Reports(v: ClientView, w: ClientView, evs: seq<ClientEvent>)
    requires Progress(v, w)
  {
    && ReceivedSizes(evs) == WireSizes(w.incoming[|v.incoming|..])
    && (!w.disconnected ==> SentSizes(evs) == Sizes(v.outgoing[..|v.outgoing| - |w.outgoing|]))
  }

  lemma ProgressTransitive(u: ClientView, v: ClientView, w: ClientView)
    requires Progress(u, v) && Progress(v, w)
    ensures Progress(u, w)
  {
    assert w.incoming[..|u.incoming|] == v.incoming[..|u.incoming|];
    assert w.outgoing == u.outgoing[|u.outgoing| - |w.outgoing|..];
  }

  lemma {:induction false} SizesAppend(a: seq<PacketBody>, b: seq<PacketBody>)
    ensures Sizes(a + b) == Sizes(a) + Sizes(b)
    decreases |a|
  {
    if a == [] {
      assert a + b == b;
    } else {
      assert (a + b)[0] == a[0] && (a + b)[1..] == a[1..] + b;
      SizesAppend(a[1..], b);
      var h := match SerializePacket(a[0]) case None => [] case Some(d) => [|d|];
      assert h + (Sizes(a[1..]) + Sizes(b)) == (h + Sizes(a[1..])) + Sizes(b);
    }
  }

  /** Two steps report what the step from the first state to the last does. */
  lemma ReportsTransitive(u: ClientView, v: ClientView, w: ClientView, first: seq<ClientEvent>, last: seq<ClientEvent>)
    requires Progress(u, v) && Progress(v, w) && Reports(u, v, first) && Reports(v, w, last)
    ensures Progress(u, w) && Reports(u, w, first + last)
  {
    ProgressTransitive(u, v, w);
    ReportedSizesAppend(first, last);
    IncomingSplits(u, v, w);
    if !w.disconnected {
      ConsumedSplits(u, v, w);
    }
  }

  lemma IncomingSplits(u: ClientView, v: ClientView, w: ClientView)
    requires Progress(u, v) && Progress(v, w)
    ensures |u.incoming| <= |w.incoming|
    ensures WireSizes(w.incoming[|u.incoming|..]) == WireSizes(v.incoming[|u.incoming|..]) + WireSizes(w.incoming[|v.incoming|..])
  {
    assert w.incoming[|u.incoming|..] == v.incoming[|u.incoming|..] + w.incoming[|v.incoming|..];
    WireSizesAppend(v.incoming[|u.incoming|..], w.incoming[|v.incoming|..]);
  }

  lemma ConsumedSplits(u: ClientView, v: ClientView, w: ClientView)
    requires Progress(u, v) && Progress(v, w)
    ensures |w.outgoing| <= |u.outgoing|
    ensures var m, n := |u.outgoing| - |v.outgoing|, |v.outgoing| - |w.outgoing|;
      Sizes(u.outgoing[..m + n]) == Sizes(u.outgoing[..m]) + Sizes(v.outgoing[..n])
  {
    var m, n := |u.outgoing| - |v.outgoing|, |v.outgoing| - |w.outgoing|;
    assert u.outgoing[..m + n] == u.outgoing[..m] + v.outgoing[..n];
    SizesAppend(u.outgoing[..m], v.outgoing[..n]);
  }

  /** A step from `v` to `w` that reports `evs`: progress and reports as
      above, and the flag ends set exactly when it was set or `Disconnected`
      is reported. */
  predicate Advances(v: ClientView, w: ClientView, evs: seq<ClientEvent>)
  {
    && Progress(v, w) && Reports(v, w, evs)
    && (w.disconnected <==> v.disconnected || Disconnected in evs)
  }

  lemma AdvancesNowhere(v: ClientView)
    ensures Advances(v, v, [])
  {
    assert v.incoming[|v.incoming|..] == [] && v.outgoing[..0] == [];
  }

  lemma AdvancesTransitive(u: ClientView, v: ClientView, w: ClientView, first: seq<ClientEvent>, last: seq<ClientEvent>)
    requires Advances(u, v, first) && Advances(v, w, last)
    ensures Advances(u, w, first + last)
  {
    ReportsTransitive(u, v, w, first, last);
  }

  /** The read half reports `Disconnected` first, and only when the reads
      did not end by blocking (which is when it sets the flag); every other
      event is a `ReceivedPacket` for a packet it appends, in order. */
  lemma ReadPhaseReports(v: ClientView, rs: seq<ReadResult>)
    requires |v.pending| <= MAX_BUFFER_SIZE
    ensures var r := ReadPhase(v, rs);
      && Advances(v, r.0, r.1)
      && r.0.outgoing == v.outgoing && SentSizes(r.1) == []
      && (Disconnected in r.1 <==> Burst(MAX_BUFFER_SIZE - |v.pending|, rs).stop != Blocked)
      && (forall i :: 0 < i < |r.1| ==> r.1[i].ReceivedPacket?)
  {
    var i := Intake(v.pending, rs);
    var r := ReadPhase(v, rs);
    var received := ReceivedEvents(i.packets);
    IntakeSplits(v.pending, rs);
    EventsReport(i.packets, []);
    assert r.0.incoming[|v.incoming|..] == i.packets;
    assert r.0.outgoing[..0] == [];
    if i.closed {
      ReportedSizesAppend([Disconnected], received);
      assert forall k | 0 < k < |r.1| :: r.1[k] == received[k - 1];
    } else {
      assert r.1 == received;
    }
  }

  /** The write half reports one `SentPacket` per body it sends, in FIFO
      order. Unless a send fails it sends every body that serialises and
      empties the FIFO; a failed send ends the events with `Disconnected`,
      after the sizes of the bodies before the one that failed. */
  lemma WritePhaseReports(v: ClientView, ws: seq<WriteResult>)
    ensures var r := WritePhase(v, ws); var n := |v.outgoing| - |r.0.outgoing|;
      && Advances(v, r.0, r.1)
      && r.0.incoming == v.incoming && ReceivedSizes(r.1) == []
      && (Disconnected !in r.1 ==> r.0.outgoing == [] && SentSizes(r.1) == Sizes(v.outgoing))
      && (Disconnected in r.1 ==>
            && 0 < n && SerializePacket(v.outgoing[n - 1]).Some?
            && SentSizes(r.1) == Sizes(v.outgoing[..n - 1])
            && r.1[|r.1| - 1] == Disconnected)
  {
    if Flush(v.outgoing, ws).failed {
      WriteFailedReports(v, ws);
    } else {
      WriteCompleteReports(v, ws);
    }
  }

  lemma WriteFailedReports(v: ClientView, ws: seq<WriteResult>)
    requires Flush(v.outgoing, ws).failed
    ensures var r := WritePhase(v, ws); var n := |v.outgoing| - |r.0.outgoing|;
      && Advances(v, r.0, r.1)
      && r.0.incoming == v.incoming && ReceivedSizes(r.1) == [] && Disconnected in r.1
      && 0 < n && SerializePacket(v.outgoing[n - 1]).Some?
      && SentSizes(r.1) == Sizes(v.outgoing[..n - 1])
      && r.1[|r.1| - 1] == Disconnected
  {
    var f := Flush(v.outgoing, ws);
    var r := WritePhase(v, ws);
    FlushKeepsTail(v.outgoing, ws);
    FlushFailed(v.outgoing, ws);
    EventsReport([], f.sent);
    ReportedSizesAppend(SentEvents(f.sent), [Disconnected]);
    assert r.0.incoming[|v.incoming|..] == [];
    assert r.1[|r.1| - 1] == Disconnected;
  }

  lemma WriteCompleteReports(v: ClientView, ws: seq<WriteResult>)
    requires !Flush(v.outgoing, ws).failed
    ensures var r := WritePhase(v, ws);
      && Advances(v, r.0, r.1)
      && r.0.incoming == v.incoming && ReceivedSizes(r.1) == [] && Disconnected !in r.1
      && r.0.outgoing == [] && SentSizes(r.1) == Sizes(v.outgoing)
  {
    var f := Flush(v.outgoing, ws);
    var r := WritePhase(v, ws);
    FlushInOrder(v.outgoing, ws);
    EventsReport([], f.sent);
    var sent := SentEvents(f.sent);
    assert sent + [] == sent;
    assert r.1 == sent && r.0.outgoing == [];
    assert r.0.incoming[|v.incoming|..] == [];
    assert v.outgoing[..|v.outgoing|] == v.outgoing;
  }

  /** One event: it advances the client as above, so `Disconnected` is
      reported exactly when the read half saw a close or an error or the
      write half a failed send, which is exactly when the event sets the
      flag of a connected client. */
  lemma ServiceProgress(v: ClientView, e: ClientPoll)
    requires |v.pending| <= MAX_BUFFER_SIZE
    ensures var r := Service(v, e); Advances(v, r.0, r.1)
  {
    var read := if e.readable then ReadPhase(v, e.rs) else (v, []);
    var written := if e.writable then WritePhase(read.0, e.ws) else (read.0, []);
    ReadHalf(v, e);
    WriteHalf(read.0, e);
    AdvancesTransitive(v, read.0, written.0, read.1, written.1);
  }

  lemma ReadHalf(v: ClientView, e: ClientPoll)
    requires |v.pending| <= MAX_BUFFER_SIZE
    ensures var read := if e.readable then ReadPhase(v, e.rs) else (v, []); Advances(v, read.0, read.1)
  {
    if e.readable {
      ReadPhaseReports(v, e.rs);
    } else {
      AdvancesNowhere(v);
    }
  }

  lemma WriteHalf(v: ClientView, e: ClientPoll)
    ensures var written := if e.writable then WritePhase(v, e.ws) else (v, []); Advances(v, written.0, written.1)
  {
    if e.writable {
      WritePhaseReports(v, e.ws);
    } else {
      AdvancesNowhere(v);
    }
  }

  /** A tick advances the client as above: a connected client ends it
      disconnected exactly when it reports `Disconnected`. Once
      disconnected, a tick changes nothing and reports nothing. */
  lemma {:induction false} TickProgress(v: ClientView, events: seq<ClientPoll>)
    requires |v.pending| <= MAX_BUFFER_SIZE
    ensures var r := TickSpec(v, events);
      && Advances(v, r.0, r.1)
      && (v.disconnected ==> r == (v, []))
  {
    if !v.disconnected {
      ServiceAllProgress(v, events);
    } else {
      AdvancesNowhere(v);
    }
  }

  lemma {:induction false} ServiceAllProgress(v: ClientView, events: seq<ClientPoll>)
    requires |v.pending| <= MAX_BUFFER_SIZE
    ensures var r := ServiceAll(v, events); Advances(v, r.0, r.1)
    decreases |events|
  {
    if events == [] {
      AdvancesNowhere(v);
    } else {
      var first := Service(v, events[0]);
      var rest := ServiceAll(first.0, events[1..]);
      ServiceProgress(v, events[0]);
      ServiceAllProgress(first.0, events[1..]);
      AdvancesTransitive(v, first.0, rest.0, first.1, rest.1);
    }
  }

  // ---------------------------------------------------------------------------
  // The client
  // ---------------------------------------------------------------------------

  class Client {
    const buffer: NetworkBuffer
    var incoming: seq<Packet>
    var outgoing: seq<PacketBody>
    var isDisconnected: bool

    ghost predicate Valid()
    {
      buffer.Valid()
    }

    /** The client as values. */
    ghost function View(): ClientView
      reads this, buffer, buffer.data
      requires Valid()
    {
      ClientView(buffer.Contents(), incoming, outgoing, isDisconnected)
    }

    /** `Client::connect`, once the stream is connected and registered: an
        empty buffer, empty FIFOs and the flag clear. */
    constructor Connect()
      ensures Valid() && fresh(buffer) && fresh(buffer.data)
      ensures View() == ClientView([], [], [], false) && Settled(View())
    {
      buffer := new NetworkBuffer();
      incoming, outgoing, isDisconnected := [], [], false;
    }

    /** `is_disconnected`: the flag, which a tick only ever sets and which,
        once set, makes every later tick do nothing. */
    function IsDisconnected(): (b: bool)
      reads this
      ensures b <==> isDisconnected
    {
      isDisconnected
    }

    /** `drain_incoming_packets`: every received packet, in arrival order;
        the queue is left empty and nothing else changes. */
    method DrainIncomingPackets() returns (packets: seq<Packet>)
      modifies this
      ensures packets == old(incoming) && incoming == []
      ensures outgoing == old(outgoing) && isDisconnected == old(isDisconnected)
    {
      packets := incoming;
      incoming := [];
    }

    /** `send`: the body joins the back of the outgoing FIFO. */
    method Send(body: PacketBody)
      modifies this
      ensures outgoing == old(outgoing) + [body]
      ensures incoming == old(incoming) && isDisconnected == old(isDisconnected)
    {
      outgoing := outgoing + [body];
    }

    /** One readiness event of the socket, in place. */
    method ServiceEvent(e: ClientPoll) returns (evs: seq<ClientEvent>)
      requires Valid()
      modifies this, buffer, buffer.data
      ensures Valid()
      ensures (View(), evs) == Service(old(View()), e)
    {
      ghost var v := View();
      var readEvents: seq<ClientEvent> := [];
      if e.readable {
        var closed, packets := ReadAndExtract(buffer, e.rs);
        incoming := incoming + packets;
        isDisconnected := isDisconnected || closed;
        readEvents := (if closed then [Disconnected] else []) + ReceivedEvents(packets);
      }
      ghost var read := if e.readable then ReadPhase(v, e.rs) else (v, []);
      assert View() == read.0 && readEvents == read.1;
      var writeEvents: seq<ClientEvent> := [];
      if e.writable {
        var f := FlushQueue(outgoing, e.ws);
        outgoing := f.rest;
        isDisconnected := isDisconnected || f.failed;
        writeEvents := SentEvents(f.sent) + (if f.failed then [Disconnected] else []);
      }
      evs := readEvents + writeEvents;
    }

    /** `tick`: a disconnected client returns at once with no events;
        otherwise every event of the poll is serviced in turn. */
    method Tick(events: seq<ClientPoll>) returns (evs: seq<ClientEvent>)
      requires Valid()
      modifies this, buffer, buffer.data
      ensures Valid()
      ensures (View(), evs) == TickSpec(old(View()), events)
    {
      if isDisconnected {
        return [];
      }
      evs := [];
      var k := 0;
      while k < |events|
        invariant k <= |events| && Valid()
        invariant ServiceAll(old(View()), events[..k]) == (View(), evs)
      {
        ServiceAllSnoc(old(View()), events[..k], events[k]);
        assert events[..k + 1] == events[..k] + [events[k]];
        var e := ServiceEvent(events[k]);
        evs := evs + e;
        k := k + 1;
      }
      assert events[..k] == events;
    }
  }
}

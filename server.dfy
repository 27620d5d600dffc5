/** The server engine (src/server.rs): a table of connections keyed by
    token, each with an intake buffer, an outgoing FIFO and a disconnect
    flag; a monotonic token counter, a connection ceiling, and the FIFO of
    packets received from all connections. Polling and sockets are replaced
    by the events a tick is given: listener readiness with the outcome of
    one `accept`, and socket readiness with the outcomes of its reads and
    writes. */
module ServerEngine {
  import opened NetBuffer
  import opened Net
  import opened Wire
  import opened Reassembly

  /** The token of the listening socket; no connection ever carries it. */
  const LOCAL_TOKEN: Token := 0

  /** A token that mio can report for a connection's socket. */
  type ConnToken = t: Token | t != LOCAL_TOKEN witness 1

  /** A peer's address as `accept` reports it. */
  datatype SocketAddr = SocketAddr(ip: seq<u8>, port: u16)

  datatype ServerEvent =
    | ConnectionRejected(addr: SocketAddr)
    | ClientConnected(token: Token, addr: SocketAddr)
    | ClientDisconnected(token: Token)
    | ReceivedPacket(token: Token, size: nat)
    | SentPacket(token: Token, size: nat)

  /** What one `accept` on the listener returns. */
  datatype AcceptResult = Accepted(addr: SocketAddr) | AcceptFailed

  /** One readiness event of a tick. */
  datatype PollEvent =
    | ListenerReady(accept: AcceptResult)
    | SocketReady(token: ConnToken, readable: bool, writable: bool, rs: seq<ReadResult>, ws: seq<WriteResult>)

  /** `Connection`: its token, the disconnect flag, its intake buffer (an
      object of its own, updated in place) and its outgoing FIFO. The socket
      is replaced by the outcomes each event carries. */
  datatype Connection = Connection(token: Token, isDisconnected: bool, buffer: NetworkBuffer, outgoing: seq<PacketBody>)

  // ---------------------------------------------------------------------------
  // One socket event, on values
  // ---------------------------------------------------------------------------

  /** The state of one connection as values: the valid bytes of its buffer,
      its outgoing FIFO and its flag. */
  datatype ConnView = ConnView(pending: seq<u8>, outgoing: seq<PacketBody>, disconnected: bool)

  /** A connection as values. */
  ghost function View(c: Connection): ConnView
    reads c.buffer, c.buffer.data
    requires c.buffer.Valid()
  {
    ConnView(c.buffer.Contents(), c.outgoing, c.isDisconnected)
  }

  /** Two maps with the same keys and the same value at each key are equal. */
  lemma SameMap(a: map<Token, ConnView>, b: map<Token, ConnView>)
    requires a.Keys == b.Keys
    requires forall u | u in a :: a[u] == b[u]
    ensures a == b
  {
  }

  /** A map that agrees with `before` off `t`, holds `v` at `t` and has no
      other new key is `before` with `t` set to `v`. */
  lemma StoredMap(before: map<Token, ConnView>, now: map<Token, ConnView>, t: Token, v: ConnView)
    requires now.Keys == before.Keys + {t} && now[t] == v
    requires forall u | u in before && u != t :: now[u] == before[u]
    ensures now == before[t := v]
  {
  }

  /** A connection whose buffer and array no call touched keeps its view. */
  twostate lemma ViewUnchanged(c: Connection)
    requires c.buffer.Valid() && unchanged(c.buffer, c.buffer.data)
    ensures View(c) == old(View(c))
  {
  }

  /** The outcome of servicing one socket event: the connection's new state,
      the packets it received, in order, and the events reported. */
  datatype Serviced = Serviced(view: ConnView, packets: seq<Packet>, events: seq<ServerEvent>)

  /** A `ReceivedPacket` per packet, reporting its size on the wire. */
  function ReceivedEvents(t: Token, ps: seq<Packet>): (evs: seq<ServerEvent>)
    ensures |evs| == |ps|
    ensures forall i :: 0 <= i < |ps| ==> evs[i] == ReceivedPacket(t, PACKET_HEADER_SIZE + ps[i].header.size)
  {
    if ps == [] then [] else [ReceivedPacket(t, PACKET_HEADER_SIZE + ps[0].header.size)] + ReceivedEvents(t, ps[1..])
  }

  /** A `SentPacket` per packet sent, reporting its size. */
  function SentEvents(t: Token, sizes: seq<nat>): (evs: seq<ServerEvent>)
    ensures |evs| == |sizes|
    ensures forall i :: 0 <= i < |sizes| ==> evs[i] == SentPacket(t, sizes[i])
  {
    if sizes == [] then [] else [SentPacket(t, sizes[0])] + SentEvents(t, sizes[1..])
  }

  /** The packets of connection `t`, each paired with `t`. */
  function Tagged(t: Token, ps: seq<Packet>): (tagged: seq<(Token, Packet)>)
    ensures |tagged| == |ps|
  {
    if ps == [] then [] else [(t, ps[0])] + Tagged(t, ps[1..])
  }

  /** Tagging keeps the packets and their order, and pairs each with `t`. */
  lemma {:induction false} TaggedPairs(t: Token, ps: seq<Packet>)
    ensures forall i :: 0 <= i < |ps| ==> Tagged(t, ps)[i] == (t, ps[i])
  {
    if ps != [] {
      TaggedPairs(t, ps[1..]);
    }
  }

  /** The read phase of a socket event: read until the socket would block,
      closes or fails (the last two flag the connection), then cut every
      complete packet off the buffer. */
  function ReadPhase(v: ConnView, rs: seq<ReadResult>): (r: (ConnView, seq<Packet>))
    requires |v.pending| <= MAX_BUFFER_SIZE
    ensures |r.0.pending| <= MAX_BUFFER_SIZE
    ensures r.0.outgoing == v.outgoing
    ensures v.disconnected ==> r.0.disconnected
  {
    var i := Intake(v.pending, rs);
    (ConnView(i.rest, v.outgoing, v.disconnected || i.closed), i.packets)
  }

  /** The write phase of a socket event: flush the FIFO; a failed send flags
      the connection, drops the packet it was sending and keeps the rest
      queued. Only the front of the FIFO is consumed. */
  function WritePhase(v: ConnView, ws: seq<WriteResult>): (r: (ConnView, seq<nat>))
    ensures r.0.pending == v.pending
    ensures |r.0.outgoing| <= |v.outgoing| && r.0.outgoing == v.outgoing[|v.outgoing| - |r.0.outgoing|..]
    ensures r.0.disconnected <==> v.disconnected || Flush(v.outgoing, ws).failed
    ensures !r.0.disconnected ==> r.0.outgoing == []
  {
    var f := Flush(v.outgoing, ws);
    FlushKeepsTail(v.outgoing, ws);
    (ConnView(v.pending, f.rest, v.disconnected || f.failed), f.sent)
  }

  /** One socket event for connection `t`: the read phase when readable, then
      the write phase when writable, and the events they report. */
  function Service(t: Token, v: ConnView, readable: bool, writable: bool, rs: seq<ReadResult>, ws: seq<WriteResult>): (r: Serviced)
    requires |v.pending| <= MAX_BUFFER_SIZE
    ensures |r.view.pending| <= MAX_BUFFER_SIZE
    ensures v.disconnected ==> r.view.disconnected
    ensures |r.view.outgoing| <= |v.outgoing| && r.view.outgoing == v.outgoing[|v.outgoing| - |r.view.outgoing|..]
    ensures !readable ==> r.packets == [] && r.view.pending == v.pending
    ensures !writable ==> r.view.outgoing == v.outgoing && |r.events| == |r.packets|
    ensures |r.packets| <= |r.events|
    ensures forall i :: 0 <= i < |r.events| ==>
      if i < |r.packets| then r.events[i] == ReceivedPacket(t, PACKET_HEADER_SIZE + r.packets[i].header.size)
      else r.events[i].SentPacket? && r.events[i].token == t
  {
    var read := if readable then ReadPhase(v, rs) else (v, []);
    var written := if writable then WritePhase(read.0, ws) else (read.0, []);
    Serviced(written.0, read.1, ReceivedEvents(t, read.1) + SentEvents(t, written.1))
  }

  /** The read phase on one connection: its buffer is updated in place, and
      the returned entry differs from `c` in its flag only. */
  method ReadConnection(c: Connection, rs: seq<ReadResult>) returns (updated: Connection, packets: seq<Packet>)
    requires c.buffer.Valid()
    modifies c.buffer, c.buffer.data
    ensures c.buffer.Valid()
    ensures updated.token == c.token && updated.buffer == c.buffer
    ensures (View(updated), packets) == ReadPhase(old(View(c)), rs)
  {
    var closed;
    closed, packets := ReadAndExtract(c.buffer, rs);
    updated := c.(isDisconnected := c.isDisconnected || closed);
  }

  /** The table's own invariant: no more entries than the ceiling; every
      entry keyed by its own token, one the counter has handed out and never
      the listener's; no two entries sharing a buffer or a buffer's array. */
  ghost predicate WellKeyed(conns: map<Token, Connection>, limit: nat, counter: nat)
  {
    && |conns| <= limit
    && (forall t | t in conns :: conns[t].token == t && LOCAL_TOKEN < t <= counter)
    && (forall t, u | t in conns && u in conns && t != u ::
          conns[t].buffer != conns[u].buffer && conns[t].buffer.data != conns[u].buffer.data)
  }

  /** The routing of `send_boxed` over the table: a single token is looked
      up, every other selector filters a pass over all entries; the body is
      queued at the back of each selected connection's FIFO. */
  method Enqueued(table: map<Token, Connection>, recipient: PacketRecipient, body: PacketBody)
    returns (after: map<Token, Connection>)
    ensures after.Keys == table.Keys
    ensures forall t | t in table ::
      after[t] == if Selects(recipient, t)
        then table[t].(outgoing := table[t].outgoing + [body])
        else table[t]
  {
    if recipient.Single? {
      var t := recipient.token;
      if t in table {
        after := table[t := table[t].(outgoing := table[t].outgoing + [body])];
      } else {
        after := table;
      }
      return;
    }
    after := table;
    var todo := table.Keys;
    while todo != {}
      invariant todo <= table.Keys && after.Keys == table.Keys
      invariant forall t | t in table ::
        after[t] == if t !in todo && Selects(recipient, t)
          then table[t].(outgoing := table[t].outgoing + [body])
          else table[t]
      decreases |todo|
    {
      var t :| t in todo;
      if Selects(recipient, t) {
        after := after[t := after[t].(outgoing := after[t].outgoing + [body])];
      }
      todo := todo - {t};
    }
  }

  /** Changing entries' flags or FIFOs keeps the table well keyed. */
  lemma SameShapeKeepsKeyed(conns: map<Token, Connection>, after: map<Token, Connection>, limit: nat, counter: nat)
    requires WellKeyed(conns, limit, counter) && after.Keys == conns.Keys
    requires forall t | t in conns :: after[t].token == conns[t].token && after[t].buffer == conns[t].buffer
    ensures WellKeyed(after, limit, counter)
  {
    assert |after| == |after.Keys|;
  }

  lemma UpdateTwice<V>(m: map<Token, V>, t: Token, a: V, b: V)
    ensures m[t := a][t := b] == m[t := b]
  {
  }

  /** Storing an entry's own value back changes nothing. */
  lemma UpdateSame<V>(m: map<Token, V>, t: Token)
    requires t in m
    ensures m[t := m[t]] == m
  {
  }

  /** Changing an entry's flag or FIFO keeps the table well keyed. */
  lemma UpdateKeepsKeyed(conns: map<Token, Connection>, limit: nat, counter: nat, t: Token, c: Connection)
    requires WellKeyed(conns, limit, counter) && t in conns
    requires c.token == conns[t].token && c.buffer == conns[t].buffer
    ensures WellKeyed(conns[t := c], limit, counter)
  {
    assert conns[t := c].Keys == conns.Keys;
    assert |conns[t := c]| == |conns|;
  }

  /** Storing a new connection under the next token, below the ceiling and
      with a buffer no entry uses, keeps the table well keyed under the
      advanced counter; the token was not in use. */
  lemma InsertKeepsKeyed(conns: map<Token, Connection>, limit: nat, counter: nat, c: Connection)
    requires WellKeyed(conns, limit, counter) && |conns| < limit
    requires c.token == counter + 1
    requires forall t | t in conns :: conns[t].buffer != c.buffer && conns[t].buffer.data != c.buffer.data
    ensures c.token !in conns
    ensures WellKeyed(conns[c.token := c], limit, counter + 1)
  {
    var after := conns[c.token := c];
    assert after.Keys == conns.Keys + {c.token};
    assert |after| == |conns| + 1;
  }

  /** The connections that survive the end of a tick: the unflagged ones. */
  function Kept(conns: map<Token, Connection>): (kept: map<Token, Connection>)
    ensures kept.Keys <= conns.Keys
    ensures forall t | t in conns :: t in kept <==> !conns[t].isDisconnected
  {
    map t | t in conns && !conns[t].isDisconnected :: conns[t]
  }

  /** The connections a tick's end removes: the flagged ones. */
  function Dropped(conns: map<Token, Connection>): (dropped: set<Token>)
    ensures dropped <= conns.Keys
    ensures forall t | t in conns :: t in dropped <==> conns[t].isDisconnected
  {
    set t | t in conns && conns[t].isDisconnected
  }

  /** The kept entries are exactly the ones not dropped. */
  lemma KeptKeys(conns: map<Token, Connection>)
    ensures Kept(conns).Keys == conns.Keys - Dropped(conns)
  {
  }

  /** Removing entries keeps the table well keyed. */
  lemma KeptKeepsKeyed(conns: map<Token, Connection>, limit: nat, counter: nat)
    requires WellKeyed(conns, limit, counter)
    ensures WellKeyed(Kept(conns), limit, counter)
  {
    var kept := Kept(conns);
    SubsetFewer(kept.Keys, conns.Keys);
    assert |kept| == |kept.Keys| && |conns| == |conns.Keys|;
  }

  lemma {:induction false} SubsetFewer(a: set<Token>, b: set<Token>)
    requires a <= b
    ensures |a| <= |b|
    decreases b
  {
    if a != {} {
      var x :| x in a;
      SubsetFewer(a - {x}, b - {x});
    }
  }

  /** The scan of `tick`'s end: one `ClientDisconnected` per token of
      `flagged`, each exactly once, in an unspecified order. */
  method DisconnectEvents(flagged: set<Token>) returns (evs: seq<ServerEvent>)
    ensures ListsOnce(evs, flagged)
  {
    var todo := flagged;
    evs := [];
    while todo != {}
      invariant todo <= flagged
      invariant forall i :: 0 <= i < |evs| ==> evs[i].ClientDisconnected? && evs[i].token in flagged - todo
      invariant forall t | t in flagged - todo :: ClientDisconnected(t) in evs
      invariant forall i, j :: 0 <= i < j < |evs| ==> evs[i] != evs[j]
      decreases |todo|
    {
      var t :| t in todo;
      ghost var before := evs;
      evs := evs + [ClientDisconnected(t)];
      assert evs[|before|] == ClientDisconnected(t);
      assert forall i :: 0 <= i < |before| ==> evs[i] == before[i];
      todo := todo - {t};
    }
    assert flagged - todo == flagged;
  }

  // ---------------------------------------------------------------------------
  // A tick as values
  // ---------------------------------------------------------------------------

  /** The server's state as values: each connection's view by token, the
      ceiling, the token counter and the received packets. */
  datatype ServerView = ServerView(conns: map<Token, ConnView>, limit: nat, counter: nat, incoming: seq<(Token, Packet)>)

  /** No connection holds more than a buffer's worth of bytes. */
  predicate Bounded(s: ServerView)
  {
    forall t | t in s.conns :: |s.conns[t].pending| <= MAX_BUFFER_SIZE
  }

  /** The table's shape: within the ceiling, and every token one the counter
      has handed out, never the listener's. */
  predicate Keyed(s: ServerView)
  {
    |s.conns| <= s.limit && forall t | t in s.conns :: LOCAL_TOKEN < t <= s.counter
  }

  /** The outcome of readiness events: the new state, the events reported,
      and whether a socket event named a token with no connection, where
      the source panics. */
  datatype Stepped = Stepped(view: ServerView, events: seq<ServerEvent>, panicked: bool)

  /** One `accept`: nothing on a failure, a rejection at the ceiling,
      otherwise an empty connection under the advanced counter. */
  function AcceptStep(s: ServerView, a: AcceptResult): (r: Stepped)
    requires Bounded(s)
    ensures Bounded(r.view) && !r.panicked
  {
    match a
    case AcceptFailed => Stepped(s, [], false)
    case Accepted(addr) =>
      if |s.conns| >= s.limit then Stepped(s, [ConnectionRejected(addr)], false)
      else
        var t := s.counter + 1;
        Stepped(s.(conns := s.conns[t := ConnView([], [], false)], counter := t), [ClientConnected(t, addr)], false)
  }

  /** Below the ceiling, the accept step stores an empty connection under
      the next token. */
  lemma AcceptStepAdmits(s: ServerView, addr: SocketAddr)
    requires Bounded(s) && |s.conns| < s.limit
    ensures var t := s.counter + 1;
      AcceptStep(s, Accepted(addr)) == Stepped(s.(conns := s.conns[t := ConnView([], [], false)], counter := t), [ClientConnected(t, addr)], false)
  {
  }

  /** One readiness event of a tick. */
  function Step(s: ServerView, e: PollEvent): (r: Stepped)
    requires Bounded(s)
    ensures Bounded(r.view)
    ensures r.panicked <==> e.SocketReady? && e.token !in s.conns
    ensures r.panicked ==> r.view == s && r.events == []
  {
    match e
    case ListenerReady(a) => AcceptStep(s, a)
    case SocketReady(t, readable, writable, rs, ws) =>
      if t !in s.conns then Stepped(s, [], true)
      else
        var r := Service(t, s.conns[t], readable, writable, rs, ws);
        Stepped(s.(conns := s.conns[t := r.view], incoming := s.incoming + Tagged(t, r.packets)), r.events, false)
  }

  /** A ready socket that has a connection is serviced, and only its entry
      and the incoming queue change. */
  lemma ServiceStepIs(s: ServerView, t: ConnToken, readable: bool, writable: bool, rs: seq<ReadResult>, ws: seq<WriteResult>)
    requires Bounded(s) && t in s.conns
    ensures var r := Service(t, s.conns[t], readable, writable, rs, ws);
      Step(s, SocketReady(t, readable, writable, rs, ws))
        == Stepped(s.(conns := s.conns[t := r.view], incoming := s.incoming + Tagged(t, r.packets)), r.events, false)
  {
  }

  /** The events of a tick in turn, up to the first one that panics. */
  function Steps(s: ServerView, events: seq<PollEvent>): (r: Stepped)
    requires Bounded(s)
    ensures Bounded(r.view)
    decreases |events|
  {
    if events == [] then Stepped(s, [], false)
    else
      var first := Step(s, events[0]);
      if first.panicked then first
      else
        var rest := Steps(first.view, events[1..]);
        Stepped(rest.view, first.events + rest.events, rest.panicked)
  }

  /** The tokens of the flagged connections. */
  function Flagged(s: ServerView): (flagged: set<Token>)
    ensures flagged <= s.conns.Keys
  {
    set t | t in s.conns && s.conns[t].disconnected
  }

  /** The end of a tick: exactly the flagged connections go. */
  function Reaped(s: ServerView): (r: ServerView)
    ensures r.conns.Keys == s.conns.Keys - Flagged(s)
    ensures forall t | t in r.conns :: r.conns[t] == s.conns[t] && !r.conns[t].disconnected
    ensures r.limit == s.limit && r.counter == s.counter && r.incoming == s.incoming
  {
    s.(conns := map t | t in s.conns && !s.conns[t].disconnected :: s.conns[t])
  }

  /** `evs` reports each token of `flagged` once as `ClientDisconnected`, in
      some order, and reports nothing else. */
  predicate ListsOnce(evs: seq<ServerEvent>, flagged: set<Token>)
  {
    && (forall i :: 0 <= i < |evs| ==> evs[i].ClientDisconnected? && evs[i].token in flagged)
    && (forall t | t in flagged :: ClientDisconnected(t) in evs)
    && (forall i, j :: 0 <= i < j < |evs| ==> evs[i] != evs[j])
  }

  /** Handling one more event after a sequence of them. */
  lemma {:induction false} StepsSnoc(s: ServerView, events: seq<PollEvent>, e: PollEvent)
    requires Bounded(s)
    ensures var r := Steps(s, events);
      Steps(s, events + [e]) ==
        if r.panicked then r
        else var last := Step(r.view, e); Stepped(last.view, r.events + last.events, last.panicked)
    decreases |events|
  {
    if events == [] {
      assert [] + [e] == [e] && [e][1..] == [];
      var last := Step(s, e);
      if !last.panicked {
        assert Steps(last.view, []) == Stepped(last.view, [], false);
        assert last.events + [] == [] + last.events;
      }
    } else {
      assert (events + [e])[0] == events[0] && (events + [e])[1..] == events[1..] + [e];
      var first := Step(s, events[0]);
      if !first.panicked {
        StepsSnoc(first.view, events[1..], e);
        var r := Steps(first.view, events[1..]);
        if !r.panicked {
          var last := Step(r.view, e);
          Associative(first.events, r.events, last.events);
        }
      }
    }
  }

  /** Once some event panics, the events after it are never looked at. */
  lemma {:induction false} StepsStopAtPanic(s: ServerView, events: seq<PollEvent>, n: nat)
    requires Bounded(s) && n <= |events| && Steps(s, events[..n]).panicked
    ensures Steps(s, events) == Steps(s, events[..n])
    decreases n
  {
    assert events[..n][0] == events[0];
    var first := Step(s, events[0]);
    if !first.panicked {
      assert events[..n][1..] == events[1..][..n - 1];
      StepsStopAtPanic(first.view, events[1..], n - 1);
    }
  }

  /** What a run of events changes: the ceiling never; the counter only
      grows; no connection goes before the reaping and no flag is cleared;
      every new connection carries a token handed out during the run; each
      FIFO only loses its front; and received packets are only appended. */
  predicate Advanced(s: ServerView, w: ServerView)
  {
    && w.limit == s.limit && s.counter <= w.counter
    && s.conns.Keys <= w.conns.Keys
    && (forall t | t in w.conns && t !in s.conns :: s.counter < t <= w.counter)
    && (forall t | t in s.conns :: s.conns[t].disconnected ==> w.conns[t].disconnected)
    && (forall t | t in s.conns ::
          |w.conns[t].outgoing| <= |s.conns[t].outgoing|
          && w.conns[t].outgoing == s.conns[t].outgoing[|s.conns[t].outgoing| - |w.conns[t].outgoing|..])
    && |s.incoming| <= |w.incoming| && w.incoming[..|s.incoming|] == s.incoming
  }

  /** No event of the loop reports a disconnection; only the reaping does. */
  predicate NoDisconnects(evs: seq<ServerEvent>)
  {
    forall i :: 0 <= i < |evs| ==> !evs[i].ClientDisconnected?
  }

  lemma StepAdvances(s: ServerView, e: PollEvent)
    requires Bounded(s) && Keyed(s)
    ensures Advanced(s, Step(s, e).view) && Keyed(Step(s, e).view) && NoDisconnects(Step(s, e).events)
  {
    match e
    case ListenerReady(a) =>
      AcceptAdvances(s, a);
    case SocketReady(t, readable, writable, rs, ws) =>
      if t in s.conns {
        var r := Service(t, s.conns[t], readable, writable, rs, ws);
        var w := s.(conns := s.conns[t := r.view], incoming := s.incoming + Tagged(t, r.packets));
        ReplaceAdvances(s, t, w, Tagged(t, r.packets));
        ServiceReportsNoDisconnects(t, s.conns[t], readable, writable, rs, ws);
      }
  }

  lemma AcceptAdvances(s: ServerView, a: AcceptResult)
    requires Bounded(s) && Keyed(s)
    ensures var r := AcceptStep(s, a); Advanced(s, r.view) && Keyed(r.view) && NoDisconnects(r.events)
  {
    if a.Accepted? && |s.conns| < s.limit {
      var t := s.counter + 1;
      var w := AcceptStep(s, a).view;
      assert t !in s.conns;
      assert w.conns.Keys == s.conns.Keys + {t};
      assert |w.conns| == |w.conns.Keys| == |s.conns.Keys| + 1;
    }
  }

  /** Servicing a socket reports packets received and sent, never a
      disconnection. */
  lemma ServiceReportsNoDisconnects(t: Token, v: ConnView, readable: bool, writable: bool, rs: seq<ReadResult>, ws: seq<WriteResult>)
    requires |v.pending| <= MAX_BUFFER_SIZE
    ensures NoDisconnects(Service(t, v, readable, writable, rs, ws).events)
  {
    var r := Service(t, v, readable, writable, rs, ws);
    forall i | 0 <= i < |r.events|
      ensures !r.events[i].ClientDisconnected?
    {
      if i < |r.packets| {
        assert r.events[i].ReceivedPacket?;
      }
    }
  }

  /** Replacing the view of one connection by one that keeps its flag and
      loses only the front of its FIFO, with received packets only
      appended, advances the state and keeps the table well keyed. */
  lemma ReplaceAdvances(s: ServerView, t: Token, w: ServerView, added: seq<(Token, Packet)>)
    requires Keyed(s) && t in s.conns && t in w.conns && w.conns == s.conns[t := w.conns[t]]
    requires w.limit == s.limit && w.counter == s.counter
    requires s.conns[t].disconnected ==> w.conns[t].disconnected
    requires |w.conns[t].outgoing| <= |s.conns[t].outgoing|
    requires w.conns[t].outgoing == s.conns[t].outgoing[|s.conns[t].outgoing| - |w.conns[t].outgoing|..]
    requires w.incoming == s.incoming + added
    ensures Advanced(s, w) && Keyed(w)
  {
    ReplaceKeyed(s, t, w);
    assert w.incoming[..|s.incoming|] == s.incoming;
  }

  /** Replacing the view of one connection keeps the table well keyed. */
  lemma ReplaceKeyed(s: ServerView, t: Token, w: ServerView)
    requires Keyed(s) && t in s.conns && t in w.conns && w.conns == s.conns[t := w.conns[t]]
    requires w.limit == s.limit && w.counter == s.counter
    ensures Keyed(w) && w.conns.Keys == s.conns.Keys
  {
    assert w.conns.Keys == s.conns.Keys;
    assert |w.conns| == |w.conns.Keys| == |s.conns.Keys| == |s.conns|;
  }

  lemma AdvancedTransitive(u: ServerView, v: ServerView, w: ServerView)
    requires Advanced(u, v) && Advanced(v, w)
    ensures Advanced(u, w)
  {
    assert w.incoming[..|u.incoming|] == v.incoming[..|u.incoming|];
    forall t | t in u.conns
      ensures w.conns[t].outgoing == u.conns[t].outgoing[|u.conns[t].outgoing| - |w.conns[t].outgoing|..]
    {
      var a, b, c := u.conns[t].outgoing, v.conns[t].outgoing, w.conns[t].outgoing;
      assert c == b[|b| - |c|..] && b == a[|a| - |b|..];
    }
  }

  /** A run of events on a well-keyed table advances the state as above,
      keeps the table well keyed and reports no disconnection; it panics
      only on a socket event for a token with no connection, one the table
      did not hold when the run began. */
  lemma {:induction false} StepsAdvance(s: ServerView, events: seq<PollEvent>)
    requires Bounded(s) && Keyed(s)
    ensures var r := Steps(s, events);
      && Advanced(s, r.view) && Keyed(r.view) && NoDisconnects(r.events)
      && (r.panicked ==> exists i :: 0 <= i < |events| && events[i].SocketReady? && events[i].token !in s.conns)
    decreases |events|
  {
    if events != [] {
      var first := Step(s, events[0]);
      StepAdvances(s, events[0]);
      if !first.panicked {
        var rest := Steps(first.view, events[1..]);
        StepsAdvance(first.view, events[1..]);
        AdvancedTransitive(s, first.view, rest.view);
        if rest.panicked {
          var i :| 0 <= i < |events[1..]| && events[1..][i].SocketReady? && events[1..][i].token !in first.view.conns;
          assert events[i + 1] == events[1..][i];
        }
      }
    }
  }

  /** A whole tick that does not panic: no flagged connection survives it;
      a connection of the table before the tick survives exactly when it is
      not reported disconnected; every disconnection reported names a
      connection no longer present, and each is reported once. */
  lemma TickReaps(s: ServerView, events: seq<PollEvent>, gone: seq<ServerEvent>)
    requires Bounded(s) && Keyed(s)
    requires var r := Steps(s, events); !r.panicked && ListsOnce(gone, Flagged(r.view))
    ensures var r := Steps(s, events); var after, evs := Reaped(r.view), r.events + gone;
      && (forall t | t in after.conns :: !after.conns[t].disconnected)
      && (forall t | t in s.conns :: t in after.conns <==> ClientDisconnected(t) !in evs)
      && (forall i :: 0 <= i < |evs| && evs[i].ClientDisconnected? ==> evs[i].token !in after.conns)
      && (forall i, j :: 0 <= i < j < |evs| && evs[i].ClientDisconnected? ==> evs[i] != evs[j])
  {
    var r := Steps(s, events);
    StepsAdvance(s, events);
    ReapReports(s, r.view, r.events, gone);
  }

  lemma ReapReports(s: ServerView, w: ServerView, loop: seq<ServerEvent>, gone: seq<ServerEvent>)
    requires Advanced(s, w) && NoDisconnects(loop) && ListsOnce(gone, Flagged(w))
    ensures var after, evs := Reaped(w), loop + gone;
      && (forall t | t in after.conns :: !after.conns[t].disconnected)
      && (forall t | t in s.conns :: t in after.conns <==> ClientDisconnected(t) !in evs)
      && (forall i :: 0 <= i < |evs| && evs[i].ClientDisconnected? ==> evs[i].token !in after.conns)
      && (forall i, j :: 0 <= i < j < |evs| && evs[i].ClientDisconnected? ==> evs[i] != evs[j])
  {
    var after, evs := Reaped(w), loop + gone;
    forall i | 0 <= i < |evs| && evs[i].ClientDisconnected?
      ensures i >= |loop| && evs[i] == gone[i - |loop|]
    {
    }
    forall t | t in s.conns
      ensures t in after.conns <==> ClientDisconnected(t) !in evs
    {
      if ClientDisconnected(t) in evs {
        var i :| 0 <= i < |evs| && evs[i] == ClientDisconnected(t);
        assert gone[i - |loop|] == ClientDisconnected(t);
      }
      if t !in after.conns {
        assert t in Flagged(w);
        var j :| 0 <= j < |gone| && gone[j] == ClientDisconnected(t);
        assert evs[|loop| + j] == ClientDisconnected(t);
      }
    }
  }

  // ---------------------------------------------------------------------------
  // The server's read loop as written
  // ---------------------------------------------------------------------------

  /** The chunks a read loop gets when every read is offered the same slice
      of `room` bytes, and why it stopped. */
  datatype SliceBurst = SliceBurst(chunks: seq<seq<u8>>, stop: ReadStop)

  /** The server's read loop takes `data[offset..]` once, before the loop
      (src/server.rs:214), and passes that same slice to every read. */
  function FixedSliceBurst(room: nat, rs: seq<ReadResult>): (b: SliceBurst)
    ensures forall i :: 0 <= i < |b.chunks| ==> 0 < |b.chunks[i]| <= room
    decreases Weight(rs)
  {
    match SocketRead(room, rs)
    case Stopped(s) => SliceBurst([], s)
    case Got(bytes, rest) =>
      var b := FixedSliceBurst(room, rest);
      SliceBurst([bytes] + b.chunks, b.stop)
  }

  /** The array after each chunk in turn is copied to the start of the slice
      at `start`. */
  function Overlay(data: seq<u8>, start: nat, chunks: seq<seq<u8>>): (r: seq<u8>)
    requires start <= |data| && forall i :: 0 <= i < |chunks| ==> |chunks[i]| <= |data| - start
    ensures |r| == |data|
    decreases |chunks|
  {
    if chunks == [] then data
    else Overlay(data[..start] + chunks[0] + data[start + |chunks[0]|..], start, chunks[1..])
  }

  function TotalLength(chunks: seq<seq<u8>>): nat
  {
    if chunks == [] then 0 else |chunks[0]| + TotalLength(chunks[1..])
  }

  /** The server's read loop as written (src/server.rs:214-237), on the
      buffer's array and offset as values: every read lands at the old
      offset, while the offset grows by every count read. */
  method ReadLoopAsWritten(data: seq<u8>, offset: nat, rs: seq<ReadResult>) returns (after: seq<u8>, end: nat, stop: ReadStop)
    requires |data| == MAX_BUFFER_SIZE && offset <= MAX_BUFFER_SIZE
    ensures var b := FixedSliceBurst(MAX_BUFFER_SIZE - offset, rs);
      && after == Overlay(data, offset, b.chunks)
      && end == offset + TotalLength(b.chunks)
      && stop == b.stop
  {
    var room := MAX_BUFFER_SIZE - offset;
    var pending := rs;
    after, end := data, offset;
    while true
      invariant |after| == MAX_BUFFER_SIZE
      invariant var whole, tail := FixedSliceBurst(room, rs), FixedSliceBurst(room, pending);
        && Overlay(data, offset, whole.chunks) == Overlay(after, offset, tail.chunks)
        && offset + TotalLength(whole.chunks) == end + TotalLength(tail.chunks)
        && whole.stop == tail.stop
      decreases Weight(pending)
    {
      var step := SocketRead(room, pending);
      match step
      case Stopped(s) =>
        return after, end, s;
      case Got(bytes, rest) =>
        ghost var later := FixedSliceBurst(room, rest).chunks;
        assert ([bytes] + later)[0] == bytes && ([bytes] + later)[1..] == later;
        after := after[..offset] + bytes + after[offset + |bytes|..];
        end := end + |bytes|;
        pending := rest;
    }
  }

  /** Two one-byte reads into an empty buffer: the second overwrites the
      first, so the two valid bytes read [2, 0] where the stream was [1, 2],
      which the re-sliced loop delivers. */
  lemma FixedSliceOverwrites()
    ensures var rs := [Data([1]), Data([2])];
      var b := FixedSliceBurst(MAX_BUFFER_SIZE, rs);
      && b == SliceBurst([[1], [2]], Blocked)
      && Overlay(Zeros(MAX_BUFFER_SIZE), 0, b.chunks)[..2] == [2, 0]
      && Burst(MAX_BUFFER_SIZE, rs).bytes == [1, 2]
  {
    var rs: seq<ReadResult> := [Data([1]), Data([2])];
    assert rs[1..] == [Data([2])] && rs[1..][1..] == [];
    assert SocketRead(MAX_BUFFER_SIZE, rs) == Got([1], [Data([2])]);
    assert SocketRead(MAX_BUFFER_SIZE - 1, [Data([2])]) == Got([2], []);
    assert SocketRead(MAX_BUFFER_SIZE, [Data([2])]) == Got([2], []);
    assert FixedSliceBurst(MAX_BUFFER_SIZE, []) == SliceBurst([], Blocked);
    assert FixedSliceBurst(MAX_BUFFER_SIZE, [Data([2])]) == SliceBurst([[2]], Blocked);
    var z := Zeros(MAX_BUFFER_SIZE);
    var once := z[..0] + [1] + z[1..];
    var twice := once[..0] + [2] + once[1..];
    assert [[1], [2]][1..] == [[2]] && [[2]][1..] == [];
    assert Overlay(z, 0, [[1], [2]]) == Overlay(once, 0, [[2]]) == Overlay(twice, 0, []);
    assert twice[..2] == [2, 0];
  }

  /** With one byte of room left, two one-byte reads push the offset past
      the end of the array. */
  lemma FixedSliceOverruns()
    ensures var b := FixedSliceBurst(1, [Data([7]), Data([7])]);
      (MAX_BUFFER_SIZE - 1) + TotalLength(b.chunks) == MAX_BUFFER_SIZE + 1
  {
    var rs: seq<ReadResult> := [Data([7]), Data([7])];
    assert rs[1..] == [Data([7])] && rs[1..][1..] == [];
    assert FixedSliceBurst(1, []) == SliceBurst([], Blocked);
    assert FixedSliceBurst(1, [Data([7])]) == SliceBurst([[7]], Blocked);
    assert FixedSliceBurst(1, rs) == SliceBurst([[7], [7]], Blocked);
    assert [[7], [7]][1..] == [[7]] && [[7]][1..] == [];
  }

  // ---------------------------------------------------------------------------
  // The server
  // ---------------------------------------------------------------------------

  class Server {
    var connections: map<Token, Connection>
    var connectionLimit: nat
    var tokenCounter: nat
    var incoming: seq<(Token, Packet)>

    ghost function Buffers(): set<NetworkBuffer>
      reads this
    {
      set t | t in connections :: connections[t].buffer
    }

    ghost function Arrays(): set<array<u8>>
      reads this
    {
      set t | t in connections :: connections[t].buffer.data
    }

    /** The table never exceeds the ceiling; every entry is keyed by its own
        token, a token handed out by the counter and never the listener's;
        every buffer is valid and belongs to one connection only. */
    ghost predicate Valid()
      reads this
    {
      && WellKeyed(connections, connectionLimit, tokenCounter)
      && (forall t | t in connections :: connections[t].buffer.Valid())
    }

    /** Each connection as values, by token. */
    ghost function Views(): (m: map<Token, ConnView>)
      reads this, Buffers(), Arrays()
      requires Valid()
      ensures m.Keys == connections.Keys && |m| == |connections|
      ensures forall t | t in connections :: m[t] == View(connections[t])
    {
      var m := map t | t in connections :: View(connections[t]);
      assert m.Keys == connections.Keys;
      assert |m| == |m.Keys| == |connections.Keys| == |connections|;
      m
    }

    /** The server as values. */
    ghost function State(): (s: ServerView)
      reads this, Buffers(), Arrays()
      requires Valid()
      ensures Bounded(s) && Keyed(s)
    {
      ServerView(Views(), connectionLimit, tokenCounter, incoming)
    }

    /** Storing an entry under `t`, with every other buffer untouched,
        changes the views at `t` only. */
    twostate lemma StoredViews(t: Token)
      requires old(Valid()) && Valid()
      requires t in connections && connections == old(connections)[t := connections[t]]
      requires forall u | u in old(connections) && u != t ::
        unchanged(old(connections)[u].buffer, old(connections)[u].buffer.data)
      ensures Views() == old(Views())[t := View(connections[t])]
    {
      var before, now := old(Views()), Views();
      assert now.Keys == connections.Keys == before.Keys + {t};
      forall u | u in before && u != t
        ensures now[u] == before[u]
      {
        ViewUnchanged(old(connections)[u]);
      }
      StoredMap(before, now, t, View(connections[t]));
    }

    /** An entry replaced by one with the same token and buffer, every other
        buffer untouched: the table is still well formed, and only the view
        at `t` changed. */
    twostate lemma Replaced(t: Token)
      requires old(Valid()) && t in old(connections)
      requires t in connections && connections == old(connections)[t := connections[t]]
      requires connections[t].token == t && connections[t].buffer == old(connections)[t].buffer
      requires connections[t].buffer.Valid()
      requires tokenCounter == old(tokenCounter) && connectionLimit == old(connectionLimit)
      requires forall u | u in old(connections) && u != t ::
        unchanged(old(connections)[u].buffer, old(connections)[u].buffer.data)
      ensures Valid()
      ensures Views() == old(Views())[t := View(connections[t])]
    {
      UpdateKeepsKeyed(old(connections), connectionLimit, tokenCounter, t, connections[t]);
      forall u | u in connections
        ensures connections[u].buffer.Valid()
      {
        if u != t {
          assert connections[u] == old(connections)[u];
        }
      }
      StoredViews(t);
    }

    /** The same, for the whole server: the table changed at `t` only, and
        the limit and the queue of received packets did not change. */
    twostate lemma StoredState(t: Token)
      requires old(Valid()) && Valid()
      requires t in connections && connections == old(connections)[t := connections[t]]
      requires forall u | u in old(connections) && u != t ::
        unchanged(old(connections)[u].buffer, old(connections)[u].buffer.data)
      requires connectionLimit == old(connectionLimit) && incoming == old(incoming)
      ensures State() == old(State()).(conns := old(State()).conns[t := View(connections[t])], counter := tokenCounter)
    {
      StoredViews(t);
    }

    /** A server whose fields and buffers are all as they were has the
        same state. */
    twostate lemma SameState()
      requires old(Valid()) && Valid()
      requires connections == old(connections) && tokenCounter == old(tokenCounter)
      requires connectionLimit == old(connectionLimit) && incoming == old(incoming)
      requires forall u | u in old(connections) ::
        unchanged(old(connections)[u].buffer, old(connections)[u].buffer.data)
      ensures State() == old(State())
    {
      var now, before := Views(), old(Views());
      forall u | u in now
        ensures now[u] == before[u]
      {
        ViewUnchanged(connections[u]);
      }
      SameMap(now, before);
    }

    /** An admitted connection `c`, stored under the advanced counter with
        every other buffer untouched: the table is still well formed, the
        new entry is empty, and the server's state is the accept step's. */
    twostate lemma Admitted(new c: Connection)
      requires old(Valid()) && |old(connections)| < old(connectionLimit)
      requires c.token == old(tokenCounter) + 1 && !c.isDisconnected && c.outgoing == []
      requires c.buffer.Valid() && c.buffer.Contents() == [] && fresh(c.buffer) && fresh(c.buffer.data)
      requires connections == old(connections)[c.token := c] && tokenCounter == c.token
      requires connectionLimit == old(connectionLimit) && incoming == old(incoming)
      requires forall u | u in old(connections) ::
        unchanged(old(connections)[u].buffer, old(connections)[u].buffer.data)
      ensures Valid()
      ensures c.token !in old(connections) && c.token != LOCAL_TOKEN
      ensures var s := old(State());
        State() == s.(conns := s.conns[c.token := ConnView([], [], false)], counter := c.token)
    {
      InsertKeepsKeyed(old(connections), connectionLimit, old(tokenCounter), c);
      forall u | u in connections
        ensures connections[u].buffer.Valid()
      {
        if u != c.token {
          assert connections[u] == old(connections)[u];
        }
      }
      assert View(c) == ConnView([], [], false);
      StoredState(c.token);
    }

    /** The flagged entries of the server's state are the flagged
        connections. */
    lemma FlaggedIsDropped()
      requires Valid()
      ensures Flagged(State()) == Dropped(connections)
    {
      var views := Views();
      forall u | u in connections
        ensures views[u].disconnected == connections[u].isDisconnected
      {
      }
    }

    /** Keeping the unflagged entries, with every buffer untouched, keeps
        the table well formed and is the end-of-tick step on the server's
        state. */
    twostate lemma Reaping()
      requires old(Valid()) && Flagged(old(State())) == Dropped(old(connections))
      requires connections == Kept(old(connections))
      requires tokenCounter == old(tokenCounter) && connectionLimit == old(connectionLimit) && incoming == old(incoming)
      requires forall u | u in old(connections) ::
        unchanged(old(connections)[u].buffer, old(connections)[u].buffer.data)
      ensures Valid()
      ensures State() == Reaped(old(State()))
    {
      KeptKeepsKeyed(old(connections), connectionLimit, tokenCounter);
      forall u | u in connections
        ensures connections[u].buffer.Valid()
      {
        assert connections[u] == old(connections)[u];
      }
      KeptViews();
    }

    /** Under the same change, the views are those of the kept entries. */
    twostate lemma KeptViews()
      requires old(Valid()) && Valid() && Flagged(old(State())) == Dropped(old(connections))
      requires connections == Kept(old(connections))
      requires forall u | u in old(connections) ::
        unchanged(old(connections)[u].buffer, old(connections)[u].buffer.data)
      ensures Views() == Reaped(old(State())).conns
    {
      var now, kept := Views(), Reaped(old(State())).conns;
      KeptKeys(old(connections));
      assert now.Keys == kept.Keys;
      forall u | u in now
        ensures now[u] == kept[u]
      {
        ViewUnchanged(old(connections)[u]);
      }
      SameMap(now, kept);
    }

    /** `Server::host`, once the listener is bound and registered: an empty
        table, the counter at 0 and no received packets. */
    constructor Host(connectionLimit: nat)
      ensures Valid()
      ensures connections == map[] && this.connectionLimit == connectionLimit
      ensures tokenCounter == 0 && incoming == []
    {
      connections := map[];
      this.connectionLimit := connectionLimit;
      tokenCounter := 0;
      incoming := [];
    }

    /** `num_connections`: never more than the ceiling. */
    function NumConnections(): (n: nat)
      reads this
      requires Valid()
      ensures n <= connectionLimit
      ensures n == 0 <==> connections == map[]
    {
      |connections|
    }

    /** `connection_limit`: the ceiling the table never exceeds. */
    function ConnectionLimit(): (n: nat)
      reads this
      requires Valid()
      ensures |connections| <= n
    {
      connectionLimit
    }

    /** `drain_incoming_packets`: every received packet with its sender's
        token, in arrival order; the queue is left empty. */
    method DrainIncomingPackets() returns (packets: seq<(Token, Packet)>)
      requires Valid()
      modifies this
      ensures Valid()
      ensures packets == old(incoming) && incoming == []
      ensures connections == old(connections) && tokenCounter == old(tokenCounter)
      ensures connectionLimit == old(connectionLimit)
    {
      packets := incoming;
      incoming := [];
    }

    /** `kick`: an unknown token is refused and nothing changes; otherwise
        only that connection's flag is set, to be reaped at the end of the
        next tick. */
    method Kick(t: Token) returns (r: Result<()>)
      requires Valid()
      modifies this
      ensures Valid()
      ensures t !in old(connections) ==> r == Err(ConnectionNotFound) && connections == old(connections)
      ensures t in old(connections) ==>
        r == Ok(()) && connections == old(connections)[t := old(connections[t]).(isDisconnected := true)]
      ensures tokenCounter == old(tokenCounter) && connectionLimit == old(connectionLimit)
      ensures incoming == old(incoming)
    {
      if t !in connections {
        return Err(ConnectionNotFound);
      }
      var updated := connections[t].(isDisconnected := true);
      UpdateKeepsKeyed(connections, connectionLimit, tokenCounter, t, updated);
      connections := connections[t := updated];
      r := Ok(());
    }

    /** `send_boxed` (and `send`, which boxes the body first): the body is
        queued, once, at the back of the FIFO of every connection the
        recipient selects, and of no other; a token naming no connection is
        ignored. */
    method SendBoxed(recipient: PacketRecipient, body: PacketBody)
      requires Valid()
      modifies this
      ensures Valid()
      ensures connections.Keys == old(connections.Keys)
      ensures forall t | t in connections ::
        connections[t] == if Selects(recipient, t)
          then old(connections[t]).(outgoing := old(connections[t]).outgoing + [body])
          else old(connections[t])
      ensures tokenCounter == old(tokenCounter) && connectionLimit == old(connectionLimit)
      ensures incoming == old(incoming)
    {
      var table := Enqueued(connections, recipient, body);
      SameShapeKeepsKeyed(connections, table, connectionLimit, tokenCounter);
      connections := table;
    }

    /** The listener's readiness: one `accept`. A failed accept changes
        nothing. At the ceiling the peer is rejected and the table and the
        counter are untouched. Otherwise the peer is admitted. */
    method Accept(a: AcceptResult) returns (evs: seq<ServerEvent>)
      requires Valid()
      modifies this
      ensures Valid()
      ensures connectionLimit == old(connectionLimit) && incoming == old(incoming)
      ensures a.AcceptFailed? ==> evs == [] && connections == old(connections) && tokenCounter == old(tokenCounter)
      ensures a.Accepted? && |old(connections)| >= connectionLimit ==>
        evs == [ConnectionRejected(a.addr)] && connections == old(connections) && tokenCounter == old(tokenCounter)
      ensures a.Accepted? && |old(connections)| < connectionLimit ==>
        && tokenCounter == old(tokenCounter) + 1
        && tokenCounter !in old(connections) && tokenCounter != LOCAL_TOKEN
        && evs == [ClientConnected(tokenCounter, a.addr)]
        && tokenCounter in connections
        && connections == old(connections)[tokenCounter := connections[tokenCounter]]
        && var c := connections[tokenCounter];
           c.token == tokenCounter && !c.isDisconnected && c.outgoing == []
           && fresh(c.buffer) && fresh(c.buffer.data) && c.buffer.Contents() == []
      ensures Stepped(State(), evs, false) == AcceptStep(old(State()), a)
    {
      ghost var s0 := State();
      if a.AcceptFailed? {
        evs := [];
      } else if |connections| >= connectionLimit {
        evs := [ConnectionRejected(a.addr)];
      } else {
        evs := Admit(a.addr);
        AcceptStepAdmits(s0, a.addr);
      }
    }

    /** Admitting a peer below the ceiling: the counter is advanced and the
        new connection, with an empty buffer and FIFO, is stored under it, a
        token never used before and never the listener's; every other entry
        is kept as it was. */
    method Admit(addr: SocketAddr) returns (evs: seq<ServerEvent>)
      requires Valid() && |connections| < connectionLimit
      modifies this
      ensures Valid()
      ensures connectionLimit == old(connectionLimit) && incoming == old(incoming)
      ensures tokenCounter == old(tokenCounter) + 1
      ensures tokenCounter !in old(connections) && tokenCounter != LOCAL_TOKEN
      ensures evs == [ClientConnected(tokenCounter, addr)]
      ensures tokenCounter in connections && connections == old(connections)[tokenCounter := connections[tokenCounter]]
      ensures var c := connections[tokenCounter];
        c.token == tokenCounter && !c.isDisconnected && c.outgoing == []
        && fresh(c.buffer) && fresh(c.buffer.data) && c.buffer.Contents() == []
      ensures var s := old(State());
        State() == s.(conns := s.conns[tokenCounter := ConnView([], [], false)], counter := tokenCounter)
    {
      var token := tokenCounter + 1;
      var buffer := new NetworkBuffer();
      var c := Connection(token, false, buffer, []);
      connections := connections[token := c];
      tokenCounter := token;
      evs := [ClientConnected(token, addr)];
      Admitted(c);
    }

    /** The read phase on connection `t`'s buffer, in place, when the socket
        is readable. */
    method ReadSocket(t: Token, readable: bool, rs: seq<ReadResult>) returns (packets: seq<Packet>)
      requires Valid() && t in connections
      modifies this, connections[t].buffer, connections[t].buffer.data
      ensures Valid()
      ensures t in connections && connections == old(connections)[t := connections[t]]
      ensures tokenCounter == old(tokenCounter) && connectionLimit == old(connectionLimit)
      ensures connections[t].token == t && connections[t].buffer == old(connections[t].buffer)
      ensures (View(connections[t]), packets) ==
        if readable then ReadPhase(old(View(connections[t])), rs) else (old(View(connections[t])), [])
      ensures incoming == old(incoming) + Tagged(t, packets)
      ensures Views() == old(Views())[t := View(connections[t])]
    {
      if !readable {
        UpdateSame(connections, t);
        UpdateSame(Views(), t);
        return [];
      }
      ghost var table := connections;
      var updated;
      updated, packets := ReadConnection(connections[t], rs);
      ghost var after := View(updated);
      incoming := incoming + Tagged(t, packets);
      connections := connections[t := updated];
      assert View(connections[t]) == after;
      forall u | u in table && u != t
        ensures unchanged(table[u].buffer, table[u].buffer.data)
      {
        assert table[u].buffer != table[t].buffer && table[u].buffer.data != table[t].buffer.data;
      }
      Replaced(t);
    }

    /** The write phase on connection `t`'s FIFO, when the socket is
        writable. */
    method WriteSocket(t: Token, writable: bool, ws: seq<WriteResult>) returns (sent: seq<nat>)
      requires Valid() && t in connections
      modifies this
      ensures Valid()
      ensures t in connections && connections == old(connections)[t := connections[t]]
      ensures tokenCounter == old(tokenCounter) && connectionLimit == old(connectionLimit)
      ensures connections[t].token == t && connections[t].buffer == old(connections[t].buffer)
      ensures (View(connections[t]), sent) ==
        if writable then WritePhase(old(View(connections[t])), ws) else (old(View(connections[t])), [])
      ensures incoming == old(incoming)
      ensures Views() == old(Views())[t := View(connections[t])]
    {
      if !writable {
        UpdateSame(connections, t);
        UpdateSame(Views(), t);
        return [];
      }
      var c := connections[t];
      var f := FlushQueue(c.outgoing, ws);
      var updated := c.(isDisconnected := c.isDisconnected || f.failed, outgoing := f.rest);
      connections := connections[t := updated];
      sent := f.sent;
      Replaced(t);
    }

    /** Socket readiness for connection `t`: the read phase when readable,
        then the write phase when writable, as `Service` states them. Every
        received packet is queued with `t`; no other connection changes. */
    method ServiceSocket(t: Token, readable: bool, writable: bool, rs: seq<ReadResult>, ws: seq<WriteResult>)
      returns (evs: seq<ServerEvent>)
      requires Valid() && t in connections
      modifies this, connections[t].buffer, connections[t].buffer.data
      ensures Valid()
      ensures t in connections && connections == old(connections)[t := connections[t]]
      ensures tokenCounter == old(tokenCounter) && connectionLimit == old(connectionLimit)
      ensures connections[t].token == t && connections[t].buffer == old(connections[t].buffer)
      ensures var r := Service(t, old(View(connections[t])), readable, writable, rs, ws);
        View(connections[t]) == r.view && evs == r.events && incoming == old(incoming) + Tagged(t, r.packets)
      ensures Views() == old(Views())[t := View(connections[t])]
      ensures Stepped(State(), evs, false) == Step(old(State()), SocketReady(t, readable, writable, rs, ws))
    {
      ghost var s0 := old(State());
      ghost var table, before := connections, Views();
      ghost var v0 := View(connections[t]);
      var packets := ReadSocket(t, readable, rs);
      ghost var mid, between := connections, Views();
      var sent := WriteSocket(t, writable, ws);
      UpdateTwice(before, t, between[t], View(connections[t]));
      UpdateTwice(table, t, mid[t], connections[t]);
      evs := ReceivedEvents(t, packets) + SentEvents(t, sent);
      ServiceStepIs(s0, t, readable, writable, rs, ws);
    }

    /** The end of a tick: one `ClientDisconnected` per flagged connection,
        each reported once, then exactly the flagged connections are removed
        and all others kept as they were. */
    method Reap() returns (evs: seq<ServerEvent>)
      requires Valid()
      modifies this
      ensures Valid()
      ensures connections == Kept(old(connections))
      ensures ListsOnce(evs, Dropped(old(connections)))
      ensures tokenCounter == old(tokenCounter) && connectionLimit == old(connectionLimit)
      ensures incoming == old(incoming)
      ensures State() == Reaped(old(State())) && ListsOnce(evs, Flagged(old(State())))
    {
      FlaggedIsDropped();
      var flagged := Dropped(connections);
      evs := DisconnectEvents(flagged);
      connections := Kept(connections);
      Reaping();
    }

    /** `tick`: every readiness event in turn, then the reaping. A socket
        event for a token with no connection makes the source panic; here the
        tick stops there and reports it. Otherwise no flagged connection
        survives the tick, every connection removed was reported, every
        connection present was present before or was accepted during the
        tick, and received packets are only ever appended. */
    method Tick(events: seq<PollEvent>) returns (netEvents: seq<ServerEvent>, panicked: bool)
      requires Valid()
      modifies this, Buffers(), Arrays()
      ensures Valid()
      ensures tokenCounter >= old(tokenCounter) && connectionLimit == old(connectionLimit)
      ensures |old(incoming)| <= |incoming| && incoming[..|old(incoming)|] == old(incoming)
      ensures forall t | t in connections :: t in old(connections) || old(tokenCounter) < t <= tokenCounter
      ensures panicked ==>
        exists i :: 0 <= i < |events| && events[i].SocketReady? && events[i].token !in old(connections)
      ensures !panicked ==> forall t | t in connections :: !connections[t].isDisconnected
      ensures !panicked ==> forall t | t in old(connections) ::
        t in connections <==> ClientDisconnected(t) !in netEvents
      ensures !panicked ==> forall i :: 0 <= i < |netEvents| && netEvents[i].ClientDisconnected? ==>
        netEvents[i].token !in connections
      ensures !panicked ==> forall i, j :: 0 <= i < j < |netEvents| && netEvents[i].ClientDisconnected? ==>
        netEvents[i] != netEvents[j]
      ensures var r := Steps(old(State()), events);
        && panicked == r.panicked
        && (panicked ==> State() == r.view && netEvents == r.events)
        && (!panicked ==>
              && State() == Reaped(r.view)
              && |r.events| <= |netEvents| && netEvents[..|r.events|] == r.events
              && ListsOnce(netEvents[|r.events|..], Flagged(r.view)))
    {
      ghost var start := State();
      netEvents, panicked := HandleAll(events);
      if panicked {
        return;
      }
      ghost var loop := netEvents;
      var gone := Reap();
      netEvents := netEvents + gone;
      assert netEvents[..|loop|] == loop && netEvents[|loop|..] == gone;
      TickReaps(start, events, gone);
    }

    /** The loop of `tick` over the readiness events, in turn, up to the
        first socket event for a token with no connection. */
    method HandleAll(events: seq<PollEvent>) returns (netEvents: seq<ServerEvent>, panicked: bool)
      requires Valid()
      modifies this, Buffers(), Arrays()
      ensures Valid()
      ensures tokenCounter >= old(tokenCounter) && connectionLimit == old(connectionLimit)
      ensures |old(incoming)| <= |incoming| && incoming[..|old(incoming)|] == old(incoming)
      ensures forall t | t in connections :: t in old(connections) || old(tokenCounter) < t <= tokenCounter
      ensures panicked ==>
        exists i :: 0 <= i < |events| && events[i].SocketReady? && events[i].token !in old(connections)
      ensures Stepped(State(), netEvents, panicked) == Steps(old(State()), events)
    {
      ghost var start := State();
      netEvents, panicked := [], false;
      var k := 0;
      while k < |events|
        invariant k <= |events|
        invariant Valid()
        invariant tokenCounter >= old(tokenCounter) && connectionLimit == old(connectionLimit)
        invariant |old(incoming)| <= |incoming| && incoming[..|old(incoming)|] == old(incoming)
        invariant old(connections).Keys <= connections.Keys
        invariant forall t | t in connections :: t in old(connections) || old(tokenCounter) < t <= tokenCounter
        invariant forall t | t in connections ::
          if t in old(connections) then connections[t].buffer == old(connections[t].buffer)
          else fresh(connections[t].buffer) && fresh(connections[t].buffer.data)
        invariant Steps(start, events[..k]) == Stepped(State(), netEvents, false)
      {
        StepsSnoc(start, events[..k], events[k]);
        assert events[..k + 1] == events[..k] + [events[k]];
        var evs;
        evs, panicked := Handle(events[k]);
        netEvents := netEvents + evs;
        if panicked {
          assert events[k].SocketReady? && events[k].token !in old(connections);
          StepsStopAtPanic(start, events, k + 1);
          return;
        }
        k := k + 1;
      }
      assert events[..k] == events;
    }

    /** One readiness event of a tick; a socket event for a token with no
        connection is where the source panics. */
    method Handle(e: PollEvent) returns (evs: seq<ServerEvent>, panicked: bool)
      requires Valid()
      modifies this, Buffers(), Arrays()
      ensures Valid()
      ensures tokenCounter >= old(tokenCounter) && connectionLimit == old(connectionLimit)
      ensures |old(incoming)| <= |incoming| && incoming[..|old(incoming)|] == old(incoming)
      ensures old(connections).Keys <= connections.Keys
      ensures forall t | t in connections :: t in old(connections) || old(tokenCounter) < t <= tokenCounter
      ensures panicked <==> e.SocketReady? && e.token !in old(connections)
      ensures panicked ==> evs == []
      ensures Stepped(State(), evs, panicked) == Step(old(State()), e)
      ensures forall t | t in connections ::
        if t in old(connections) then connections[t].buffer == old(connections[t].buffer)
        else fresh(connections[t].buffer) && fresh(connections[t].buffer.data)
    {
      match e
      case ListenerReady(a) =>
        evs := Accept(a);
        panicked := false;
        if tokenCounter in connections && connections == old(connections)[tokenCounter := connections[tokenCounter]] {
          BuffersKept(tokenCounter);
        }
      case SocketReady(t, readable, writable, rs, ws) =>
        evs, panicked := HandleSocket(t, readable, writable, rs, ws);
        if !panicked {
          BuffersKept(t);
        }
    }

    /** Replacing or adding the single entry `t` keeps every other
        connection's buffer; an added entry brings a buffer allocated since. */
    twostate lemma BuffersKept(t: Token)
      requires t in connections && connections == old(connections)[t := connections[t]]
      requires t in old(connections) ==> connections[t].buffer == old(connections)[t].buffer
      requires t !in old(connections) ==> fresh(connections[t].buffer) && fresh(connections[t].buffer.data)
      ensures forall u | u in connections ::
        if u in old(connections) then connections[u].buffer == old(connections[u].buffer)
        else fresh(connections[u].buffer) && fresh(connections[u].buffer.data)
    {
    }

    /** A socket event: the connection is looked up, and a token with no
        connection is where the source panics; otherwise it is serviced. */
    method HandleSocket(t: ConnToken, readable: bool, writable: bool, rs: seq<ReadResult>, ws: seq<WriteResult>)
      returns (evs: seq<ServerEvent>, panicked: bool)
      requires Valid()
      modifies this, Buffers(), Arrays()
      ensures Valid()
      ensures tokenCounter == old(tokenCounter) && connectionLimit == old(connectionLimit)
      ensures panicked <==> t !in old(connections)
      ensures panicked ==> evs == [] && connections == old(connections) && incoming == old(incoming)
      ensures !panicked ==>
        && t in connections && connections == old(connections)[t := connections[t]]
        && connections[t].buffer == old(connections[t].buffer)
      ensures |old(incoming)| <= |incoming| && incoming[..|old(incoming)|] == old(incoming)
      ensures Stepped(State(), evs, panicked) == Step(old(State()), SocketReady(t, readable, writable, rs, ws))
    {
      if t !in connections {
        return [], true;
      }
      evs := ServiceSocket(t, readable, writable, rs, ws);
      panicked := false;
    }
  }
}

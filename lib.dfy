/** Crate-level definitions (src/lib.rs, with the error kinds of src/error.rs):
    the error and result types, recipient selectors for server sends, and
    `send_bytes`, the loop that pushes one serialised packet into a socket. */
module Net {
  import opened NetBuffer

  /** mio's `Token(usize)`: the opaque key of a connection. */
  type Token = nat

  /** The error kinds the core produces (the I/O, OpenSSL and bcrypt kinds
      only arise outside it). */
  datatype Error = FailedToSendBytes | InvalidData | ConnectionNotFound

  datatype Result<T> = Ok(value: T) | Err(error: Error)

  datatype Option<T> = None | Some(value: T)

  function Min(a: nat, b: nat): nat
  {
    if a <= b then a else b
  }

  lemma Associative<T>(a: seq<T>, b: seq<T>, c: seq<T>)
    ensures a + (b + c) == (a + b) + c
  {
  }

  /** Which connections a server-side send is queued for. */
  datatype PacketRecipient =
    | All
    | Single(token: Token)
    | Exclude(token: Token)
    | ExcludeMany(tokens: seq<Token>)
    | Include(tokens: seq<Token>)

  /** Whether the connection keyed `t` is one of the targets of `r`; a token
      named by a selector that has no connection simply selects nothing.
      `All` takes every connection, and each excluding selector takes exactly
      the connections its including counterpart leaves out. */
  predicate Selects(r: PacketRecipient, t: Token)
    ensures r.All? ==> Selects(r, t)
    ensures r.Exclude? ==> (Selects(r, t) <==> !Selects(Single(r.token), t))
    ensures r.ExcludeMany? ==> (Selects(r, t) <==> !Selects(Include(r.tokens), t))
    decreases if r.Exclude? || r.ExcludeMany? then 1 else 0
  {
    match r
    case All => true
    case Single(s) => t == s
    case Exclude(s) => t != s
    case ExcludeMany(ts) => t !in ts
    case Include(ts) => t in ts
  }

  /** The connections among `keys` that a send to `r` reaches. */
  function Recipients(r: PacketRecipient, keys: set<Token>): (s: set<Token>)
    ensures s <= keys
  {
    set t | t in keys && Selects(r, t)
  }

  /** What each selector reaches among the live connections `keys`. */
  lemma RecipientSets(keys: set<Token>, t: Token, ts: seq<Token>)
    ensures Recipients(All, keys) == keys
    ensures Recipients(Single(t), keys) == keys * {t}
    ensures Recipients(Exclude(t), keys) == keys - {t}
    ensures Recipients(ExcludeMany(ts), keys) == keys - set u | u in ts
    ensures Recipients(Include(ts), keys) == keys * set u | u in ts
  {
  }

  /** One outcome of a non-blocking `write`: the socket takes at most `n` of
      the bytes it is offered, or it reports an error (would-block included). */
  datatype WriteResult = Room(n: nat) | WriteFailed

  /** How a send of `len` bytes ends: whether every byte went out, how many
      write outcomes it used and how many bytes the socket took. */
  datatype Delivery = Delivery(complete: bool, used: nat, sent: nat)

  /** Writing `len` bytes by repeated writes until none are left. Each write
      offered `m` remaining bytes takes `Min(n, m)` of them; an error stops the
      send, and so does running out of outcomes (the socket would block). */
  function Deliver(len: nat, ws: seq<WriteResult>): (d: Delivery)
    ensures d.used <= |ws| && d.sent <= len
    ensures d.complete <==> d.sent == len
    ensures len == 0 ==> d.complete && d.used == 0
    decreases |ws|
  {
    if len == 0 then Delivery(true, 0, 0)
    else if ws == [] then Delivery(false, 0, 0)
    else match ws[0]
      case WriteFailed => Delivery(false, 1, 0)
      case Room(n) =>
        var k := Min(n, len);
        var d := Deliver(len - k, ws[1..]);
        Delivery(d.complete, d.used + 1, d.sent + k)
  }

  /** `send_bytes` as it is meant to work: every write is offered the bytes
      not yet sent. An empty buffer is refused without writing, any failed
      write makes the send fail, and a complete send reports the buffer's
      length and has put exactly the buffer on the wire. */
  method SendBytes(buffer: seq<u8>, writes: seq<WriteResult>) returns (r: Result<nat>, used: nat, wire: seq<u8>)
    ensures |buffer| == 0 ==> r == Err(InvalidData) && used == 0 && wire == []
    ensures |buffer| > 0 ==>
      var d := Deliver(|buffer|, writes);
      && used == d.used
      && wire == buffer[..d.sent]
      && r == (if d.complete then Ok(|buffer|) else Err(FailedToSendBytes))
    ensures r.Ok? ==> r.value == |buffer| && wire == buffer
    ensures r.Err? && |buffer| > 0 ==> r.error == FailedToSendBytes
  {
    var len: nat := |buffer|;
    if len == 0 {
      return Err(InvalidData), 0, [];
    }
    used, wire := 0, [];
    while len > 0
      invariant used <= |writes| && len <= |buffer|
      invariant wire == buffer[..|buffer| - len]
      invariant Continues(Deliver(|buffer|, writes), Deliver(len, writes[used..]), used, |buffer| - len)
      decreases |writes| - used
    {
      if used == |writes| {
        // No outcome left: the socket would block, which is an error here.
        return Err(FailedToSendBytes), used, wire;
      }
      ghost var ws := writes[used..];
      assert ws[1..] == writes[used + 1..];
      match writes[used]
      case WriteFailed =>
        return Err(FailedToSendBytes), used + 1, wire;
      case Room(n) =>
        var k := Min(n, len);
        ContinueSend(Deliver(|buffer|, writes), len, ws, n, used, |buffer| - len);
        var at := |buffer| - len;
        wire := wire + buffer[at..at + k];
        assert wire == buffer[..at + k];
        len := len - k;
        used := used + 1;
    }
    r := Ok(|buffer|);
  }

  /** The whole send `whole` is the `used` outcomes consumed so far, which
      sent `done` bytes, followed by the send `rest` of what is left. */
  predicate Continues(whole: Delivery, rest: Delivery, used: nat, done: nat)
  {
    && whole.complete == rest.complete
    && whole.used == used + rest.used
    && whole.sent == done + rest.sent
  }

  /** One successful write of a send of `len > 0` bytes. */
  lemma DeliverStep(len: nat, ws: seq<WriteResult>, n: nat)
    requires len > 0 && ws != [] && ws[0] == Room(n)
    ensures var d := Deliver(len - Min(n, len), ws[1..]);
      Deliver(len, ws) == Delivery(d.complete, d.used + 1, d.sent + Min(n, len))
  {
  }

  /** After one successful write the rest of the send continues the whole
      send, with one more outcome used and `Min(n, len)` more bytes sent. */
  lemma ContinueSend(whole: Delivery, len: nat, ws: seq<WriteResult>, n: nat, used: nat, done: nat)
    requires len > 0 && ws != [] && ws[0] == Room(n)
    requires Continues(whole, Deliver(len, ws), used, done)
    ensures Continues(whole, Deliver(len - Min(n, len), ws[1..]), used + 1, done + Min(n, len))
  {
    DeliverStep(len, ws, n);
  }

  /** The precondition the source's `len -= sent_bytes` needs: up to the end
      of the send, no write reports more bytes than were still unsent. */
  predicate WritesFit(len: nat, ws: seq<WriteResult>)
    decreases |ws|
  {
    len == 0 || ws == [] ||
    match ws[0]
    case WriteFailed => true
    case Room(n) => n <= len && WritesFit(len - n, ws[1..])
  }

  /** The bytes the source's loop puts on the wire: each write is offered the
      whole buffer, so each successful write sends a prefix of it. */
  function EchoedPrefixes(buffer: seq<u8>, len: nat, ws: seq<WriteResult>): (w: seq<u8>)
    requires len <= |buffer| && WritesFit(len, ws)
    decreases |ws|
  {
    if len == 0 || ws == [] then []
    else match ws[0]
      case WriteFailed => []
      case Room(n) => buffer[..n] + EchoedPrefixes(buffer, len - n, ws[1..])
  }

  /** `send_bytes` as written: every write is passed the entire buffer, and
      the count each write reports is subtracted from what is left. */
  method SendBytesAsWritten(buffer: seq<u8>, writes: seq<WriteResult>) returns (r: Result<nat>, used: nat, wire: seq<u8>)
    requires WritesFit(|buffer|, writes)
    ensures |buffer| == 0 ==> r == Err(InvalidData) && used == 0 && wire == []
    ensures |buffer| > 0 ==>
      var d := Deliver(|buffer|, writes);
      && used == d.used
      && wire == EchoedPrefixes(buffer, |buffer|, writes)
      && r == (if d.complete then Ok(|buffer|) else Err(FailedToSendBytes))
  {
    var len: nat := |buffer|;
    if len == 0 {
      return Err(InvalidData), 0, [];
    }
    used, wire := 0, [];
    var ws := writes;
    while len > 0
      invariant used + |ws| == |writes| && len <= |buffer|
      invariant WritesFit(len, ws)
      invariant wire + EchoedPrefixes(buffer, len, ws) == EchoedPrefixes(buffer, |buffer|, writes)
      invariant Continues(Deliver(|buffer|, writes), Deliver(len, ws), used, |buffer| - len)
      decreases |ws|
    {
      if ws == [] || ws[0].WriteFailed? {
        EchoStop(buffer, len, ws);
        assert wire + [] == wire;
        return Err(FailedToSendBytes), if ws == [] then used else used + 1, wire;
      }
      var n := ws[0].n;
      EchoStep(buffer, len, ws, n);
      ContinueSend(Deliver(|buffer|, writes), len, ws, n, used, |buffer| - len);
      Associative(wire, buffer[..n], EchoedPrefixes(buffer, len - n, ws[1..]));
      wire := wire + buffer[..n];
      len := len - n;
      used := used + 1;
      ws := ws[1..];
    }
    assert wire + [] == wire;
    r := Ok(|buffer|);
  }

  /** A send of `len > 0` bytes that finds no outcome left, or a failed
      write, fails there and echoes nothing more. */
  lemma EchoStop(buffer: seq<u8>, len: nat, ws: seq<WriteResult>)
    requires 0 < len <= |buffer| && WritesFit(len, ws) && (ws == [] || ws[0].WriteFailed?)
    ensures EchoedPrefixes(buffer, len, ws) == []
    ensures Deliver(len, ws) == Delivery(false, if ws == [] then 0 else 1, 0)
  {
  }

  /** One successful write of the as-written loop: it fits what is left and
      echoes the first `n` bytes of the buffer. */
  lemma EchoStep(buffer: seq<u8>, len: nat, ws: seq<WriteResult>, n: nat)
    requires 0 < len <= |buffer| && ws != [] && ws[0] == Room(n) && WritesFit(len, ws)
    ensures n <= len && WritesFit(len - n, ws[1..])
    ensures EchoedPrefixes(buffer, len, ws) == buffer[..n] + EchoedPrefixes(buffer, len - n, ws[1..])
  {
  }

  /** Two one-byte writes of the two-byte buffer [1, 2]: the loop counts both
      bytes as sent and reports success, yet the wire carried [1, 1]. */
  lemma AsWrittenRepeatsPrefix()
    ensures var buffer, ws := [1, 2], [Room(1), Room(1)];
      && WritesFit(|buffer|, ws)
      && Deliver(|buffer|, ws).complete
      && EchoedPrefixes(buffer, |buffer|, ws) == [1, 1] != buffer
  {
    var buffer: seq<u8>, ws := [1, 2], [Room(1), Room(1)];
    assert ws[1..] == [Room(1)] && ws[1..][1..] == [];
    assert Deliver(0, []).complete;
    assert Deliver(1, [Room(1)]).complete;
    assert EchoedPrefixes(buffer, 1, [Room(1)]) == [1];
  }
}

/**
 * The transport callbacks (MRH_MsQuic.c) that drive the slot state machine.
 * Each event is one sequential step on the pool; the transport calls a
 * handler makes are reported as its result.
 */
module MsQuic {
  import opened Wrappers
  import opened Bytes
  import opened Sizes
  import opened MsQuicContext

  // ---------------------------------------------------------------------------
  // Connection events
  // ---------------------------------------------------------------------------

  /** The QUIC_CONNECTION_EVENT types the callback distinguishes. */
  datatype ConnectionEvent =
    | Connected(connection: nat)
    | ConnectionShutdownComplete(connection: nat)
    | PeerStreamStarted
    | ShutdownInitiatedByPeer(connection: nat)
    | ShutdownInitiatedByTransport(connection: nat)
    | Resumed
    | OtherConnectionEvent

  /** The call a connection event makes into the transport, if any. */
  datatype ConnectionCall =
    | NoConnectionCall
    | ConnectionClose(connection: nat)
    | ConnectionShutdown(connection: nat)
    | SetCallbackHandler(recvSlot: nat)
    | AbortPeerStream

  /** CONNECTED: every send slot becomes COMPLETE and the handle is published. */
  method OnConnected(c: Connection, connection: nat)
    requires c.Valid()
    modifies c, c.send
    ensures c.Valid()
    ensures c.handle == Some(connection)
    ensures forall i :: 0 <= i < c.send.Length ==> c.send[i] == old(c.send[i]).(state := Complete)
  {
    var i := 0;
    while i < MessageBufferCount
      invariant 0 <= i <= MessageBufferCount
      invariant forall j :: 0 <= j < i ==> c.send[j] == old(c.send[j]).(state := Complete)
      invariant forall j :: i <= j < MessageBufferCount ==> c.send[j] == old(c.send[j])
    {
      c.send[i] := c.send[i].(state := Complete);
      i := i + 1;
    }
    c.handle := Some(connection);
  }

  /** SHUTDOWN_COMPLETE: the connection is closed and the handle cleared, only if one is set. */
  method OnConnectionShutdownComplete(c: Connection, connection: nat) returns (call: ConnectionCall)
    modifies c
    ensures c.handle.None?
    ensures call == (if old(c.handle).Some? then ConnectionClose(connection) else NoConnectionCall)
  {
    call := NoConnectionCall;
    if c.handle.Some? {
      call := ConnectionClose(connection);
      c.handle := None;
    }
  }

  /**
   * PEER_STREAM_STARTED: the lowest-index FREE receive slot becomes IN_USE
   * with nothing received yet and keeps its buffer; with no FREE slot the
   * stream is aborted and no slot changes.
   */
  method OnPeerStreamStarted(c: Connection) returns (call: ConnectionCall)
    requires c.Valid()
    modifies c.recv
    ensures c.Valid()
    ensures call.SetCallbackHandler? || call == AbortPeerStream
    ensures call == AbortPeerStream ==>
              (forall j :: 0 <= j < c.recv.Length ==> old(c.recv[j]).state != Free)
              && (forall j :: 0 <= j < c.recv.Length ==> c.recv[j] == old(c.recv[j]))
    ensures call.SetCallbackHandler? ==>
              var k := call.recvSlot;
              && k < c.recv.Length && old(c.recv[k]).state == Free
              && (forall j :: 0 <= j < k ==> old(c.recv[j]).state != Free)
              && c.recv[k] == old(c.recv[k]).(state := InUse, sizeCur := 0)
              && (forall j :: 0 <= j < c.recv.Length && j != k ==> c.recv[j] == old(c.recv[j]))
  {
    var found := FindFirst(c.recv, {Free});
    if found.None? {
      return AbortPeerStream;
    }
    var k := found.value;
    c.recv[k] := c.recv[k].(state := InUse, sizeCur := 0);
    call := SetCallbackHandler(k);
  }

  /**
   * SHUTDOWN_INITIATED_BY_PEER / _BY_TRANSPORT: only asks the transport to
   * shut down; the handle stays until SHUTDOWN_COMPLETE clears it.
   */
  method OnShutdownInitiated(c: Connection, connection: nat) returns (call: ConnectionCall)
    ensures call == (if c.handle.Some? then ConnectionShutdown(connection) else NoConnectionCall)
  {
    if c.handle.Some? {
      return ConnectionShutdown(connection);
    }
    return NoConnectionCall;
  }

  /** MRH_MsQuicConnectionCallback: dispatch on the event type. */
  method ConnectionCallback(c: Connection, ev: ConnectionEvent) returns (call: ConnectionCall)
    requires c.Valid()
    modifies c, c.recv, c.send
    ensures c.Valid()
    ensures ev.Connected? ==>
              c.handle == Some(ev.connection)
              && (forall i :: 0 <= i < c.recv.Length ==> c.recv[i] == old(c.recv[i]))
              && (forall i :: 0 <= i < c.send.Length ==> c.send[i] == old(c.send[i]).(state := Complete))
    ensures ev.ConnectionShutdownComplete? ==> c.handle.None?
    ensures !ev.Connected? && !ev.ConnectionShutdownComplete? ==> c.handle == old(c.handle)
    ensures !ev.Connected? ==> forall i :: 0 <= i < c.send.Length ==> c.send[i] == old(c.send[i])
    ensures !ev.PeerStreamStarted? && !ev.Connected? ==>
              forall i :: 0 <= i < c.recv.Length ==> c.recv[i] == old(c.recv[i])
    ensures ev.Resumed? || ev.OtherConnectionEvent? || ev.Connected? ==> call == NoConnectionCall
    ensures ev.ConnectionShutdownComplete? ==>
              call == (if old(c.handle).Some? then ConnectionClose(ev.connection) else NoConnectionCall)
    ensures ev.ShutdownInitiatedByPeer? || ev.ShutdownInitiatedByTransport? ==>
              call == (if old(c.handle).Some? then ConnectionShutdown(ev.connection) else NoConnectionCall)
    ensures ev.PeerStreamStarted? ==> call.SetCallbackHandler? || call == AbortPeerStream
    ensures ev.PeerStreamStarted? && call == AbortPeerStream ==>
              (forall j :: 0 <= j < c.recv.Length ==> old(c.recv[j]).state != Free)
              && (forall j :: 0 <= j < c.recv.Length ==> c.recv[j] == old(c.recv[j]))
    ensures ev.PeerStreamStarted? && call.SetCallbackHandler? ==>
              var k := call.recvSlot;
              && k < c.recv.Length && old(c.recv[k]).state == Free
              && (forall j :: 0 <= j < k ==> old(c.recv[j]).state != Free)
              && c.recv[k] == old(c.recv[k]).(state := InUse, sizeCur := 0)
              && (forall j :: 0 <= j < c.recv.Length && j != k ==> c.recv[j] == old(c.recv[j]))
  {
    match ev
    case Connected(h) =>
      OnConnected(c, h);
      call := NoConnectionCall;
    case ConnectionShutdownComplete(h) =>
      call := OnConnectionShutdownComplete(c, h);
    case PeerStreamStarted =>
      call := OnPeerStreamStarted(c);
    case ShutdownInitiatedByPeer(h) =>
      call := OnShutdownInitiated(c, h);
    case ShutdownInitiatedByTransport(h) =>
      call := OnShutdownInitiated(c, h);
    case Resumed =>
      call := NoConnectionCall;
    case OtherConnectionEvent =>
      call := NoConnectionCall;
  }

  // ---------------------------------------------------------------------------
  // Stream events on one slot
  // ---------------------------------------------------------------------------

  /** The QUIC_STREAM_EVENT types the callback distinguishes. */
  datatype StreamEvent =
    | SendComplete
    | Receive(fragments: seq<seq<Byte>>)
    | PeerSendAborted
    | PeerSendShutdown
    | StreamShutdownComplete
    | OtherStreamEvent

  /** The call a stream event makes into the transport, if any. */
  datatype StreamCall = NoStreamCall | ShutdownGraceful | ShutdownAbort | StreamClose

  /**
   * One fragment of RECEIVE: when the bytes would not fit, the buffer is
   * grown to exactly the new size; the fragment is copied after the bytes
   * already held.
   */
  function Append(s: Slot, f: seq<Byte>): (r: Slot)
    requires RecvSlotValid(s)
    ensures RecvSlotValid(r)
  {
    var next := s.sizeCur + |f|;
    var t := if next > s.sizeMax then Reserve(s, next) else s;
    if t.buffer.None? then t.(sizeCur := next)
    else t.(buffer := Some(Overwrite(t.buffer.value, s.sizeCur, f)), sizeCur := next)
  }

  /** The realloc of a receive slot to a larger capacity `n`: the bytes held are kept. */
  function Reserve(s: Slot, n: nat): (r: Slot)
    requires RecvSlotValid(s) && s.sizeMax <= n
    ensures RecvSlotValid(r) && r.buffer.Some? && r.sizeMax == n
    ensures r.buffer.value[..s.sizeCur] == Held(s)
    ensures r.state == s.state && r.sizeCur == s.sizeCur && r.quicLength == s.quicLength
  {
    s.(buffer := Some(Grow(if s.buffer.Some? then s.buffer.value else [], n)), sizeMax := n)
  }

  /** RECEIVE: the fragments appended in order. */
  function ReceiveAll(s: Slot, fragments: seq<seq<Byte>>): (r: Slot)
    requires RecvSlotValid(s)
    ensures RecvSlotValid(r)
    decreases |fragments|
  {
    if fragments == [] then s else ReceiveAll(Append(s, fragments[0]), fragments[1..])
  }

  /** All bytes of a sequence of fragments, in order. */
  function Flatten(fragments: seq<seq<Byte>>): (r: seq<Byte>)
    ensures fragments == [] ==> r == []
  {
    if fragments == [] then [] else fragments[0] + Flatten(fragments[1..])
  }

  /** One fragment keeps the bytes held, adds the fragment after them and grows capacity only as needed. */
  lemma AppendHeld(s: Slot, f: seq<Byte>)
    requires RecvSlotValid(s)
    ensures Held(Append(s, f)) == Held(s) + f
    ensures Append(s, f).sizeCur == s.sizeCur + |f|
    ensures Append(s, f).sizeMax == if s.sizeCur + |f| > s.sizeMax then s.sizeCur + |f| else s.sizeMax
    ensures Append(s, f).state == s.state && Append(s, f).quicLength == s.quicLength
  {
    var next := s.sizeCur + |f|;
    var r := Append(s, f);
    if r.buffer.Some? {
      var t := if next > s.sizeMax then Reserve(s, next).buffer.value else s.buffer.value;
      assert t[..s.sizeCur] == Held(s);
      var w := Overwrite(t, s.sizeCur, f);
      assert w[..next] == w[..s.sizeCur] + w[s.sizeCur..next];
    }
  }

  /**
   * RECEIVE appends the fragments, in order, after the bytes already held;
   * us_SizeCur grows by their total length; capacity becomes the larger of
   * the old capacity and the new size; the state does not change.
   */
  lemma {:induction false} ReceiveAllAppends(s: Slot, fragments: seq<seq<Byte>>)
    requires RecvSlotValid(s)
    ensures Held(ReceiveAll(s, fragments)) == Held(s) + Flatten(fragments)
    ensures ReceiveAll(s, fragments).sizeCur == s.sizeCur + |Flatten(fragments)|
    ensures ReceiveAll(s, fragments).sizeMax
            == if s.sizeCur + |Flatten(fragments)| > s.sizeMax then s.sizeCur + |Flatten(fragments)| else s.sizeMax
    ensures ReceiveAll(s, fragments).state == s.state
    ensures ReceiveAll(s, fragments).quicLength == s.quicLength
    decreases |fragments|
  {
    if fragments != [] {
      AppendHeld(s, fragments[0]);
      ReceiveAllAppends(Append(s, fragments[0]), fragments[1..]);
    }
  }

  /** SEND_COMPLETE: the slot is FREE again with nothing held. */
  function AfterSendComplete(s: Slot): (r: Slot)
    ensures r.state == Free && r.sizeCur == 0
    ensures r.buffer == s.buffer && r.sizeMax == s.sizeMax
  {
    s.(sizeCur := 0, state := Free)
  }

  /**
   * MRH_MsQuicStreamCallback on the slot its context points to, slot `i` of
   * array `a` (a receive slot, or a send slot for SEND_COMPLETE). RECEIVE is
   * the loop over the event's fragments.
   */
  method StreamCallback(a: array<Slot>, i: nat, ev: StreamEvent) returns (call: StreamCall)
    requires i < a.Length && SlotValid(a[i])
    requires ev.Receive? ==> RecvSlotValid(a[i])
    modifies a
    ensures forall j :: 0 <= j < a.Length && j != i ==> a[j] == old(a[j])
    ensures SlotValid(a[i]) && (RecvSlotValid(old(a[i])) ==> RecvSlotValid(a[i]))
    ensures ev.SendComplete? ==> a[i] == AfterSendComplete(old(a[i])) && call == ShutdownGraceful
    ensures ev.Receive? ==> a[i] == ReceiveAll(old(a[i]), ev.fragments) && call == NoStreamCall
    ensures ev.PeerSendAborted? ==> a[i] == old(a[i]).(state := Free) && call == ShutdownAbort
    ensures ev.PeerSendShutdown? ==> a[i] == old(a[i]).(state := Complete) && call == ShutdownGraceful
    ensures ev.StreamShutdownComplete? ==> a[i] == old(a[i]) && call == StreamClose
    ensures ev.OtherStreamEvent? ==> a[i] == old(a[i]) && call == NoStreamCall
  {
    match ev
    case SendComplete =>
      a[i] := a[i].(sizeCur := 0, state := Free);
      call := ShutdownGraceful;
    case Receive(fragments) =>
      OnReceive(a, i, fragments);
      call := NoStreamCall;
    case PeerSendAborted =>
      a[i] := a[i].(state := Free);
      call := ShutdownAbort;
    case PeerSendShutdown =>
      a[i] := a[i].(state := Complete);
      call := ShutdownGraceful;
    case StreamShutdownComplete =>
      call := StreamClose;
    case OtherStreamEvent =>
      call := NoStreamCall;
  }

  /**
   * The RECEIVE loop: grow when needed, copy the fragment, advance
   * us_SizeCur. The slot is worked on as a value and stored back once; no
   * other code runs on it in between.
   */
  method OnReceive(a: array<Slot>, i: nat, fragments: seq<seq<Byte>>)
    requires i < a.Length && RecvSlotValid(a[i])
    modifies a
    ensures forall j :: 0 <= j < a.Length && j != i ==> a[j] == old(a[j])
    ensures RecvSlotValid(a[i]) && a[i] == ReceiveAll(old(a[i]), fragments)
  {
    var s := a[i];
    var rest := fragments;
    while rest != []
      invariant RecvSlotValid(s)
      invariant ReceiveAll(s, rest) == ReceiveAll(old(a[i]), fragments)
      modifies {}
      decreases |rest|
    {
      var f := rest[0];
      var next := s.sizeCur + |f|;
      var t := s;
      if next > s.sizeMax {
        t := Reserve(s, next);
      }
      if t.buffer.Some? {
        t := t.(buffer := Some(Overwrite(t.buffer.value, s.sizeCur, f)));
      }
      t := t.(sizeCur := next);
      assert t == Append(s, f);
      s := t;
      rest := rest[1..];
    }
    a[i] := s;
  }
}

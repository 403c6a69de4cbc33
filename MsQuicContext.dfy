/**
 * The per-server slot pool (MRH_MsQuicContext.h, MRH_MsQuicContext.c): a
 * connection handle and two embedded arrays of 32 message slots, one for
 * received and one for sent messages.
 */
module MsQuicContext {
  import opened Wrappers
  import opened Bytes
  import opened Sizes

  /** MRH_MSQ_MessageState. */
  datatype SlotState = Free | InUse | Complete

  /**
   * MRH_MsQuicMessage. `buffer` is p_Buffer: None for NULL, otherwise the
   * allocated bytes. `quicLength` is the Length field of the QUIC_BUFFER
   * header a send stores in the buffer's first 16 bytes; the header's pointer
   * is not modelled, so those 16 bytes are left as they are.
   */
  datatype Slot = Slot(state: SlotState, buffer: Option<seq<Byte>>, sizeCur: nat, sizeMax: nat,
                       quicLength: nat)

  /** A slot as MRH_MsQuicCreateConnection initialises it. */
  const FreshSlot: Slot := Slot(Free, None, 0, 0, 0)

  /**
   * A present buffer holds us_SizeMax bytes. (A send whose realloc fails
   * leaves p_Buffer NULL with the old us_SizeMax and us_SizeCur, so nothing
   * more holds for every send slot.)
   */
  predicate SlotValid(s: Slot)
  {
    s.buffer.Some? ==> |s.buffer.value| == s.sizeMax
  }

  /**
   * A receive slot holds us_SizeCur <= us_SizeMax bytes and only gains a
   * buffer by growing it, so a slot without one has capacity 0.
   */
  predicate RecvSlotValid(s: Slot)
  {
    SlotValid(s) && s.sizeCur <= s.sizeMax && (s.buffer.None? ==> s.sizeMax == 0)
  }

  /** The bytes a slot holds: the first us_SizeCur bytes of its buffer. */
  function Held(s: Slot): (r: seq<Byte>)
    requires SlotValid(s) && s.sizeCur <= s.sizeMax
    ensures s.buffer.Some? ==> |r| == s.sizeCur
    ensures RecvSlotValid(s) ==> |r| == s.sizeCur
  {
    if s.buffer.Some? then s.buffer.value[..s.sizeCur] else []
  }

  /** realloc to a larger size: the old bytes, then new bytes that are always
      written before they are read (zero here). */
  function Grow(b: seq<Byte>, n: nat): (r: seq<Byte>)
    requires |b| <= n
    ensures |r| == n && r[..|b|] == b
  {
    b + seq(n - |b|, _ => 0)
  }

  /** MRH_MsQuicConnection. */
  class Connection {
    /** p_Connection: the transport connection handle, None for NULL. */
    var handle: Option<nat>
    /** p_Recieved and p_Send. */
    const recv: array<Slot>
    const send: array<Slot>

    ghost predicate Valid()
      reads this, recv, send
    {
      && recv.Length == MessageBufferCount
      && send.Length == MessageBufferCount
      && recv != send
      && (forall i :: 0 <= i < recv.Length ==> RecvSlotValid(recv[i]))
      && (forall i :: 0 <= i < send.Length ==> SlotValid(send[i]))
    }

    /** The body of MRH_MsQuicCreateConnection after a successful malloc. */
    constructor ()
      ensures Valid() && handle.None?
      ensures forall i :: 0 <= i < MessageBufferCount ==> recv[i] == FreshSlot && send[i] == FreshSlot
      ensures fresh(recv) && fresh(send)
    {
      handle := None;
      var r := new Slot[MessageBufferCount];
      var s := new Slot[MessageBufferCount];
      var i := 0;
      while i < MessageBufferCount
        invariant 0 <= i <= MessageBufferCount
        invariant forall j :: 0 <= j < i ==> r[j] == FreshSlot && s[j] == FreshSlot
      {
        r[i] := FreshSlot;
        s[i] := FreshSlot;
        i := i + 1;
      }
      recv := r;
      send := s;
    }
  }

  /**
   * MRH_MsQuicCreateConnection. `mallocOk` is whether malloc succeeded. The
   * failure flag i_Failed keeps its initial -1 throughout, so the source's
   * branch that destroys the connection again is never taken and the
   * connection is returned whenever it was allocated.
   */
  method CreateConnection(mallocOk: bool) returns (c: Connection?)
    ensures c != null <==> mallocOk
    ensures c != null ==> fresh(c) && fresh(c.recv) && fresh(c.send) && c.Valid() && c.handle.None?
    ensures c != null ==> forall i :: 0 <= i < MessageBufferCount ==>
              c.recv[i] == FreshSlot && c.send[i] == FreshSlot
  {
    if !mallocOk {
      return null;
    }
    c := new Connection();
  }

  /**
   * MRH_MsQuicDestroyConnection. When a handle is present the connection is
   * asked to shut down (`shutdownRequested`) and destruction waits until the
   * connection callback clears the handle; the model takes that wait as
   * finished. Then every present buffer of both arrays is released, and the
   * freed slots' indices are reported.
   */
  method DestroyConnection(c: Connection) returns (shutdownRequested: bool, freedRecv: set<nat>, freedSend: set<nat>)
    requires c.Valid()
    modifies c, c.recv, c.send
    ensures shutdownRequested <==> old(c.handle).Some?
    ensures c.handle.None?
    ensures freedRecv == set i | 0 <= i < MessageBufferCount && old(c.recv[i]).buffer.Some?
    ensures freedSend == set i | 0 <= i < MessageBufferCount && old(c.send[i]).buffer.Some?
    ensures forall i :: 0 <= i < MessageBufferCount ==>
              c.recv[i] == old(c.recv[i]).(buffer := None) && c.send[i] == old(c.send[i]).(buffer := None)
  {
    shutdownRequested := false;
    if c.handle.Some? {
      shutdownRequested := true;
      c.handle := None;
    }
    freedRecv, freedSend := {}, {};
    var i := 0;
    while i < MessageBufferCount
      invariant 0 <= i <= MessageBufferCount
      invariant freedRecv == set j | 0 <= j < i && old(c.recv[j]).buffer.Some?
      invariant freedSend == set j | 0 <= j < i && old(c.send[j]).buffer.Some?
      invariant forall j :: 0 <= j < i ==>
                  c.recv[j] == old(c.recv[j]).(buffer := None) && c.send[j] == old(c.send[j]).(buffer := None)
      invariant forall j :: i <= j < MessageBufferCount ==> c.recv[j] == old(c.recv[j]) && c.send[j] == old(c.send[j])
      invariant c.handle.None?
    {
      if c.recv[i].buffer.Some? {
        c.recv[i] := c.recv[i].(buffer := None);
        freedRecv := freedRecv + {i};
      }
      if c.send[i].buffer.Some? {
        c.send[i] := c.send[i].(buffer := None);
        freedSend := freedSend + {i};
      }
      i := i + 1;
    }
  }

  /**
   * The scan the send, receive and stream-start paths share: the lowest index
   * whose state is one of `accept`, or None when there is none.
   */
  method FindFirst(a: array<Slot>, accept: set<SlotState>) returns (found: Option<nat>)
    ensures found.Some? ==> found.value < a.Length && a[found.value].state in accept
    ensures found.Some? ==> forall j :: 0 <= j < found.value ==> a[j].state !in accept
    ensures found.None? ==> forall j :: 0 <= j < a.Length ==> a[j].state !in accept
  {
    var i := 0;
    while i < a.Length
      invariant 0 <= i <= a.Length
      invariant forall j :: 0 <= j < i ==> a[j].state !in accept
    {
      if a[i].state in accept {
        return Some(i);
      }
      i := i + 1;
    }
    return None;
  }
}

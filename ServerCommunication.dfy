/**
 * Sending and receiving over a server's slot pool, and decoding a received
 * buffer (MRH_ServerCommunication.c).
 *
 * Every operation reports the error it sets in the last-error register as
 * its result; storing that error is ErrorRegister.Set. Transport and
 * allocation outcomes, the host byte order, the secretbox and the random
 * nonce are inputs.
 */
module ServerCommunication {
  import opened Wrappers
  import opened Bytes
  import opened Sizes
  import opened NetMessage
  import opened NetMessageV1
  import opened Envelope
  import opened ServerError
  import opened MsQuicContext
  import opened MsQuic
  import opened ServerTypes

  // ---------------------------------------------------------------------------
  // Connection state
  // ---------------------------------------------------------------------------

  /** MRH_SRV_IsConnected: 0 when a connection handle is present, -1 otherwise. */
  method IsConnected(server: Server?) returns (r: int)
    ensures server == null ==> r == -1
    ensures server != null ==> (r == 0 <==> server.msquic.handle.Some?)
    ensures r == 0 || r == -1
  {
    if server == null {
      return -1;
    }
    r := if server.msquic.handle.Some? then 0 else -1;
  }

  /**
   * MRH_SRV_Disconnect: asks the transport to shut the connection down when
   * one is present. The handle is cleared later, by SHUTDOWN_COMPLETE; the
   * optional wait for that is not modelled.
   */
  method Disconnect(server: Server?) returns (shutdownRequested: bool)
    ensures shutdownRequested <==> server != null && server.msquic.handle.Some?
  {
    shutdownRequested := server != null && server.msquic.handle.Some?;
  }

  // ---------------------------------------------------------------------------
  // The message a send carries
  // ---------------------------------------------------------------------------

  /** The kinds SendMessage has a case for. */
  predicate Sendable(kind: int)
  {
    kind == MsgAuthRequest || kind == MsgAuthProof || kind == MsgDataAvail
    || kind == MsgText || kind == MsgLocation || kind == MsgCustom
  }

  /** The kinds sent and received under the secretbox. */
  predicate Encrypted(kind: int)
  {
    kind == MsgText || kind == MsgLocation || kind == MsgCustom
  }

  /** The fields FROM_ writes after the tag, for a sendable kind. */
  function EncodeFields(kind: int, data: Payload, bigEndian: bool): (r: seq<Byte>)
    requires Sendable(kind) && MatchesKind(kind, data) && WellFormed(data)
    ensures |r| <= CustomBufferSize
  {
    if kind == MsgAuthRequest then FromAuthRequest(data)
    else if kind == MsgAuthProof then FromAuthProof(data)
    else if kind == MsgDataAvail then data.encoded
    else if kind == MsgText then FromText(data, bigEndian)
    else if kind == MsgLocation then FromLocation(data, bigEndian)
    else FromCustom(data)
  }

  /** p_MessageBuffer: the tag, then the fields; us_MessageSize is its length. */
  function Message(kind: int, data: Payload, bigEndian: bool): (r: seq<Byte>)
    requires Sendable(kind) && MatchesKind(kind, data) && WellFormed(data)
    ensures 1 <= |r| <= MessageBufferMax
    ensures r[0] == kind && r[1..] == EncodeFields(kind, data, bigEndian)
  {
    [kind as Byte] + EncodeFields(kind, data, bigEndian)
  }

  /** The inputs SendMessage takes from outside: host, secretbox, nonce, and each call's success. */
  datatype SendEnv = SendEnv(bigEndian: bool, cipher: Cipher, nonce: seq<Byte>, reallocOk: bool,
                             streamOpenOk: bool, streamStartOk: bool, streamSendOk: bool)

  /** A 24-byte nonce and a secretbox that keeps its contract. */
  ghost predicate EnvValid(env: SendEnv)
  {
    |env.nonce| == SecretboxNonceSize && Sound(env.cipher)
  }

  predicate PasswordValid(password: Option<seq<Byte>>)
  {
    password.Some? ==> |password.value| >= SecretboxKeySize
  }

  /**
   * The payload the stream carries for a sent message: the message as is, or
   * its tag in the clear followed by nonce ‖ MAC ‖ ciphertext of the rest.
   * None when sealing fails.
   */
  function Wire(kind: int, data: Payload, password: Option<seq<Byte>>, env: SendEnv): (r: Option<seq<Byte>>)
    requires Sendable(kind) && MatchesKind(kind, data) && WellFormed(data)
    requires EnvValid(env) && PasswordValid(password)
    requires Encrypted(kind) ==> password.Some?
    ensures !Encrypted(kind) ==> r == Some(Message(kind, data, env.bigEndian))
    ensures r.Some? ==> |r.value| >= 1 && r.value[0] == kind
  {
    var msg := Message(kind, data, env.bigEndian);
    if !Encrypted(kind) then Some(msg)
    else
      match Encrypt(env.cipher, env.nonce, msg[1..], password)
      case None => None
      case Some(enc) => Some([msg[0]] + enc)
  }

  /** us_BufferSize: the QUIC_BUFFER header and the payload. */
  function BufferSize(kind: int, messageSize: nat): (r: nat)
    ensures r == QuicBufferHeaderSize + (if Encrypted(kind) then messageSize + 40 else messageSize)
  {
    QuicBufferHeaderSize + (if Encrypted(kind) then GetEncryptedSize(messageSize) else messageSize)
  }

  // ---------------------------------------------------------------------------
  // One send on a reserved slot
  // ---------------------------------------------------------------------------

  /** A slot's new value and the error set, if any. */
  datatype Outcome = Outcome(slot: Slot, error: Option<ErrorKind>)

  /**
   * The capacity check: a slot with no buffer or too little capacity is
   * reallocated to exactly `size`; a failed realloc is None.
   */
  function EnsureCapacity(s: Slot, size: nat, reallocOk: bool): (r: Option<Slot>)
    requires SlotValid(s)
    ensures r.Some? ==> SlotValid(r.value) && r.value.buffer.Some? && r.value.sizeMax >= size
  {
    if s.buffer.None? || s.sizeMax < size then
      if reallocOk then Some(s.(buffer := Some(Grow(if s.buffer.Some? then s.buffer.value else [], size)), sizeMax := size))
      else None
    else Some(s)
  }

  /** Opening, starting and sending on the stream: each failure frees the slot. */
  function Launch(t: Slot, env: SendEnv): (o: Outcome)
    ensures o.error.None? <==> env.streamOpenOk && env.streamStartOk && env.streamSendOk
    ensures o.error.None? ==> o.slot == t
    ensures o.error.Some? ==> o.slot == t.(state := Free) && o.error.value in {StreamCreate, StreamStart, StreamSend}
  {
    if !env.streamOpenOk then Outcome(t.(state := Free), Some(StreamCreate))
    else if !env.streamStartOk then Outcome(t.(state := Free), Some(StreamStart))
    else if !env.streamSendOk then Outcome(t.(state := Free), Some(StreamSend))
    else Outcome(t, None)
  }

  /** SendMessage from the point where slot `s` has been reserved. */
  function SendOnSlot(s: Slot, kind: int, data: Payload, password: Option<seq<Byte>>, env: SendEnv): (o: Outcome)
    requires SlotValid(s) && MatchesKind(kind, data) && WellFormed(data)
    requires EnvValid(env) && PasswordValid(password)
    ensures SlotValid(o.slot)
  {
    if !Sendable(kind) then Outcome(s.(state := Free), Some(SendInvalidMessage))
    else if Encrypted(kind) && password.None? then Outcome(s, Some(InvalidParam))
    else
      var msg := Message(kind, data, env.bigEndian);
      var size := BufferSize(kind, |msg|);
      match EnsureCapacity(s, size, env.reallocOk)
      case None => Outcome(s.(buffer := None, state := Free), Some(Malloc))
      case Some(t) =>
        var b := t.buffer.value;
        if Encrypted(kind) then
          match Encrypt(env.cipher, env.nonce, msg[1..], password)
          case None =>
            Outcome(t.(buffer := Some(Overwrite(b, QuicBufferHeaderSize, [msg[0]] + env.nonce)), state := Free),
                    Some(EncryptionFailed))
          case Some(enc) =>
            EncryptedSize(env.cipher, env.nonce, msg[1..], password);
            Launch(t.(buffer := Some(Overwrite(b, QuicBufferHeaderSize, [msg[0]] + enc)),
                      sizeCur := size, quicLength := size - QuicBufferHeaderSize), env)
        else
          Launch(t.(buffer := Some(Overwrite(b, QuicBufferHeaderSize, msg)),
                    sizeCur := size, quicLength := size - QuicBufferHeaderSize), env)
  }

  /**
   * Every failure after the reservation frees the slot, except a missing
   * password for an encrypted kind, which leaves it IN_USE; a send that
   * succeeds leaves it IN_USE for SEND_COMPLETE to free.
   */
  lemma SendOnSlotReleases(s: Slot, kind: int, data: Payload, password: Option<seq<Byte>>, env: SendEnv)
    requires SlotValid(s) && s.state == InUse && MatchesKind(kind, data) && WellFormed(data)
    requires EnvValid(env) && PasswordValid(password)
    ensures var o := SendOnSlot(s, kind, data, password, env);
            && (o.error.None? ==> o.slot.state == InUse)
            && (o.error == Some(InvalidParam) ==> o.slot == s)
            && (o.error.Some? && o.error != Some(InvalidParam) ==> o.slot.state == Free)
            && (o.error == Some(InvalidParam) <==> Sendable(kind) && Encrypted(kind) && password.None?)
  {
    if Sendable(kind) && !(Encrypted(kind) && password.None?) {
      var msg := Message(kind, data, env.bigEndian);
      var size := BufferSize(kind, |msg|);
      var t := EnsureCapacity(s, size, env.reallocOk);
      if t.Some? && Encrypted(kind) {
        var enc := Encrypt(env.cipher, env.nonce, msg[1..], password);
        if enc.Some? {
          EncryptedSize(env.cipher, env.nonce, msg[1..], password);
        }
      }
    }
  }

  /**
   * A successful send holds the header and then the wire payload: the tag in
   * the clear at payload offset 0, followed by the fields (plain kinds) or by
   * 40 bytes more than the fields (encrypted kinds). The QUIC_BUFFER Length
   * is the payload length.
   */
  lemma SendOnSlotLayout(s: Slot, kind: int, data: Payload, password: Option<seq<Byte>>, env: SendEnv)
    requires SlotValid(s) && MatchesKind(kind, data) && WellFormed(data)
    requires EnvValid(env) && PasswordValid(password) && Sound(env.cipher)
    requires SendOnSlot(s, kind, data, password, env).error.None?
    ensures var o := SendOnSlot(s, kind, data, password, env);
            var fields := |EncodeFields(kind, data, env.bigEndian)|;
            && Sendable(kind) && (Encrypted(kind) ==> password.Some?)
            && Wire(kind, data, password, env).Some?
            && o.slot.sizeCur <= o.slot.sizeMax && o.slot.buffer.Some?
            && Held(o.slot)[QuicBufferHeaderSize..] == Wire(kind, data, password, env).value
            && o.slot.quicLength == |Wire(kind, data, password, env).value|
            && o.slot.quicLength == (if Encrypted(kind) then 1 + fields + 40 else 1 + fields)
            && o.slot.sizeCur == QuicBufferHeaderSize + o.slot.quicLength
  {
    var msg := Message(kind, data, env.bigEndian);
    if Encrypted(kind) {
      EncryptedSize(env.cipher, env.nonce, msg[1..], password);
    }
  }

  /**
   * Capacity is raised to exactly the needed size when the slot has no
   * buffer or too little room, and never shrinks: the buffer a successful
   * send leaves is at least as long as the one it found.
   */
  lemma SendOnSlotCapacity(s: Slot, kind: int, data: Payload, password: Option<seq<Byte>>, env: SendEnv)
    requires SlotValid(s) && MatchesKind(kind, data) && WellFormed(data)
    requires EnvValid(env) && PasswordValid(password)
    requires SendOnSlot(s, kind, data, password, env).error.None?
    ensures var o := SendOnSlot(s, kind, data, password, env);
            var size := o.slot.sizeCur;
            && o.slot.buffer.Some?
            && (s.buffer.Some? ==> |o.slot.buffer.value| >= |s.buffer.value|)
            && o.slot.sizeMax == (if s.buffer.None? || s.sizeMax < size then size else s.sizeMax)
  {
  }

  // ---------------------------------------------------------------------------
  // SendMessage
  // ---------------------------------------------------------------------------

  /**
   * MRH_SRV_SendMessage. `reserved` is the send slot the call took, `error`
   * the error it set (None for success).
   */
  method SendMessage(server: Server?, kind: int, data: Payload, password: Option<seq<Byte>>, env: SendEnv)
    returns (reserved: Option<nat>, error: Option<ErrorKind>)
    requires server != null ==> server.Valid()
    requires MatchesKind(kind, data) && WellFormed(data)
    requires EnvValid(env) && PasswordValid(password)
    modifies if server != null then {server.msquic.send} else {}
    ensures server != null ==> server.Valid()
    ensures server == null ==> reserved.None? && error == Some(InvalidParam)
    ensures server != null && server.msquic.handle.None? ==> reserved.None? && error == Some(SendDisconnected)
    ensures reserved.None? && server != null ==>
              (forall j :: 0 <= j < server.msquic.send.Length ==> server.msquic.send[j] == old(server.msquic.send[j]))
    ensures reserved.None? && server != null && server.msquic.handle.Some? ==>
              error == Some(SendQueueFull)
              && (forall j :: 0 <= j < server.msquic.send.Length ==> server.msquic.send[j].state == InUse)
    ensures reserved.Some? ==>
              var k := reserved.value;
              && server != null && server.msquic.handle.Some?
              && k < server.msquic.send.Length
              && old(server.msquic.send[k]).state in {Free, Complete}
              && (forall j :: 0 <= j < k ==> old(server.msquic.send[j]).state == InUse)
              && server.msquic.send[k] == SendOnSlot(old(server.msquic.send[k]).(state := InUse), kind, data, password, env).slot
              && error == SendOnSlot(old(server.msquic.send[k]).(state := InUse), kind, data, password, env).error
              && (forall j :: 0 <= j < server.msquic.send.Length && j != k ==>
                    server.msquic.send[j] == old(server.msquic.send[j]))
  {
    if server == null {
      return None, Some(InvalidParam);
    }
    var c := server.msquic;
    if c.handle.None? {
      return None, Some(SendDisconnected);
    }
    var found := FindFirst(c.send, {Free, Complete});
    if found.None? {
      return None, Some(SendQueueFull);
    }
    var k := found.value;
    c.send[k] := c.send[k].(state := InUse);
    var o := SendOnSlot(c.send[k], kind, data, password, env);
    c.send[k] := o.slot;
    return Some(k), o.error;
  }

  // ---------------------------------------------------------------------------
  // Receiving
  // ---------------------------------------------------------------------------

  /** The tags RecieveMessage decrypts. */
  predicate EncryptedTag(tag: Byte)
  {
    tag == MsgText || tag == MsgLocation || tag == MsgCustom
  }

  /** What RecieveMessage returns for a slot: the kind, the bytes written to p_Buffer from 0, and the error set. */
  datatype Delivery = Delivery(kind: Byte, written: seq<Byte>, error: Option<ErrorKind>)

  /**
   * The tag as RecieveMessage reads it: p_Buffer[0] of the slot, whatever
   * us_SizeCur says. None marks a read through a NULL or empty buffer.
   */
  function TagAsWritten(s: Slot): (r: Option<Byte>)
    ensures r.Some? <==> s.buffer.Some? && |s.buffer.value| > 0
  {
    if s.buffer.Some? && |s.buffer.value| > 0 then Some(s.buffer.value[0]) else None
  }

  /**
   * A peer that opens a stream and ends it without sending a byte leaves a
   * COMPLETE slot whose tag read goes through a NULL buffer (fresh slot) or
   * returns a byte of an earlier message (reused slot).
   */
  lemma EmptyStreamTag(old_: Slot)
    requires RecvSlotValid(old_) && old_.state == Free
    ensures var done := old_.(state := InUse, sizeCur := 0).(state := Complete);
            && done.state == Complete && Held(done) == []
            && (old_ == FreshSlot ==> TagAsWritten(done).None?)
            && (old_.buffer.Some? && old_.sizeMax > 0 ==> TagAsWritten(done) == Some(old_.buffer.value[0]))
  {
  }

  /**
   * The copy-out for the consumed slot as the receive is meant to work: an
   * empty message yields UNK; the encrypted tags are opened with Decrypt
   * over exactly the bytes after the tag (failure: UNK in byte 0); anything
   * else is copied whole, us_SizeCur bytes.
   */
  function Deliver(s: Slot, password: Option<seq<Byte>>, cipher: Cipher): (d: Delivery)
    requires RecvSlotValid(s) && PasswordValid(password)
    ensures Held(s) == [] ==> d == Delivery(MsgUnk, [], None)
    ensures d.error.Some? ==> d.kind == MsgUnk && d.written == [MsgUnk] && d.error == Some(EncryptionFailed)
    ensures Held(s) != [] && !EncryptedTag(Held(s)[0]) ==> d == Delivery(Held(s)[0], Held(s), None)
    ensures Held(s) != [] && d.error.None? ==> d.kind == Held(s)[0] && |d.written| >= 1 && d.written[0] == d.kind
  {
    var held := Held(s);
    if held == [] then Delivery(MsgUnk, [], None)
    else if EncryptedTag(held[0]) then
      match Decrypt(cipher, held[1..], password)
      case None => Delivery(MsgUnk, [MsgUnk], Some(EncryptionFailed))
      case Some(m) => Delivery(held[0], [held[0]] + m, None)
    else Delivery(held[0], held, None)
  }

  /**
   * The copy-out as RecieveMessage writes it. The encrypted tags are opened
   * by DecryptAsWritten with us_SizeCur - 1 as the size, so the box handed
   * to open runs 40 bytes past the held ones: into the rest of the
   * allocation and then `beyond`, the memory after it. None where the
   * behaviour is undefined: an empty message, whose tag is read through a
   * NULL buffer or from an earlier message (see TagAsWritten).
   */
  function DeliverAsWritten(s: Slot, password: Option<seq<Byte>>, cipher: Cipher, beyond: seq<Byte>)
    : (d: Option<Delivery>)
    requires RecvSlotValid(s) && PasswordValid(password)
    requires |beyond| >= SecretboxNonceSize + SecretboxMacSize
    ensures d.Some? <==> Held(s) != []
    ensures Held(s) != [] && !EncryptedTag(Held(s)[0]) ==> d == Some(Deliver(s, password, cipher))
    ensures d.Some? && d.value.error.Some? ==> d.value == Delivery(MsgUnk, [MsgUnk], Some(EncryptionFailed))
    ensures d.Some? && d.value.error.None? ==>
              d.value.kind == Held(s)[0] && |d.value.written| >= 1 && d.value.written[0] == d.value.kind
  {
    var held := Held(s);
    if held == [] then None
    else if EncryptedTag(held[0]) then
      match DecryptAsWritten(cipher, held[1..], |held| - 1, s.buffer.value[s.sizeCur..] + beyond, password)
      case None => Some(Delivery(MsgUnk, [MsgUnk], Some(EncryptionFailed)))
      case Some(m) => Some(Delivery(held[0], [held[0]] + m, None))
    else Some(Delivery(held[0], held, None))
  }

  /**
   * MRH_SRV_RecieveMessage: consumes the lowest-index COMPLETE receive slot,
   * frees it whatever the copy-out gave, and returns its delivery as written;
   * with none COMPLETE it returns UNK and changes nothing. `beyond` is the
   * memory after the consumed slot's allocation.
   */
  method RecieveMessage(server: Server?, password: Option<seq<Byte>>, cipher: Cipher, beyond: seq<Byte>)
    returns (consumed: Option<nat>, d: Option<Delivery>)
    requires server != null ==> server.Valid()
    requires PasswordValid(password) && |beyond| >= SecretboxNonceSize + SecretboxMacSize
    modifies if server != null then {server.msquic.recv} else {}
    ensures server != null ==> server.Valid()
    ensures server == null ==> consumed.None? && d == Some(Delivery(MsgUnk, [], Some(InvalidParam)))
    ensures consumed.None? && server != null ==>
              d == Some(Delivery(MsgUnk, [], None))
              && (forall j :: 0 <= j < server.msquic.recv.Length ==>
                    server.msquic.recv[j] == old(server.msquic.recv[j]) && server.msquic.recv[j].state != Complete)
    ensures consumed.Some? ==>
              var k := consumed.value;
              && server != null && k < server.msquic.recv.Length
              && old(server.msquic.recv[k]).state == Complete
              && (forall j :: 0 <= j < k ==> old(server.msquic.recv[j]).state != Complete)
              && d == DeliverAsWritten(old(server.msquic.recv[k]), password, cipher, beyond)
              && server.msquic.recv[k] == old(server.msquic.recv[k]).(state := Free)
              && (forall j :: 0 <= j < server.msquic.recv.Length && j != k ==>
                    server.msquic.recv[j] == old(server.msquic.recv[j]))
  {
    if server == null {
      return None, Some(Delivery(MsgUnk, [], Some(InvalidParam)));
    }
    var c := server.msquic;
    var found := FindFirst(c.recv, {Complete});
    if found.None? {
      return None, Some(Delivery(MsgUnk, [], None));
    }
    var k := found.value;
    d := DeliverAsWritten(c.recv[k], password, cipher, beyond);
    c.recv[k] := c.recv[k].(state := Free);
    consumed := Some(k);
  }

  // ---------------------------------------------------------------------------
  // Decoding a received buffer
  // ---------------------------------------------------------------------------

  /** The tags SetNetMessage has a decoder for. */
  predicate Decodable(tag: Byte)
  {
    tag == MsgAuthChallenge || tag == MsgAuthState || tag == MsgNoData
    || tag == MsgText || tag == MsgLocation || tag == MsgCustom
  }

  /**
   * MRH_SRV_SetNetMessage: decodes from offset 1 by the tag in byte 0, with
   * the location decoder as written. `textBefore` is the string field of the
   * struct decoded into, which the text decoder partly keeps. AUTH_STATE and
   * NO_DATA have no codec and carry the bytes from offset 1.
   */
  function SetNetMessage(buffer: seq<Byte>, textBefore: seq<Byte>, bigEndian: bool): (r: Result<Payload, ErrorKind>)
    requires |buffer| >= MessageBufferMax && |textBefore| == TextStringSize
    ensures r.Ok? <==> Decodable(buffer[0])
    ensures r.Err? ==> r.error == InvalidParam
    ensures r.Ok? ==> WellFormed(r.value) || r.value.AuthStateData? || r.value.NoDataData?
    ensures buffer[0] == MsgAuthChallenge ==> r == Ok(ToAuthChallenge(buffer[1..], bigEndian))
    ensures buffer[0] == MsgAuthState ==> r == Ok(AuthStateData(buffer[1..]))
    ensures buffer[0] == MsgNoData ==> r == Ok(NoDataData(buffer[1..]))
    ensures buffer[0] == MsgText ==> r == Ok(ToText(textBefore, buffer[1..], bigEndian))
    ensures buffer[0] == MsgLocation ==> r == Ok(ToLocationAsWritten(buffer[1..], bigEndian))
    ensures buffer[0] == MsgCustom ==> r == Ok(ToCustom(buffer[1..]))
  {
    var b := buffer[1..];
    var tag := buffer[0];
    if tag == MsgAuthChallenge then Ok(ToAuthChallenge(b, bigEndian))
    else if tag == MsgAuthState then Ok(AuthStateData(b))
    else if tag == MsgNoData then Ok(NoDataData(b))
    else if tag == MsgText then Ok(ToText(textBefore, b, bigEndian))
    else if tag == MsgLocation then Ok(ToLocationAsWritten(b, bigEndian))
    else if tag == MsgCustom then Ok(ToCustom(b))
    else Err(InvalidParam)
  }

  /** SetNetMessage with the location timestamp read where the encoder writes it. */
  function SetNetMessageCorrected(buffer: seq<Byte>, textBefore: seq<Byte>, bigEndian: bool)
    : (r: Result<Payload, ErrorKind>)
    requires |buffer| >= MessageBufferMax && |textBefore| == TextStringSize
    ensures r.Ok? <==> Decodable(buffer[0])
    ensures buffer[0] != MsgLocation ==> r == SetNetMessage(buffer, textBefore, bigEndian)
    ensures buffer[0] == MsgLocation ==> r == Ok(ToLocation(buffer[1..], bigEndian))
  {
    if buffer[0] == MsgLocation then Ok(ToLocation(buffer[1..], bigEndian))
    else SetNetMessage(buffer, textBefore, bigEndian)
  }

  // ---------------------------------------------------------------------------
  // End to end
  // ---------------------------------------------------------------------------

  /**
   * A receive slot that a stream started on and that then received the
   * payload in any split holds exactly that payload.
   */
  lemma StreamDeliversPayload(s: Slot, fragments: seq<seq<Byte>>)
    requires RecvSlotValid(s)
    ensures var r := ReceiveAll(s.(state := InUse, sizeCur := 0), fragments).(state := Complete);
            RecvSlotValid(r) && Held(r) == Flatten(fragments)
  {
    ReceiveAllAppends(s.(state := InUse, sizeCur := 0), fragments);
  }

  /**
   * With a sound secretbox and the sender's password, the slot holding a sent
   * payload delivers the sender's message, tag and fields, through the
   * corrected copy-out.
   */
  lemma DeliverWire(s: Slot, kind: int, data: Payload, password: Option<seq<Byte>>, env: SendEnv)
    requires RecvSlotValid(s) && Sound(env.cipher)
    requires Sendable(kind) && MatchesKind(kind, data) && WellFormed(data)
    requires EnvValid(env) && PasswordValid(password) && (Encrypted(kind) ==> password.Some?)
    requires Wire(kind, data, password, env).Some? && Held(s) == Wire(kind, data, password, env).value
    ensures Deliver(s, password, env.cipher) == Delivery(kind as Byte, Message(kind, data, env.bigEndian), None)
  {
    var msg := Message(kind, data, env.bigEndian);
    if Encrypted(kind) {
      var enc := Encrypt(env.cipher, env.nonce, msg[1..], password).value;
      assert Held(s)[1..] == enc;
      DecryptEncrypt(env.cipher, env.nonce, msg[1..], password);
      assert [msg[0]] + msg[1..] == msg;
    }
  }

  /**
   * As written, the receive never delivers an encrypted message the library
   * sent: the box it opens is 40 bytes longer than the sealed one.
   */
  lemma DeliverAsWrittenNeverDelivers(s: Slot, kind: int, data: Payload, password: Option<seq<Byte>>,
                                      env: SendEnv, beyond: seq<Byte>)
    requires RecvSlotValid(s) && Sound(env.cipher)
    requires Sendable(kind) && Encrypted(kind) && MatchesKind(kind, data) && WellFormed(data)
    requires EnvValid(env) && PasswordValid(password) && password.Some?
    requires Wire(kind, data, password, env).Some? && Held(s) == Wire(kind, data, password, env).value
    requires |beyond| >= SecretboxNonceSize + SecretboxMacSize
    ensures DeliverAsWritten(s, password, env.cipher, beyond) != Some(Delivery(kind as Byte, Message(kind, data, env.bigEndian), None))
  {
    var msg := Message(kind, data, env.bigEndian);
    var enc := Encrypt(env.cipher, env.nonce, msg[1..], password).value;
    var held := Held(s);
    assert held[1..] == enc;
    var after := s.buffer.value[s.sizeCur..] + beyond;
    DecryptAsWrittenNeverRecovers(env.cipher, env.nonce, msg[1..], after, password);
  }

  /** The unencrypted kinds reach the caller as written, exactly as sent. */
  lemma DeliverAsWrittenPlainWire(s: Slot, kind: int, data: Payload, password: Option<seq<Byte>>,
                                  env: SendEnv, beyond: seq<Byte>)
    requires RecvSlotValid(s) && Sound(env.cipher)
    requires Sendable(kind) && !Encrypted(kind) && MatchesKind(kind, data) && WellFormed(data)
    requires EnvValid(env) && PasswordValid(password)
    requires Wire(kind, data, password, env).Some? && Held(s) == Wire(kind, data, password, env).value
    requires |beyond| >= SecretboxNonceSize + SecretboxMacSize
    ensures DeliverAsWritten(s, password, env.cipher, beyond) == Some(Delivery(kind as Byte, Message(kind, data, env.bigEndian), None))
  {
    DeliverWire(s, kind, data, password, env);
  }

  /** A custom message sent, received through the corrected copy-out and decoded is the message sent. */
  lemma CustomEndToEnd(data: Payload, password: Option<seq<Byte>>, env: SendEnv, s: Slot,
                       fragments: seq<seq<Byte>>, textBefore: seq<Byte>)
    requires data.CustomData? && WellFormed(data) && Sound(env.cipher)
    requires EnvValid(env) && PasswordValid(password) && password.Some?
    requires Wire(MsgCustom, data, password, env).Some?
    requires RecvSlotValid(s) && Flatten(fragments) == Wire(MsgCustom, data, password, env).value
    requires |textBefore| == TextStringSize
    ensures var r := ReceiveAll(s.(state := InUse, sizeCur := 0), fragments).(state := Complete);
            var d := Deliver(r, password, env.cipher);
            && d.kind == MsgCustom && |d.written| == MessageBufferMax
            && SetNetMessage(d.written, textBefore, env.bigEndian) == Ok(data)
  {
    StreamDeliversPayload(s, fragments);
    var r := ReceiveAll(s.(state := InUse, sizeCur := 0), fragments).(state := Complete);
    DeliverWire(r, MsgCustom, data, password, env);
  }

  /**
   * A location sent, received through the corrected copy-out and decoded
   * into a 1024-byte buffer by the corrected decoder is the location sent.
   */
  lemma LocationEndToEnd(data: Payload, password: Option<seq<Byte>>, env: SendEnv, s: Slot,
                         fragments: seq<seq<Byte>>, rest: seq<Byte>, textBefore: seq<Byte>)
    requires data.LocationData? && WellFormed(data) && Sound(env.cipher)
    requires EnvValid(env) && PasswordValid(password) && password.Some?
    requires Wire(MsgLocation, data, password, env).Some?
    requires RecvSlotValid(s) && Flatten(fragments) == Wire(MsgLocation, data, password, env).value
    requires |rest| == MessageBufferMax - 25 && |textBefore| == TextStringSize
    ensures var r := ReceiveAll(s.(state := InUse, sizeCur := 0), fragments).(state := Complete);
            var d := Deliver(r, password, env.cipher);
            && d.kind == MsgLocation && |d.written| == 25
            && SetNetMessageCorrected(d.written + rest, textBefore, env.bigEndian) == Ok(data)
  {
    StreamDeliversPayload(s, fragments);
    var r := ReceiveAll(s.(state := InUse, sizeCur := 0), fragments).(state := Complete);
    DeliverWire(r, MsgLocation, data, password, env);
    DecodeLocationMessage(data, rest, textBefore, env.bigEndian);
  }

  /** The corrected decoder recovers a location message whatever fills the rest of the buffer. */
  lemma DecodeLocationMessage(data: Payload, rest: seq<Byte>, textBefore: seq<Byte>, bigEndian: bool)
    requires data.LocationData? && WellFormed(data)
    requires |rest| == MessageBufferMax - 25 && |textBefore| == TextStringSize
    ensures |Message(MsgLocation, data, bigEndian)| == 25
    ensures SetNetMessageCorrected(Message(MsgLocation, data, bigEndian) + rest, textBefore, bigEndian) == Ok(data)
  {
    var w := Message(MsgLocation, data, bigEndian) + rest;
    assert w[0] == MsgLocation;
    assert w[1..] == FromLocation(data, bigEndian) + rest;
    LocationRoundTrip(data, rest, bigEndian);
  }

  /**
   * As written, the decoded location keeps the four floats but takes its
   * timestamp from bytes 991..999 of whatever follows the message.
   */
  lemma DecodeLocationAsWritten(data: Payload, rest: seq<Byte>, textBefore: seq<Byte>, bigEndian: bool)
    requires data.LocationData? && WellFormed(data)
    requires |rest| == MessageBufferMax - 25 && |textBefore| == TextStringSize
    ensures SetNetMessage(Message(MsgLocation, data, bigEndian) + rest, textBefore, bigEndian)
            == Ok(data.(timestamp := FromLE(rest[991..999])))
  {
    var w := Message(MsgLocation, data, bigEndian) + rest;
    assert w[0] == MsgLocation;
    assert w[1..] == FromLocation(data, bigEndian) + rest;
    LocationAsWrittenLosesTimestamp(data, rest, bigEndian);
  }
}

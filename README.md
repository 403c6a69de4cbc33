# libmrhsrv message path, modelled in Dafny

libmrhsrv is the client side of the MRH platform's server connection: a
caller creates a context and a server, connects to it over QUIC and then
sends and receives typed "net messages" (authentication steps, text,
locations, custom buffers). This project models the part of the library
between the caller and the QUIC transport:

- the version 1 wire codec, which places each message kind's fields at
  fixed offsets, little-endian on either host (`NetMessageV1`, over the
  kinds and payload structs in `NetMessage`);
- the encryption layout around libsodium's secretbox: password hashing
  parameters, tag ‖ nonce ‖ MAC ‖ ciphertext messages and the 44-byte
  encrypted nonce (`Envelope`);
- the pool of 32 receive and 32 send message slots per server, its creation
  and destruction (`MsQuicContext`), and the transport callbacks that move
  slots between FREE, IN_USE and COMPLETE (`MsQuic`);
- sending into a slot, receiving out of one and decoding a received buffer
  (`ServerCommunication`);
- context initialisation and the bounded count of live servers (`Server`);
- the clamped last-error register (`ServerError`);
- the heartbeat countdown (`CommunicationClient`).

Bytes are naturals below 256 (`Bytes.Byte`). Every operation that depends on
the host's byte order takes it as a `bigEndian` flag, and the memory image of
a host integer is `Bytes.HostBytes`; the codec's lemmas show that the wire
bytes are the same on both hosts. Floats are only moved as four opaque bytes,
so a float is its 32-bit pattern. The secretbox is a `Cipher` value of two
functions, `seal` and `open`, and every lemma that needs the secretbox to
work takes `Sound(c)`: opening what was sealed with the same key and nonce
gives the message back, and a sealed box is 16 bytes longer than its message.
The outcome of every allocation, every transport call and every libsodium
call, the random nonces and the clock are parameters. An operation reports
the error it would store in the last-error register as its result.

The slot arrays are `array<Slot>` fields of the `MsQuicContext.Connection`
class, and the handlers and the send and receive operations are methods that
update them in place. Their postconditions tie the new slot to pure functions
(`MsQuic.ReceiveAll`, `ServerCommunication.SendOnSlot`,
`ServerCommunication.DeliverAsWritten`), and the lemmas state what those
functions guarantee.

Where the code evidently does not do what its authors meant (see
"## Findings"), the model has two members: one that does what the code does,
which the operations use, and a corrected one. The end-to-end lemmas that
follow a message from the sender to the decoded payload are stated about the
corrected members, and a lemma beside each shows what the code as written
does instead.

## Model

| member | source | states |
|---|---|---|
| `Bytes.FromLEOfLE` | src/libmrhsrv/Communication/NetMessage/MRH_NetMessageV1.c:38-43 | Decoding the little-endian bytes of an integer that fits n bytes gives the integer back. |
| `Bytes.LEOfFromLE` | src/libmrhsrv/Communication/NetMessage/MRH_NetMessageV1.c:38-43 | Encoding the value of any byte string in that many bytes gives the same bytes back. |
| `Bytes.ReverseInvolutive` | src/libmrhsrv/Communication/NetMessage/MRH_NetMessageV1.c:38-43 | Reversing byte order twice restores the bytes. |
| `Bytes.StoreIsLittleEndian` | src/libmrhsrv/Communication/NetMessage/MRH_NetMessageV1.c:38-43 | Storing a value, swapped first on a big-endian host, leaves its little-endian bytes in memory on either host. |
| `Bytes.LoadIsLittleEndian` | src/libmrhsrv/Communication/NetMessage/MRH_NetMessageV1.c:38-43 | Loading host bytes, swapped afterwards on a big-endian host, gives their little-endian value on either host. |
| `Bytes.Overwrite` | src/libmrhsrv/Communication/MRH_ServerCommunication.c:576-578 | A copy into a buffer puts the source bytes at the offset and keeps every byte before and after it. |
| `Bytes.Strnlen` | src/libmrhsrv/Communication/NetMessage/MRH_NetMessageV1.c:104-105 | The length is at most the bound, every byte before it is non-zero, and below the bound the byte at it is 0. |
| `Bytes.StrnlenPrefix` | src/libmrhsrv/Communication/NetMessage/MRH_NetMessageV1.c:136-140 | strnlen with a bound depends only on the bytes below the bound. |
| `NetMessageV1.StoreUint` | src/libmrhsrv/Communication/NetMessage/MRH_NetMessageV1.c:38-43 | An integer field written with the optional swap is its little-endian bytes on either host. |
| `NetMessageV1.LoadUint` | src/libmrhsrv/Communication/NetMessage/MRH_NetMessageV1.c:38-43 | An integer field read with the optional swap is the little-endian value of its bytes on either host. |
| `NetMessageV1.MirrorIsReverse` | src/libmrhsrv/Communication/NetMessage/MRH_NetMessageV1.c:144-155 | The byte mirror of SwapFloatBytes reverses the four bytes. |
| `NetMessageV1.SwapFloatBytesIsBswap` | src/libmrhsrv/Communication/NetMessage/MRH_NetMessageV1.c:144-155 | SwapFloatBytes on a float's bit pattern is the 4-byte byte swap, on either host. |
| `NetMessageV1.SwapFloatBytesInvolutive` | src/libmrhsrv/Communication/NetMessage/MRH_NetMessageV1.c:144-155 | SwapFloatBytes is its own inverse. |
| `NetMessageV1.StoreFloat` | src/libmrhsrv/Communication/NetMessage/MRH_NetMessageV1.c:165-199 | A float field is written as the little-endian bytes of its bit pattern on either host. |
| `NetMessageV1.LoadFloat` | src/libmrhsrv/Communication/NetMessage/MRH_NetMessageV1.c:207-218 | A float field read back is the little-endian value of its four bytes on either host. |
| `NetMessageV1.FromAuthRequest` | src/libmrhsrv/Communication/NetMessage/MRH_NetMessageV1.c:50-64 | AUTH_REQUEST is 155 bytes: mail at 0..128, device key at 128..153, client type at 153, version at 154. |
| `NetMessageV1.ParseAuthRequest` | src/libmrhsrv/Communication/NetMessage/MRH_NetMessageV1.c:50-64 | A reading of the AUTH_REQUEST layout, the partner the encoder is checked against; it always yields a well-formed request. |
| `NetMessageV1.AuthRequestRoundTrip` | src/libmrhsrv/Communication/NetMessage/MRH_NetMessageV1.c:50-64 | Every field of an encoded AUTH_REQUEST sits where the layout says, whatever follows it. |
| `NetMessageV1.ToAuthChallenge` | src/libmrhsrv/Communication/NetMessage/MRH_NetMessageV1.c:66-81 | AUTH_CHALLENGE decodes salt = bytes 0..16, nonce = little-endian u32 of bytes 16..20 and hash type = byte 20, on either host. |
| `NetMessageV1.ChallengeBytes` | src/libmrhsrv/Communication/NetMessage/MRH_NetMessageV1.c:66-81 | The 21 bytes a server sends for a challenge. |
| `NetMessageV1.AuthChallengeRoundTrip` | src/libmrhsrv/Communication/NetMessage/MRH_NetMessageV1.c:66-81 | Decoding a challenge's bytes gives the challenge back on either host. |
| `NetMessageV1.FromAuthProof` | src/libmrhsrv/Communication/NetMessage/MRH_NetMessageV1.c:83-90 | AUTH_PROOF is exactly the 44-byte nonce hash. |
| `NetMessageV1.ToAuthResult` | src/libmrhsrv/Communication/NetMessage/MRH_NetMessageV1.c:92-95 | AUTH_RESULT decodes byte 0. |
| `NetMessageV1.TextLength` | src/libmrhsrv/Communication/NetMessage/MRH_NetMessageV1.c:104-105 | The encoded string length is strnlen of the string, at most 1015. |
| `NetMessageV1.FromText` | src/libmrhsrv/Communication/NetMessage/MRH_NetMessageV1.c:101-125 | TEXT is the little-endian timestamp at 0..8 then the string bytes without a terminator; length 8 + strnlen, at most 1023, no NUL after the timestamp. |
| `NetMessageV1.ToText` | src/libmrhsrv/Communication/NetMessage/MRH_NetMessageV1.c:127-142 | TEXT decodes the timestamp from 0..8 and copies strnlen(bytes from 8, 1015) string bytes over the struct's string. |
| `NetMessageV1.CString` | src/libmrhsrv/Communication/NetMessage/MRH_NetMessageV1.c:104-105 | A C string is the bytes before the first NUL. |
| `NetMessageV1.TextRoundTrip` | src/libmrhsrv/Communication/NetMessage/MRH_NetMessageV1.c:118-141 | Decoding an encoded TEXT recovers the timestamp and the string, provided the string fills 1015 bytes or both the byte after it on the wire and the byte after it in the destination struct are 0. |
| `NetMessageV1.DecodedLength` | src/libmrhsrv/Communication/NetMessage/MRH_NetMessageV1.c:134-136 | A string of n non-zero bytes followed by 0 (or filling the bound) has strnlen n. |
| `NetMessageV1.TextDecoderOverreads` | src/libmrhsrv/Communication/NetMessage/MRH_NetMessageV1.c:118-141 | When the byte after a short encoded string is non-zero, the decoder reads past the string. |
| `NetMessageV1.FromLocation` | src/libmrhsrv/Communication/NetMessage/MRH_NetMessageV1.c:157-203 | LOCATION is 24 bytes: four 4-byte floats at 0, 4, 8, 12 and the timestamp at 16, little-endian on either host. |
| `NetMessageV1.ToLocationAsWritten` | src/libmrhsrv/Communication/NetMessage/MRH_NetMessageV1.c:205-231 | The decoder as written reads the floats from 0..16 and the timestamp from 1015..1023. |
| `NetMessageV1.ToLocation` | src/libmrhsrv/Communication/NetMessage/MRH_NetMessageV1.c:205-231 | The corrected decoder reads the floats from 0..16 and the timestamp from 16..24. |
| `NetMessageV1.LocationFieldsAt` | src/libmrhsrv/Communication/NetMessage/MRH_NetMessageV1.c:157-203 | Each field of an encoded LOCATION sits at its offset, whatever follows. |
| `NetMessageV1.LocationRoundTrip` | src/libmrhsrv/Communication/NetMessage/MRH_NetMessageV1.c:157-231 | The corrected decoder recovers every field of an encoded LOCATION on either host. |
| `NetMessageV1.LocationAsWrittenLosesTimestamp` | src/libmrhsrv/Communication/NetMessage/MRH_NetMessageV1.c:219-221 | The decoder as written recovers the four floats but takes the timestamp from unrelated bytes far past the message. |
| `NetMessageV1.LocationAsWrittenCounterexample` | src/libmrhsrv/Communication/NetMessage/MRH_NetMessageV1.c:219-221 | A location with timestamp 1 followed by zero bytes decodes with timestamp 0. |
| `NetMessageV1.FromNotification` | src/libmrhsrv/Communication/NetMessage/MRH_NetMessageV1.c:233-242 | NOTIFICATION is the C string, at most 256 bytes, without a NUL. |
| `NetMessageV1.FromCustom` | src/libmrhsrv/Communication/NetMessage/MRH_NetMessageV1.c:244-251 | CUSTOM is exactly the 1023-byte buffer. |
| `NetMessageV1.ToCustom` | src/libmrhsrv/Communication/NetMessage/MRH_NetMessageV1.c:253-258 | CUSTOM decodes the first 1023 bytes. |
| `NetMessageV1.CustomRoundTrip` | src/libmrhsrv/Communication/NetMessage/MRH_NetMessageV1.c:244-258 | decode(encode(b)) == b for CUSTOM, whatever follows. |
| `Envelope.Key` | src/libmrhsrv/Communication/MRH_ServerCommunication.c:265-266 | The secretbox key is the first 32 bytes of the password. |
| `Envelope.PasswordHashParams` | src/libmrhsrv/Communication/MRH_ServerCommunication.c:125-136 | Only hash type 0 is known: interactive ops limit, 128 MiB, Argon2id 1.3. |
| `Envelope.CreatePasswordHash` | src/libmrhsrv/Communication/MRH_ServerCommunication.c:107-152 | NULL password or salt and unknown hash types fail with INVALID_PARAM; for hash type 0 the result is exactly the KDF's output over the first 32 password bytes and 16 salt bytes when it succeeds, and ENCRYPTION_PW_HASH_MEM when it fails. |
| `Envelope.GetEncryptedSize` | src/libmrhsrv/Communication/MRH_ServerCommunication.c:250-256 | An encrypted message is 40 bytes longer: 24 nonce bytes and 16 MAC bytes. |
| `Envelope.Encrypt` | src/libmrhsrv/Communication/MRH_ServerCommunication.c:258-282 | No password, no result; with one, a succeeding seal gives exactly the nonce then the sealed box under the password's first 32 bytes, and a failing seal no result. |
| `Envelope.EncryptedSize` | src/libmrhsrv/Communication/MRH_ServerCommunication.c:250-282 | A successful encryption is exactly GetEncryptedSize of the message long. |
| `Envelope.DecryptAsWritten` | src/libmrhsrv/Communication/MRH_ServerCommunication.c:284-307 | The decryptor as written opens MAC + size bytes after the nonce, with the nonce and the box read from the message and the memory that follows it. |
| `Envelope.DecryptAsWrittenNeverRecovers` | src/libmrhsrv/Communication/MRH_ServerCommunication.c:297-299 | Given the size of what Encrypt produced, as RecieveMessage passes it, the decryptor as written never returns the message. |
| `Envelope.Decrypt` | src/libmrhsrv/Communication/MRH_ServerCommunication.c:284-307 | The corrected decryptor: with a password and at least 24 bytes the result is exactly the opening of everything after the nonce under the nonce and key; no password or fewer than 24 bytes gives no result. |
| `Envelope.DecryptEncrypt` | src/libmrhsrv/Communication/MRH_ServerCommunication.c:258-307 | Decrypting what Encrypt produced with the same password gives the message back. |
| `Envelope.EncryptNonce` | src/libmrhsrv/Communication/MRH_ServerCommunication.c:154-177 | NULL password fails with INVALID_PARAM; with one, a succeeding seal gives exactly the random nonce then the sealed host bytes of the u32, and a failing seal ENCRYPTION_FAILED. |
| `Envelope.EncryptNonceSize` | src/libmrhsrv/Communication/MRH_ServerCommunication.c:154-177 | An encrypted nonce is 44 bytes. |
| `Envelope.DecryptNonce` | src/libmrhsrv/Communication/MRH_ServerCommunication.c:179-202 | NULL password fails with INVALID_PARAM; with one, opening bytes 24..44 under the nonce at 0..24 gives the opened bytes read as a host u32, and a failing open ENCRYPTION_FAILED. |
| `Envelope.DecryptNonceEncryptNonce` | src/libmrhsrv/Communication/MRH_ServerCommunication.c:154-202 | DecryptNonce(EncryptNonce(n)) == n on the same host, whatever follows the 44 bytes. |
| `Envelope.DecryptNonceOtherHost` | src/libmrhsrv/Communication/MRH_ServerCommunication.c:154-202 | Across hosts of different byte order the nonce comes back byte-swapped. |
| `Envelope.NonceOpened` | src/libmrhsrv/Communication/MRH_ServerCommunication.c:179-195 | Opening an encrypted nonce yields the sealed host bytes. |
| `MsQuicContext.Held` | src/libmrhsrv/Communication/MsQuic/MRH_MsQuicContext.h:54-64 | The bytes a slot holds are the first us_SizeCur bytes of its buffer. |
| `MsQuicContext.Grow` | src/libmrhsrv/Communication/MsQuic/MRH_MsQuic.c:150 | realloc to a larger size keeps the old bytes. |
| `MsQuicContext.Connection.constructor` | src/libmrhsrv/Communication/MsQuic/MRH_MsQuicContext.c:46-64 | No handle; all 32 receive and 32 send slots FREE with no buffer and both sizes 0. |
| `MsQuicContext.CreateConnection` | src/libmrhsrv/Communication/MsQuic/MRH_MsQuicContext.c:37-72 | Creation succeeds exactly when allocation does, with every slot fresh. |
| `MsQuicContext.DestroyConnection` | src/libmrhsrv/Communication/MsQuic/MRH_MsQuicContext.c:74-103 | Shutdown is requested exactly when a handle is present; afterwards there is none, and every present buffer of both arrays is released. |
| `MsQuicContext.FindFirst` | src/libmrhsrv/Communication/MRH_ServerCommunication.c:449-458 | The scan finds the lowest index whose state is accepted, or reports there is none. |
| `MsQuic.OnConnected` | src/libmrhsrv/Communication/MsQuic/MRH_MsQuic.c:44-56 | CONNECTED sets every send slot COMPLETE and publishes the handle. |
| `MsQuic.OnConnectionShutdownComplete` | src/libmrhsrv/Communication/MsQuic/MRH_MsQuic.c:58-66 | SHUTDOWN_COMPLETE closes and clears the handle when it was set, and only then. |
| `MsQuic.OnPeerStreamStarted` | src/libmrhsrv/Communication/MsQuic/MRH_MsQuic.c:68-97 | A new stream takes the lowest FREE receive slot, IN_USE with size 0 and its capacity kept; with none FREE it is aborted and no slot changes. |
| `MsQuic.OnShutdownInitiated` | src/libmrhsrv/Communication/MsQuic/MRH_MsQuic.c:99-109 | Shutdown initiated by peer or transport only requests a shutdown, and only with a handle. |
| `MsQuic.ConnectionCallback` | src/libmrhsrv/Communication/MsQuic/MRH_MsQuic.c:38-116 | The dispatch: each event has its handler's effect and transport call (CONNECTED publishes the handle and completes every send slot; SHUTDOWN_COMPLETE closes and clears a set handle; PEER_STREAM_STARTED claims the lowest FREE receive slot or aborts with no change; SHUTDOWN_INITIATED_* asks for a shutdown only with a handle; other events do nothing); nothing else changes and the pool stays valid. |
| `MsQuic.Append` | src/libmrhsrv/Communication/MsQuic/MRH_MsQuic.c:143-163 | Appending one fragment keeps a receive slot valid. |
| `MsQuic.Reserve` | src/libmrhsrv/Communication/MsQuic/MRH_MsQuic.c:148-156 | Growing a receive slot to a larger capacity keeps the bytes held, its size and its state. |
| `MsQuic.AppendHeld` | src/libmrhsrv/Communication/MsQuic/MRH_MsQuic.c:143-163 | One fragment lands after the held bytes; size grows by its length; capacity grows to exactly the new size when exceeded; state unchanged. |
| `MsQuic.ReceiveAllAppends` | src/libmrhsrv/Communication/MsQuic/MRH_MsQuic.c:141-165 | A RECEIVE appends its fragments in order after the held bytes; the size grows by their total; capacity becomes the larger of old capacity and new size; state unchanged. |
| `MsQuic.AfterSendComplete` | src/libmrhsrv/Communication/MsQuic/MRH_MsQuic.c:130-139 | SEND_COMPLETE frees the slot with size 0, buffer and capacity kept. |
| `MsQuic.StreamCallback` | src/libmrhsrv/Communication/MsQuic/MRH_MsQuic.c:124-195 | Each stream event's effect on its slot and the stream call it makes; no other slot changes. |
| `MsQuic.OnReceive` | src/libmrhsrv/Communication/MsQuic/MRH_MsQuic.c:141-165 | The fragment loop leaves the slot as ReceiveAll of the fragments and keeps it valid. |
| `ServerError.Code` | include/libmrhsrv/libmrhsrv/Error/MRH_ServerError.h:44-59 | The declared error kinds have codes within (NONE, TYPE_MAX]. |
| `ServerError.Clamp` | src/libmrhsrv/Error/MRH_ServerError.c:122-132 | Values in [NONE, TYPE_MAX] are kept, every other value becomes UNK. |
| `ServerError.ClampIdempotent` | src/libmrhsrv/Error/MRH_ServerError.c:122-132 | Storing a stored value again changes nothing. |
| `ServerError.ErrorRegister.constructor` | src/libmrhsrv/Error/MRH_ServerError.c:37 | The register starts at NONE. |
| `ServerError.ErrorRegister.Reset` | src/libmrhsrv/Error/MRH_ServerError.c:43-46 | Reset stores NONE. |
| `ServerError.ErrorRegister.Set` | src/libmrhsrv/Error/MRH_ServerError.c:122-132 | Set stores the clamped value, so the register stays in [NONE, TYPE_MAX]. |
| `ServerError.ErrorRegister.Get` | src/libmrhsrv/Error/MRH_ServerError.c:52-55 | Get returns the stored value without changing it; it lies in [NONE, TYPE_MAX]. |
| `ServerTypes.Context.constructor` | src/libmrhsrv/MRH_Server.c:164-167 | A context stores the maximum, a count of 0, the device type and the timeout. |
| `ServerTypes.Server.constructor` | src/libmrhsrv/MRH_Server.c:229-235 | A server stores its channel and address, port -1, device type and timeout. |
| `ServerCommunication.IsConnected` | src/libmrhsrv/Communication/MRH_ServerCommunication.c:236-244 | 0 exactly when a handle is present, -1 otherwise and for NULL. |
| `ServerCommunication.Disconnect` | src/libmrhsrv/Communication/MRH_ServerCommunication.c:204-214 | Shutdown is requested exactly when the server has a handle. |
| `ServerCommunication.EncodeFields` | src/libmrhsrv/Communication/MRH_ServerCommunication.c:476-514 | The fields of a sendable kind never exceed 1023 bytes. |
| `ServerCommunication.Message` | src/libmrhsrv/Communication/MRH_ServerCommunication.c:467-514 | The message is the tag then the fields, 1 to 1024 bytes. |
| `ServerCommunication.Wire` | src/libmrhsrv/Communication/MRH_ServerCommunication.c:558-579 | The payload starts with the tag in the clear; plain kinds carry the message itself. |
| `ServerCommunication.BufferSize` | src/libmrhsrv/Communication/MRH_ServerCommunication.c:534-543 | The slot needs the 16-byte header plus the message, plus 40 for encrypted kinds. |
| `ServerCommunication.EnsureCapacity` | src/libmrhsrv/Communication/MRH_ServerCommunication.c:545-555 | After the capacity step the slot has a buffer of at least the needed size. |
| `ServerCommunication.Launch` | src/libmrhsrv/Communication/MRH_ServerCommunication.c:588-621 | The stream steps succeed together or the first failing one is reported and the slot is freed. |
| `ServerCommunication.SendOnSlot` | src/libmrhsrv/Communication/MRH_ServerCommunication.c:466-621 | Sending on a reserved slot keeps the slot valid. |
| `ServerCommunication.SendOnSlotReleases` | src/libmrhsrv/Communication/MRH_ServerCommunication.c:520-619 | Every failure frees the slot except a NULL password for TEXT, LOCATION or CUSTOM, which leaves it IN_USE; a success leaves it IN_USE. |
| `ServerCommunication.SendOnSlotLayout` | src/libmrhsrv/Communication/MRH_ServerCommunication.c:534-586 | After a successful send the buffer holds the header then the wire payload; its length is 1 + fields (+ 40 when encrypted); the QUIC length is the payload size and us_SizeCur is header + payload. |
| `ServerCommunication.SendOnSlotCapacity` | src/libmrhsrv/Communication/MRH_ServerCommunication.c:545-555 | Capacity is raised to exactly the needed size when too small and never shrinks. |
| `ServerCommunication.SendMessage` | src/libmrhsrv/Communication/MRH_ServerCommunication.c:429-622 | NULL server: INVALID_PARAM; no handle: SEND_DISCONNECTED, no slot touched; all IN_USE: SEND_QUEUE_FULL, no slot touched; otherwise the lowest FREE or COMPLETE slot is reserved and becomes SendOnSlot of it, and no other slot changes. |
| `ServerCommunication.TagAsWritten` | src/libmrhsrv/Communication/MRH_ServerCommunication.c:331 | The receiver reads the tag from buffer byte 0 whatever the size; there is none to read through a NULL or empty buffer. |
| `ServerCommunication.EmptyStreamTag` | src/libmrhsrv/Communication/MRH_ServerCommunication.c:323-358 | A stream that ends without data leaves a COMPLETE slot holding nothing whose tag read goes through NULL or returns a stale byte. |
| `ServerCommunication.Deliver` | src/libmrhsrv/Communication/MRH_ServerCommunication.c:330-358 | The corrected copy-out: empty gives UNK; encrypted tags give the message opened by the corrected Decrypt behind the tag, or UNK with ENCRYPTION_FAILED; other tags give the held bytes copied whole. |
| `ServerCommunication.DeliverAsWritten` | src/libmrhsrv/Communication/MRH_ServerCommunication.c:331-358 | The copy-out as written: defined exactly for a non-empty message; unencrypted tags agree with the corrected copy-out; a failed opening is UNK with ENCRYPTION_FAILED; otherwise the tag followed by what was opened. |
| `ServerCommunication.RecieveMessage` | src/libmrhsrv/Communication/MRH_ServerCommunication.c:313-369 | NULL server: INVALID_PARAM; only the lowest COMPLETE slot is consumed and freed even if decryption failed, and the delivery is the as-written copy-out of that slot; with none COMPLETE: UNK, nothing changes. |
| `ServerCommunication.SetNetMessage` | src/libmrhsrv/Communication/MRH_ServerCommunication.c:371-423 | Decodes from offset 1 exactly for the tags with a case, each with its own decoder (LOCATION with the decoder as written; AUTH_STATE and NO_DATA as raw bytes); every other tag fails with INVALID_PARAM. |
| `ServerCommunication.SetNetMessageCorrected` | src/libmrhsrv/Communication/MRH_ServerCommunication.c:404-407 | The corrected decoder: the same as SetNetMessage for every tag except LOCATION, which reads the timestamp where the encoder wrote it. |
| `ServerCommunication.StreamDeliversPayload` | src/libmrhsrv/Communication/MsQuic/MRH_MsQuic.c:68-183 | A slot that a stream started on and then received a payload in any split holds exactly that payload. |
| `ServerCommunication.DeliverWire` | src/libmrhsrv/Communication/MRH_ServerCommunication.c:313-369 | Through the corrected copy-out, a slot holding a sent payload delivers the sender's message, tag and fields, for a sound secretbox and the same password. |
| `ServerCommunication.DeliverAsWrittenNeverDelivers` | src/libmrhsrv/Communication/MRH_ServerCommunication.c:331-341 | As written, a slot holding a TEXT, LOCATION or CUSTOM message the library sent never delivers that message, whatever memory follows the slot. |
| `ServerCommunication.DeliverAsWrittenPlainWire` | src/libmrhsrv/Communication/MRH_ServerCommunication.c:331-355 | As written, a slot holding a sent unencrypted message delivers it exactly as sent. |
| `ServerCommunication.CustomEndToEnd` | src/libmrhsrv/Communication/MRH_ServerCommunication.c:371-423 | Through the corrected copy-out, a CUSTOM message sent, received in any split and decoded is the message sent. |
| `ServerCommunication.LocationEndToEnd` | src/libmrhsrv/Communication/MRH_ServerCommunication.c:371-423 | Through the corrected copy-out and the corrected decoder, a LOCATION sent, received in any split and decoded is the location sent. |
| `ServerCommunication.DecodeLocationMessage` | src/libmrhsrv/Communication/MRH_ServerCommunication.c:404-407 | The corrected decoder gives the tag-prefixed location back whatever fills the rest of the buffer. |
| `ServerCommunication.DecodeLocationAsWritten` | src/libmrhsrv/Communication/MRH_ServerCommunication.c:404-407 | As written, decoding a tag-prefixed location keeps its four floats and takes the timestamp from bytes 991..999 of whatever follows it. |
| `Server.Settings` | src/libmrhsrv/MRH_Server.c:108-113 | The stream limit is max servers × 32 × 2 in uint16_t and the idle timeout the timeout in uint64_t. |
| `Server.Init` | src/libmrhsrv/MRH_Server.c:48-171 | SERVER_CONNECTION and SERVER_COMMUNICATION fail with INVALID_PARAM; then sodium, API, registration, configuration and allocation failures in that order; success stores the maximum, count 0, the actor as uint8_t and the timeout. |
| `Server.CreateServer` | src/libmrhsrv/MRH_Server.c:205-240 | NULL context or channel, empty or over-long channel, or a full count fail with INVALID_PARAM and leave the count; allocation failures give MALLOC; success pads the channel, clears the address, sets port -1, copies device type and timeout and adds 1 to the count; for a valid channel the count moves as CountStep's create, so 0 <= count <= maximum is kept. |
| `Server.DestroyServer` | src/libmrhsrv/MRH_Server.c:242-264 | NULL arguments fail with INVALID_PARAM; otherwise disconnect, destroy the connection and lower the count only when it is positive, as CountStep's destroy, so 0 <= count <= maximum is kept. |
| `Server.CountStep` | src/libmrhsrv/MRH_Server.c:207-261 | A create adds 1 unless the count equals the maximum or allocation fails; a destroy subtracts 1 only from a positive count. |
| `Server.CountStaysBounded` | src/libmrhsrv/MRH_Server.c:165-261 | With a non-negative maximum, any sequence of creates and destroys keeps 0 <= count <= maximum. |
| `Server.NegativeMaxDoesNotBound` | src/libmrhsrv/MRH_Server.c:209 | With a negative maximum the equality guard never fires and the count grows past it. |
| `CommunicationClient.AsUint64` | src/libmrhsrv/Communication/MRH_CommunicationClient.c:63 | A time_t converted to uint64_t; unchanged when already in range. |
| `CommunicationClient.NextHeartbeatS` | src/libmrhsrv/Communication/MRH_CommunicationClient.c:61-69 | 0 exactly when now has reached the due time, otherwise the positive seconds left; never more than the due time. |
| `CommunicationClient.CountdownDecreases` | src/libmrhsrv/Communication/MRH_CommunicationClient.c:61-69 | The countdown does not grow as now increases, and falls by at most the time passed. |
| `CommunicationClient.NextHeartbeatAsWritten` | src/libmrhsrv/Communication/MRH_CommunicationClient.c:61-69 | As written, the clock is read twice and the difference is taken modulo 2^64. |
| `CommunicationClient.AsWrittenAgreesOnOneReading` | src/libmrhsrv/Communication/MRH_CommunicationClient.c:61-69 | When both readings agree, the function as written is the countdown. |
| `CommunicationClient.AsWrittenWrapsAcrossTheDueTime` | src/libmrhsrv/Communication/MRH_CommunicationClient.c:63-68 | Due at 10, read 9 then 11: as written returns 2^64 - 1 where the countdown is 0. |

## Left out

- Connecting (MRH_SRV_Connect), the optional wait in MRH_SRV_Disconnect and the wait for the handle to clear in MRH_MsQuicDestroyConnection: these are wall-clock loops; the model takes the wait as finished.
- The transport (MsQuic) and libsodium themselves: each call is an input saying whether it succeeds, and the secretbox is the `Cipher` pair.
- Concurrency between the transport's callbacks and the caller (`_Atomic` fields): the handlers are sequential steps.
- MRH_SRV_Destroy (context teardown) only closes transport objects and frees memory; the model has no transport objects to close.
- ErrorKind values other than NONE, UNK, GENERAL_INVALID_PARAM and GENERAL_MALLOC have no numeric value in MRH_ServerError.h; the operations report them by name and the register only stores declared codes.
- NULL p_Message, p_Buffer and p_Data arguments: the model's buffers and payloads are values that are always present.
- CreatePasswordHash: the 32-byte output buffer is not modelled on the failure paths; the source zeroes it before the hash-type switch, so an unknown type leaves 32 zero bytes, and after a KDF failure it holds whatever libsodium left.
- ServerCommunication.DeliverAsWritten: an empty message has no defined delivery (None): its tag is read through a NULL buffer or from an earlier message, and us_SizeCur - 1 wraps.
- RecieveMessage: the 40 bytes the as-written decryption reads past the slot's allocation are undefined in C; the model takes them as the `beyond` parameter.
- Deliver: the corrected copy-out; RecieveMessage uses DeliverAsWritten, which opens 40 bytes too many (see "## Findings").
- DeliverWire: holds of the corrected copy-out only; for the code as written, DeliverAsWrittenNeverDelivers shows that no encrypted kind is delivered and DeliverAsWrittenPlainWire that the unencrypted kinds are.
- CustomEndToEnd: stated through the corrected copy-out; as written an encrypted CUSTOM message is never delivered.
- LocationEndToEnd: stated through the corrected copy-out and the corrected location decoder; as written neither the message nor its timestamp comes back.
- DecodeLocationMessage: stated about SetNetMessageCorrected; the as-written SetNetMessage is described by DecodeLocationAsWritten.
- ServerCommunication.RecieveMessage: the caller's buffer has no size, so the copy of a plain message is unbounded; `written` can be longer than 1024 bytes and the model does not flag that.
- MsQuic.StreamCallback: a RECEIVE whose realloc fails stops copying and leaves p_Buffer NULL; the model takes every realloc during RECEIVE as successful.
- The pointer half of the QUIC_BUFFER header: the model keeps the Length field as `quicLength` and leaves the header's 16 bytes as they were.
- Interleaving of streams: the handlers are modelled for one slot at a time; which slot a stream writes to is the index the handler is given.
- Authentication handshake, chunk reassembly and the stubs MRH_CC_SendHeartbeat, MRH_CC_SendOpCode, MRH_CC_RecieveData and MRH_CA_SendLocation: they have no logic.
- Revision getters, the error-string table and the legacy opcode tables: constant lookups not used by the message path.
- AUTH_STATE and NO_DATA decoders and the DATA_AVAIL encoder are not declared anywhere in the library; AUTH_STATE is taken to share AUTH_RESULT's tag (4), and all three carry the raw bytes.
- MRH_SRV_SIZE_SERVER_CHANNEL is not defined by the library; Server.CreateServer takes it as the `channelMax` parameter.
- Server.DestroyServer calls MRH_SRV_Disconnect with one argument where it is defined with two; the model requests the shutdown and does not wait.
- Server.CountStep: the count is an unbounded integer; overflow of i_ServerCur past INT_MAX with a negative maximum is not modelled.

## Findings

| source | as written | input that shows it | evidently intended | confidence | as-written member | corrected member |
|---|---|---|---|---|---|---|
| src/libmrhsrv/Communication/NetMessage/MRH_NetMessageV1.c:219-221 | The LOCATION decoder reads the timestamp from offset 1015 (MRH_SRV_SIZE_TEXT_STRING). | A location with timestamp 1 encoded into a buffer of zeros decodes with timestamp 0. | Read the timestamp from offset 16, where the encoder wrote it. | not executed | `NetMessageV1.ToLocationAsWritten` and `ServerCommunication.SetNetMessage`, shown by `NetMessageV1.LocationAsWrittenCounterexample` and `ServerCommunication.DecodeLocationAsWritten` | `NetMessageV1.ToLocation` and `ServerCommunication.SetNetMessageCorrected`, proved by `NetMessageV1.LocationRoundTrip` and `ServerCommunication.DecodeLocationMessage` |
| src/libmrhsrv/Communication/MRH_ServerCommunication.c:297-299 | Decryption opens MACBYTES + (us_SizeCur - 1) bytes, but us_SizeCur - 1 already counts the 24-byte nonce and the MAC, so 40 bytes too many are opened. | Any TEXT, LOCATION or CUSTOM message sent with the library's own Encrypt and received whole. | Open us_SizeCur - 1 - 24 bytes after the nonce. | not executed | `Envelope.DecryptAsWritten` and `ServerCommunication.DeliverAsWritten`, shown by `Envelope.DecryptAsWrittenNeverRecovers` and `ServerCommunication.DeliverAsWrittenNeverDelivers` | `Envelope.Decrypt` and `ServerCommunication.Deliver`, proved by `Envelope.DecryptEncrypt` and `ServerCommunication.DeliverWire` |
| src/libmrhsrv/Communication/MRH_ServerCommunication.c:331 | The receiver reads the tag from p_Buffer[0] without checking us_SizeCur, and then computes us_SizeCur - 1. | A peer stream that ends without data on a fresh receive slot: p_Buffer is NULL. | Treat an empty message as UNK. | not executed | `ServerCommunication.TagAsWritten` and `ServerCommunication.DeliverAsWritten` (no delivery for an empty message), shown by `ServerCommunication.EmptyStreamTag` | `ServerCommunication.Deliver` |
| src/libmrhsrv/Communication/MRH_CommunicationClient.c:63-68 | time(NULL) is read once for the comparison and again for the subtraction, which is done in uint64_t. | Due at 10; the first reading is 9 and the second 11: the result is 2^64 - 1. | Read the clock once. | not executed | `CommunicationClient.NextHeartbeatAsWritten`, shown by `CommunicationClient.AsWrittenWrapsAcrossTheDueTime` | `CommunicationClient.NextHeartbeatS`, proved by `CommunicationClient.CountdownDecreases` |

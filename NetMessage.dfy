/**
 * Net message kinds and their payload structs (MRH_NetMessage.h, version 1).
 */
module NetMessage {
  import opened Bytes
  import opened Sizes

  const NetMessageVersion: nat := 1

  /** MRH_Srv_NetMessage: the tag in byte 0 of every wire buffer. */
  const MsgUnk: int := 0
  const MsgAuthRequest: int := 1
  const MsgAuthChallenge: int := 2
  const MsgAuthProof: int := 3
  const MsgAuthResult: int := 4
  const MsgDataAvail: int := 5
  const MsgNoData: int := 6
  const MsgText: int := 7
  const MsgLocation: int := 8
  const MsgNotification: int := 9
  const MsgCustom: int := 10

  /**
   * MRH_SRV_MSG_AUTH_STATE is dispatched on by the receive side but is not a
   * member of the enumeration; it is taken to be the value that
   * MRH_SRV_MSG_AUTH_RESULT now has.
   */
  const MsgAuthState: int := MsgAuthResult

  /** A float is carried as its IEEE-754 bit pattern and never interpreted. */
  type Float32 = x: nat | IsUint(x, 4)

  /**
   * The payload structs. Fixed-size char and byte arrays are sequences whose
   * lengths WellFormed fixes. DataAvail, NoData and AuthState have no codec in
   * the source (their FROM_/TO_ functions are called but never declared), so
   * they carry the raw bytes those functions would write or read.
   */
  datatype Payload =
    | AuthRequestData(mail: seq<Byte>, deviceKey: seq<Byte>, clientType: Byte, version: Byte)
    | AuthChallengeData(salt: seq<Byte>, nonce: nat, hashType: Byte)
    | AuthProofData(nonceHash: seq<Byte>)
    | AuthResultData(result: Byte)
    | DataAvailData(encoded: seq<Byte>)
    | NoDataData(raw: seq<Byte>)
    | AuthStateData(raw: seq<Byte>)
    | TextData(text: seq<Byte>, timestamp: nat)
    | LocationData(latitude: Float32, longitude: Float32, elevation: Float32, facing: Float32, timestamp: nat)
    | NotificationData(notification: seq<Byte>)
    | CustomData(buffer: seq<Byte>)

  /** The array sizes and integer widths of the C structs. */
  predicate WellFormed(p: Payload)
  {
    match p
    case AuthRequestData(mail, deviceKey, _, _) => |mail| == AccountMailSize && |deviceKey| == DeviceKeySize
    case AuthChallengeData(salt, nonce, _) => |salt| == AccountPasswordSaltSize && IsUint(nonce, 4)
    case AuthProofData(nonceHash) => |nonceHash| == NonceHashSize
    case AuthResultData(_) => true
    case DataAvailData(encoded) => |encoded| <= CustomBufferSize
    case NoDataData(_) => true
    case AuthStateData(_) => true
    case TextData(text, timestamp) => |text| == TextStringSize && IsUint(timestamp, 8)
    case LocationData(_, _, _, _, timestamp) => IsUint(timestamp, 8)
    case NotificationData(notification) => |notification| == NotificationStringSize
    case CustomData(buffer) => |buffer| == CustomBufferSize
  }

  /** The struct a kind's p_Data must point to when SendMessage is given that kind. */
  predicate MatchesKind(kind: int, p: Payload)
  {
    && (kind == MsgAuthRequest ==> p.AuthRequestData?)
    && (kind == MsgAuthProof ==> p.AuthProofData?)
    && (kind == MsgDataAvail ==> p.DataAvailData?)
    && (kind == MsgText ==> p.TextData?)
    && (kind == MsgLocation ==> p.LocationData?)
    && (kind == MsgCustom ==> p.CustomData?)
  }
}

/**
 * The version-1 wire codec (MRH_NetMessageV1.c).
 *
 * Each FROM_ function writes one message's fields at fixed offsets of the
 * buffer after the tag byte and returns how many bytes it wrote; here it
 * returns those bytes. Each TO_ function reads the fields back into a struct.
 * Multi-byte integers are little-endian on the wire: the code byte-swaps them
 * on a big-endian host, which `bigEndian` stands for.
 */
module NetMessageV1 {
  import opened Bytes
  import opened Sizes
  import opened NetMessage

  // ---------------------------------------------------------------------------
  // Integer and float fields
  // ---------------------------------------------------------------------------

  /** An integer field as the encoders store it: bswap on a big-endian host, then memcpy. */
  function StoreUint(x: nat, n: nat, bigEndian: bool): (r: seq<Byte>)
    requires IsUint(x, n)
    ensures r == LE(x, n)
  {
    StoreIsLittleEndian(x, n, bigEndian);
    HostBytes(if bigEndian then Bswap(x, n) else x, n, bigEndian)
  }

  /** An integer field as the decoders load it: memcpy, then bswap on a big-endian host. */
  function LoadUint(s: seq<Byte>, bigEndian: bool): (r: nat)
    ensures r == FromLE(s)
  {
    LoadIsLittleEndian(s, bigEndian);
    var x := FromHostBytes(s, bigEndian);
    if bigEndian then Bswap(x, |s|) else x
  }

  /** SwapFloatBytes: the float whose four memory bytes are those of `f` mirrored. */
  function SwapFloatBytes(f: Float32, bigEndian: bool): Float32
  {
    var p := HostBytes(f, 4, bigEndian);
    FromHostBytes([p[3], p[2], p[1], p[0]], bigEndian)
  }

  lemma MirrorIsReverse(p: seq<Byte>)
    requires |p| == 4
    ensures [p[3], p[2], p[1], p[0]] == Reverse(p)
  {
    ReverseAt(p, 0);
    ReverseAt(p, 1);
    ReverseAt(p, 2);
    ReverseAt(p, 3);
  }

  /** Mirroring the memory bytes is bswap_32 of the bit pattern, on either host. */
  lemma SwapFloatBytesIsBswap(f: Float32, bigEndian: bool)
    ensures SwapFloatBytes(f, bigEndian) == Bswap(f, 4)
  {
    var p := HostBytes(f, 4, bigEndian);
    MirrorIsReverse(p);
    if bigEndian {
      ReverseInvolutive(LE(f, 4));
    }
  }

  /** SwapFloatBytes is its own inverse. */
  lemma SwapFloatBytesInvolutive(f: Float32, bigEndian: bool)
    ensures SwapFloatBytes(SwapFloatBytes(f, bigEndian), bigEndian) == f
  {
    SwapFloatBytesIsBswap(f, bigEndian);
    SwapFloatBytesIsBswap(SwapFloatBytes(f, bigEndian), bigEndian);
    LEOfFromLE(Reverse(LE(f, 4)));
    ReverseInvolutive(LE(f, 4));
    FromLEOfLE(f, 4);
  }

  /** A float field as FROM_MRH_SRV_MSG_LOCATION stores it. */
  function StoreFloat(f: Float32, bigEndian: bool): (r: seq<Byte>)
    ensures r == LE(f, 4)
  {
    SwapFloatBytesIsBswap(f, bigEndian);
    StoreIsLittleEndian(f, 4, bigEndian);
    HostBytes(if bigEndian then SwapFloatBytes(f, bigEndian) else f, 4, bigEndian)
  }

  /** A float field as TO_MRH_SRV_MSG_LOCATION loads it. */
  function LoadFloat(s: seq<Byte>, bigEndian: bool): (r: Float32)
    requires |s| == 4
    ensures r == FromLE(s)
  {
    var f: Float32 := FromHostBytes(s, bigEndian);
    SwapFloatBytesIsBswap(f, bigEndian);
    LoadIsLittleEndian(s, bigEndian);
    if bigEndian then SwapFloatBytes(f, bigEndian) else f
  }

  // ---------------------------------------------------------------------------
  // Server authentication
  // ---------------------------------------------------------------------------

  /** FROM_MRH_SRV_MSG_AUTH_REQUEST. */
  function FromAuthRequest(m: Payload): (r: seq<Byte>)
    requires m.AuthRequestData? && WellFormed(m)
    ensures |r| == AccountMailSize + DeviceKeySize + 2 == 155
    ensures r[..128] == m.mail && r[128..153] == m.deviceKey
    ensures r[153] == m.clientType && r[154] == m.version
  {
    m.mail + m.deviceKey + [m.clientType, m.version]
  }

  /** How the receiving server reads an authentication request (not part of this library). */
  function ParseAuthRequest(b: seq<Byte>): (m: Payload)
    requires |b| >= 155
    ensures m.AuthRequestData? && WellFormed(m)
  {
    AuthRequestData(b[..128], b[128..153], b[153], b[154])
  }

  lemma AuthRequestRoundTrip(m: Payload, tail: seq<Byte>)
    requires m.AuthRequestData? && WellFormed(m)
    ensures ParseAuthRequest(FromAuthRequest(m) + tail) == m
  {
  }

  /** TO_MRH_SRV_MSG_AUTH_CHALLENGE. */
  function ToAuthChallenge(b: seq<Byte>, bigEndian: bool): (m: Payload)
    requires |b| >= AccountPasswordSaltSize + 4 + 1
    ensures m.AuthChallengeData? && WellFormed(m)
    ensures m.salt == b[..16] && m.nonce == FromLE(b[16..20]) && m.hashType == b[20]
  {
    AuthChallengeData(b[..AccountPasswordSaltSize],
                      LoadUint(b[AccountPasswordSaltSize..AccountPasswordSaltSize + 4], bigEndian),
                      b[AccountPasswordSaltSize + 4])
  }

  /** How the server lays out a challenge (not part of this library): salt, nonce, hash type. */
  function ChallengeBytes(m: Payload): (r: seq<Byte>)
    requires m.AuthChallengeData? && WellFormed(m)
    ensures |r| == 21
  {
    m.salt + LE(m.nonce, 4) + [m.hashType]
  }

  /** A challenge decodes to what the server sent, whatever the host byte order. */
  lemma AuthChallengeRoundTrip(m: Payload, tail: seq<Byte>, bigEndian: bool)
    requires m.AuthChallengeData? && WellFormed(m)
    ensures ToAuthChallenge(ChallengeBytes(m) + tail, bigEndian) == m
  {
    var b := ChallengeBytes(m) + tail;
    assert b[16..20] == LE(m.nonce, 4);
    FromLEOfLE(m.nonce, 4);
  }

  /** FROM_MRH_SRV_MSG_AUTH_PROOF. */
  function FromAuthProof(m: Payload): (r: seq<Byte>)
    requires m.AuthProofData? && WellFormed(m)
    ensures |r| == NonceHashSize == 44 && r == m.nonceHash
  {
    m.nonceHash[..NonceHashSize]
  }

  /** TO_MRH_SRV_MSG_AUTH_RESULT. */
  function ToAuthResult(b: seq<Byte>): (m: Payload)
    requires |b| >= 1
    ensures m.AuthResultData? && m.result == b[0]
  {
    AuthResultData(b[0])
  }

  // ---------------------------------------------------------------------------
  // Communication
  // ---------------------------------------------------------------------------

  /** The length of a text field's string: strnlen over the whole field. */
  function TextLength(m: Payload): (n: nat)
    requires m.TextData? && WellFormed(m)
    ensures n <= TextStringSize
  {
    Strnlen(m.text, TextStringSize)
  }

  /** FROM_MRH_SRV_MSG_TEXT: timestamp at 0..8, then the string bytes with no terminator. */
  function FromText(m: Payload, bigEndian: bool): (r: seq<Byte>)
    requires m.TextData? && WellFormed(m)
    ensures |r| == 8 + TextLength(m) <= CustomBufferSize
    ensures r[..8] == LE(m.timestamp, 8) && r[8..] == m.text[..TextLength(m)]
    ensures forall i :: 8 <= i < |r| ==> r[i] != 0
  {
    StoreUint(m.timestamp, 8, bigEndian) + m.text[..Strnlen(m.text, TextStringSize)]
  }

  /**
   * TO_MRH_SRV_MSG_TEXT into a struct whose string field held `before`: the
   * decoder copies strnlen(field, 1015) bytes and leaves the rest of the field
   * as it was.
   */
  function ToText(before: seq<Byte>, b: seq<Byte>, bigEndian: bool): (m: Payload)
    requires |before| == TextStringSize && |b| >= 8 + TextStringSize
    ensures m.TextData? && WellFormed(m)
    ensures m.timestamp == FromLE(b[..8])
    ensures m.text[..Strnlen(b[8..], TextStringSize)] == b[8..8 + Strnlen(b[8..], TextStringSize)]
  {
    var n := Strnlen(b[8..], TextStringSize);
    TextData(b[8..8 + n] + before[n..], LoadUint(b[..8], bigEndian))
  }

  /** The string a char array holds: its bytes before the first NUL. */
  function CString(s: seq<Byte>): (r: seq<Byte>)
    ensures r == s[..Strnlen(s, |s|)]
  {
    s[..Strnlen(s, |s|)]
  }

  /**
   * Text round trip. The encoder writes no terminator, so the decoder finds
   * the end of the string only when the byte after it is NUL or the string
   * fills the field; and it copies no terminator either, so the decoded string
   * ends there only when the struct it decodes into has NUL at that position.
   */
  lemma {:induction false} TextRoundTrip(m: Payload, tail: seq<Byte>, before: seq<Byte>, bigEndian: bool)
    requires m.TextData? && WellFormed(m)
    requires |before| == TextStringSize && |FromText(m, bigEndian) + tail| >= 8 + TextStringSize
    requires TextLength(m) < TextStringSize ==> tail[0] == 0 && before[TextLength(m)] == 0
    ensures ToText(before, FromText(m, bigEndian) + tail, bigEndian).timestamp == m.timestamp
    ensures CString(ToText(before, FromText(m, bigEndian) + tail, bigEndian).text) == CString(m.text)
  {
    var n := TextLength(m);
    var e := FromText(m, bigEndian);
    var b := e + tail;
    assert b[..8] == LE(m.timestamp, 8);
    FromLEOfLE(m.timestamp, 8);
    var field := b[8..];
    assert field[..n] == m.text[..n];
    if n < TextStringSize {
      assert field[n] == tail[0];
    }
    DecodedLength(field, n);
    var d := ToText(before, b, bigEndian);
    assert d.text == m.text[..n] + before[n..];
    if n < TextStringSize {
      assert d.text[n] == 0;
    }
    DecodedLength(d.text, n);
    DecodedLength(m.text, n);
  }

  /** A field whose first `n` bytes are non-NUL and whose byte `n`, if any, is NUL has length `n`. */
  lemma DecodedLength(s: seq<Byte>, n: nat)
    requires n <= TextStringSize <= |s|
    requires forall i :: 0 <= i < n ==> s[i] != 0
    requires n < TextStringSize ==> s[n] == 0
    ensures Strnlen(s, TextStringSize) == n
  {
  }

  /** Without a NUL after the encoded string the decoder reads past it. */
  lemma TextDecoderOverreads(m: Payload, tail: seq<Byte>, bigEndian: bool)
    requires m.TextData? && WellFormed(m)
    requires |FromText(m, bigEndian) + tail| >= 8 + TextStringSize
    requires TextLength(m) < TextStringSize && tail[0] != 0
    ensures Strnlen((FromText(m, bigEndian) + tail)[8..], TextStringSize) > TextLength(m)
  {
    var b := FromText(m, bigEndian) + tail;
    assert b[8..][TextLength(m)] == tail[0];
  }

  /** FROM_MRH_SRV_MSG_LOCATION: four floats at 0, 4, 8, 12 and the timestamp at 16. */
  function FromLocation(m: Payload, bigEndian: bool): (r: seq<Byte>)
    requires m.LocationData? && WellFormed(m)
    ensures |r| == 4 * 4 + 8 == 24
    ensures r == LE(m.latitude, 4) + LE(m.longitude, 4) + LE(m.elevation, 4) + LE(m.facing, 4)
                 + LE(m.timestamp, 8)
  {
    StoreFloat(m.latitude, bigEndian) + StoreFloat(m.longitude, bigEndian)
    + StoreFloat(m.elevation, bigEndian) + StoreFloat(m.facing, bigEndian)
    + StoreUint(m.timestamp, 8, bigEndian)
  }

  /** TO_MRH_SRV_MSG_LOCATION as written: the timestamp is read at offset MRH_SRV_SIZE_TEXT_STRING. */
  function ToLocationAsWritten(b: seq<Byte>, bigEndian: bool): (m: Payload)
    requires |b| >= TextStringSize + 8
    ensures m.LocationData? && WellFormed(m)
    ensures m.timestamp == FromLE(b[TextStringSize..TextStringSize + 8])
  {
    LocationData(LoadFloat(b[0..4], bigEndian), LoadFloat(b[4..8], bigEndian),
                 LoadFloat(b[8..12], bigEndian), LoadFloat(b[12..16], bigEndian),
                 LoadUint(b[TextStringSize..TextStringSize + 8], bigEndian))
  }

  /** TO_MRH_SRV_MSG_LOCATION reading the timestamp where the encoder wrote it. */
  function ToLocation(b: seq<Byte>, bigEndian: bool): (m: Payload)
    requires |b| >= 24
    ensures m.LocationData? && WellFormed(m)
    ensures m.latitude == FromLE(b[0..4]) && m.longitude == FromLE(b[4..8])
    ensures m.elevation == FromLE(b[8..12]) && m.facing == FromLE(b[12..16])
    ensures m.timestamp == FromLE(b[16..24])
  {
    LocationData(LoadFloat(b[0..4], bigEndian), LoadFloat(b[4..8], bigEndian),
                 LoadFloat(b[8..12], bigEndian), LoadFloat(b[12..16], bigEndian),
                 LoadUint(b[16..24], bigEndian))
  }

  lemma LocationFieldsAt(m: Payload, tail: seq<Byte>, bigEndian: bool)
    requires m.LocationData? && WellFormed(m)
    ensures var b := FromLocation(m, bigEndian) + tail;
            && b[0..4] == LE(m.latitude, 4) && b[4..8] == LE(m.longitude, 4)
            && b[8..12] == LE(m.elevation, 4) && b[12..16] == LE(m.facing, 4)
            && b[16..24] == LE(m.timestamp, 8)
  {
  }

  /** With the timestamp read at 16, a location decodes to what was encoded. */
  lemma LocationRoundTrip(m: Payload, tail: seq<Byte>, bigEndian: bool)
    requires m.LocationData? && WellFormed(m)
    ensures ToLocation(FromLocation(m, bigEndian) + tail, bigEndian) == m
  {
    LocationFieldsAt(m, tail, bigEndian);
    FromLEOfLE(m.latitude, 4);
    FromLEOfLE(m.longitude, 4);
    FromLEOfLE(m.elevation, 4);
    FromLEOfLE(m.facing, 4);
    FromLEOfLE(m.timestamp, 8);
  }

  /**
   * As written, the floats survive the round trip but the decoded timestamp is
   * taken from bytes 991..999 after the encoded message, which the encoder
   * never wrote.
   */
  lemma LocationAsWrittenLosesTimestamp(m: Payload, tail: seq<Byte>, bigEndian: bool)
    requires m.LocationData? && WellFormed(m)
    requires |tail| >= TextStringSize + 8 - 24
    ensures var d := ToLocationAsWritten(FromLocation(m, bigEndian) + tail, bigEndian);
            && d.latitude == m.latitude && d.longitude == m.longitude
            && d.elevation == m.elevation && d.facing == m.facing
            && d.timestamp == FromLE(tail[TextStringSize - 24..TextStringSize - 16])
  {
    LocationFieldsAt(m, tail, bigEndian);
    FromLEOfLE(m.latitude, 4);
    FromLEOfLE(m.longitude, 4);
    FromLEOfLE(m.elevation, 4);
    FromLEOfLE(m.facing, 4);
    var b := FromLocation(m, bigEndian) + tail;
    assert b[TextStringSize..TextStringSize + 8] == tail[TextStringSize - 24..TextStringSize - 16];
  }

  /** A location stamped 1 and sent from a zeroed buffer decodes with timestamp 0. */
  lemma LocationAsWrittenCounterexample(bigEndian: bool)
    ensures var m := LocationData(0, 0, 0, 0, 1);
            var tail := seq(TextStringSize - 16, _ => 0);
            ToLocationAsWritten(FromLocation(m, bigEndian) + tail, bigEndian).timestamp == 0 != m.timestamp
  {
    var m := LocationData(0, 0, 0, 0, 1);
    var tail: seq<Byte> := seq(TextStringSize - 16, _ => 0);
    LocationAsWrittenLosesTimestamp(m, tail, bigEndian);
    var z := tail[TextStringSize - 24..TextStringSize - 16];
    assert z == [0, 0, 0, 0, 0, 0, 0, 0];
    assert FromLE(z) == 0 by {
      assert z == LE(0, 8);
      FromLEOfLE(0, 8);
    }
  }

  /** FROM_MRH_SRV_MSG_NOTIFICATION: the string bytes up to strnlen(field, 256). */
  function FromNotification(m: Payload): (r: seq<Byte>)
    requires m.NotificationData? && WellFormed(m)
    ensures |r| <= NotificationStringSize
    ensures r == CString(m.notification)
    ensures forall i :: 0 <= i < |r| ==> r[i] != 0
  {
    m.notification[..Strnlen(m.notification, NotificationStringSize)]
  }

  /** FROM_MRH_SRV_MSG_CUSTOM: the whole 1023-byte buffer. */
  function FromCustom(m: Payload): (r: seq<Byte>)
    requires m.CustomData? && WellFormed(m)
    ensures |r| == CustomBufferSize == 1023 && r == m.buffer
  {
    m.buffer[..CustomBufferSize]
  }

  /** TO_MRH_SRV_MSG_CUSTOM: the first 1023 bytes. */
  function ToCustom(b: seq<Byte>): (m: Payload)
    requires |b| >= CustomBufferSize
    ensures m.CustomData? && WellFormed(m) && m.buffer == b[..1023]
  {
    CustomData(b[..CustomBufferSize])
  }

  lemma CustomRoundTrip(m: Payload, tail: seq<Byte>)
    requires m.CustomData? && WellFormed(m)
    ensures ToCustom(FromCustom(m) + tail) == m
  {
  }
}

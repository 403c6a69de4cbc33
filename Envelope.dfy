/**
 * The encryption layer of MRH_ServerCommunication.c: password hashing
 * parameters, the nonce ‖ secretbox layout of encrypted messages and of the
 * authentication nonce.
 *
 * libsodium is a foreign library. Its secretbox is a `Cipher`: a pair of
 * functions that seal and open under a key and a nonce. `Sound` states what
 * the library guarantees and what the layout relies on; the lemmas here take
 * it as a precondition. Random nonces are parameters.
 */
module Envelope {
  import opened Wrappers
  import opened Bytes
  import opened Sizes
  import opened ServerError

  /** crypto_secretbox_easy / crypto_secretbox_open_easy under (key, nonce). */
  datatype Cipher = Cipher(
    seal: (seq<Byte>, seq<Byte>, seq<Byte>) -> Option<seq<Byte>>,
    open: (seq<Byte>, seq<Byte>, seq<Byte>) -> Option<seq<Byte>>)

  /**
   * Secretbox's contract: a sealed box is the message plus a MAC and opens to
   * the message; an opened box yields its length minus the MAC, so nothing
   * shorter than a MAC opens.
   */
  ghost predicate Sound(c: Cipher)
  {
    && (forall k, n, m :: c.seal(k, n, m).Some? ==>
          |c.seal(k, n, m).value| == |m| + SecretboxMacSize
          && c.open(k, n, c.seal(k, n, m).value) == Some(m))
    && (forall k, n, b :: c.open(k, n, b).Some? ==>
          |b| >= SecretboxMacSize && |c.open(k, n, b).value| + SecretboxMacSize == |b|)
  }

  /** The key both Encrypt and Decrypt use: the first KEYBYTES bytes of the password. */
  function Key(password: seq<Byte>): (k: seq<Byte>)
    requires |password| >= SecretboxKeySize
    ensures |k| == SecretboxKeySize && k == password[..32]
  {
    password[..SecretboxKeySize]
  }

  // ---------------------------------------------------------------------------
  // Password hashing
  // ---------------------------------------------------------------------------

  /** Argon2id parameters handed to crypto_pwhash. */
  datatype PwHashParams = PwHashParams(opsLimit: nat, memLimit: nat, alg: nat)

  /** crypto_pwhash_OPSLIMIT_INTERACTIVE and crypto_pwhash_ALG_ARGON2ID13 in libsodium. */
  const OpsLimitInteractive: nat := 2
  const AlgArgon2id13: nat := 2

  /** The switch on the hash type: only type 0 is known. */
  function PasswordHashParams(hashType: Byte): (r: Option<PwHashParams>)
    ensures r.Some? <==> hashType == 0
    ensures r.Some? ==> r.value == PwHashParams(OpsLimitInteractive, 128 * 1024 * 1024, AlgArgon2id13)
  {
    match hashType
    case 0 => Some(PwHashParams(OpsLimitInteractive, 128 * 1024 * 1024, AlgArgon2id13))
    case _ => None
  }

  /**
   * MRH_SRV_CreatePasswordHash with crypto_pwhash as `kdf` (password, salt,
   * parameters). The result is the 32-byte hash; a null password or salt is
   * None. The output buffer is the result.
   */
  function CreatePasswordHash(kdf: (seq<Byte>, seq<Byte>, PwHashParams) -> Option<seq<Byte>>,
                              password: Option<seq<Byte>>, salt: Option<seq<Byte>>,
                              hashType: Byte): (r: Result<seq<Byte>, ErrorKind>)
    requires password.Some? ==> |password.value| >= SecretboxKeySize
    requires salt.Some? ==> |salt.value| >= AccountPasswordSaltSize
    ensures password.None? || salt.None? ==> r == Err(InvalidParam)
    ensures password.Some? && salt.Some? && hashType != 0 ==> r == Err(InvalidParam)
    ensures r.Ok? ==> (hashType == 0
      && kdf(password.value[..32], salt.value[..16], PasswordHashParams(0).value) == Some(r.value))
    ensures r.Err? && r.error != InvalidParam ==> r.error == EncryptionPwHashMem
    ensures password.Some? && salt.Some? && hashType == 0 ==>
              r == match kdf(password.value[..32], salt.value[..16], PasswordHashParams(0).value)
                   case None => Err(EncryptionPwHashMem)
                   case Some(h) => Ok(h)
  {
    if password.None? || salt.None? then Err(InvalidParam)
    else
      match PasswordHashParams(hashType)
      case None => Err(InvalidParam)
      case Some(params) =>
        match kdf(Key(password.value), salt.value[..AccountPasswordSaltSize], params)
        case None => Err(EncryptionPwHashMem)
        case Some(h) => Ok(h)
  }

  // ---------------------------------------------------------------------------
  // Messages: [nonce (24)][MAC (16) + ciphertext]
  // ---------------------------------------------------------------------------

  /** MRH_SRV_GetEncryptedSize. */
  function GetEncryptedSize(n: nat): (r: nat)
    ensures r == SecretboxNonceSize + SecretboxMacSize + n == n + 40
  {
    SecretboxNonceSize + SecretboxMacSize + n
  }

  /** MRH_SRV_Encrypt with `nonce` standing for randombytes_buf's output. */
  function Encrypt(c: Cipher, nonce: seq<Byte>, msg: seq<Byte>, password: Option<seq<Byte>>): (r: Option<seq<Byte>>)
    requires |nonce| == SecretboxNonceSize
    requires password.Some? ==> |password.value| >= SecretboxKeySize
    ensures password.None? ==> r.None?
    ensures r.Some? ==> |r.value| >= 24 && r.value[..24] == nonce
    ensures r.Some? ==> Some(r.value[24..]) == c.seal(password.value[..32], nonce, msg)
    ensures password.Some? ==>
              r == match c.seal(password.value[..32], nonce, msg)
                   case None => None
                   case Some(box) => Some(nonce + box)
  {
    if password.None? then None
    else
      match c.seal(Key(password.value), nonce, msg)
      case None => None
      case Some(box) => Some(nonce + box)
  }

  /** A sealed message fills exactly GetEncryptedSize bytes. */
  lemma EncryptedSize(c: Cipher, nonce: seq<Byte>, msg: seq<Byte>, password: Option<seq<Byte>>)
    requires Sound(c) && |nonce| == SecretboxNonceSize
    requires password.Some? ==> |password.value| >= SecretboxKeySize
    requires Encrypt(c, nonce, msg, password).Some?
    ensures |Encrypt(c, nonce, msg, password).value| == GetEncryptedSize(|msg|)
  {
    var box := c.seal(Key(password.value), nonce, msg);
    assert box.Some?;
  }

  /**
   * MRH_SRV_Decrypt as written: it opens MACBYTES + `size` bytes from offset
   * 24, where its caller passes the whole encrypted size as `size`. The bytes
   * past the end of the message are whatever memory follows it, `beyond`;
   * the nonce is read from that memory too when the message is shorter.
   */
  function DecryptAsWritten(c: Cipher, enc: seq<Byte>, size: nat, beyond: seq<Byte>,
                            password: Option<seq<Byte>>): (r: Option<seq<Byte>>)
    requires |enc + beyond| >= SecretboxNonceSize + SecretboxMacSize + size
    requires password.Some? ==> |password.value| >= SecretboxKeySize
    ensures password.None? ==> r.None?
    ensures password.Some? ==> r == c.open(password.value[..32], (enc + beyond)[..24], (enc + beyond)[24..40 + size])
  {
    if password.None? then None
    else
      c.open(Key(password.value), (enc + beyond)[..SecretboxNonceSize],
             (enc + beyond)[SecretboxNonceSize..SecretboxNonceSize + SecretboxMacSize + size])
  }

  /**
   * As written, decrypting what Encrypt produced never yields the message:
   * the box handed to open is 40 bytes longer than the sealed one.
   */
  lemma DecryptAsWrittenNeverRecovers(c: Cipher, nonce: seq<Byte>, msg: seq<Byte>, beyond: seq<Byte>,
                                      password: Option<seq<Byte>>)
    requires Sound(c) && |nonce| == SecretboxNonceSize
    requires password.Some? ==> |password.value| >= SecretboxKeySize
    requires Encrypt(c, nonce, msg, password).Some?
    requires |Encrypt(c, nonce, msg, password).value + beyond|
             >= 40 + |Encrypt(c, nonce, msg, password).value|
    ensures DecryptAsWritten(c, Encrypt(c, nonce, msg, password).value,
                             |Encrypt(c, nonce, msg, password).value|, beyond, password) != Some(msg)
  {
    var enc := Encrypt(c, nonce, msg, password).value;
    EncryptedSize(c, nonce, msg, password);
    var box := (enc + beyond)[24..40 + |enc|];
    assert |box| == |msg| + 56;
    var r := DecryptAsWritten(c, enc, |enc|, beyond, password);
    if r.Some? {
      assert |r.value| + 16 == |box|;
    }
  }

  /** MRH_SRV_Decrypt opening exactly the bytes after the nonce. */
  function Decrypt(c: Cipher, enc: seq<Byte>, password: Option<seq<Byte>>): (r: Option<seq<Byte>>)
    requires password.Some? ==> |password.value| >= SecretboxKeySize
    ensures password.None? || |enc| < SecretboxNonceSize ==> r.None?
    ensures password.Some? && |enc| >= SecretboxNonceSize ==> r == c.open(password.value[..32], enc[..24], enc[24..])
  {
    if password.None? || |enc| < SecretboxNonceSize then None
    else c.open(Key(password.value), enc[..SecretboxNonceSize], enc[SecretboxNonceSize..])
  }

  /** Decrypt undoes Encrypt under the same password. */
  lemma DecryptEncrypt(c: Cipher, nonce: seq<Byte>, msg: seq<Byte>, password: Option<seq<Byte>>)
    requires Sound(c) && |nonce| == SecretboxNonceSize
    requires password.Some? ==> |password.value| >= SecretboxKeySize
    requires Encrypt(c, nonce, msg, password).Some?
    ensures Decrypt(c, Encrypt(c, nonce, msg, password).value, password) == Some(msg)
  {
    var enc := Encrypt(c, nonce, msg, password).value;
    var box := c.seal(Key(password.value), nonce, msg);
    assert box.Some? && enc == nonce + box.value;
    assert enc[..24] == nonce && enc[24..] == box.value;
  }

  // ---------------------------------------------------------------------------
  // The authentication nonce: [nonce (24)][MAC (16) + 4 bytes]
  // ---------------------------------------------------------------------------

  /**
   * MRH_SRV_EncryptNonce: seals the four bytes of the u32 as they lie in
   * host memory. A null password is INVALID_PARAM, a failed seal
   * ENCRYPTION_FAILED.
   */
  function EncryptNonce(c: Cipher, random: seq<Byte>, value: nat, password: Option<seq<Byte>>,
                        bigEndian: bool): (r: Result<seq<Byte>, ErrorKind>)
    requires |random| == SecretboxNonceSize && IsUint(value, 4)
    requires password.Some? ==> |password.value| >= SecretboxKeySize
    ensures password.None? ==> r == Err(InvalidParam)
    ensures r.Err? ==> r.error in {InvalidParam, EncryptionFailed}
    ensures r.Ok? ==> (|r.value| >= 24 && r.value[..24] == random
      && Some(r.value[24..]) == c.seal(password.value[..32], random, HostBytes(value, 4, bigEndian)))
    ensures password.Some? ==>
              r == match c.seal(password.value[..32], random, HostBytes(value, 4, bigEndian))
                   case None => Err(EncryptionFailed)
                   case Some(box) => Ok(random + box)
  {
    if password.None? then Err(InvalidParam)
    else
      match c.seal(Key(password.value), random, HostBytes(value, 4, bigEndian))
      case None => Err(EncryptionFailed)
      case Some(box) => Ok(random + box)
  }

  /** An encrypted nonce fills MRH_SRV_SIZE_NONCE_HASH bytes. */
  lemma EncryptNonceSize(c: Cipher, random: seq<Byte>, value: nat, password: Option<seq<Byte>>, bigEndian: bool)
    requires Sound(c) && |random| == SecretboxNonceSize && IsUint(value, 4)
    requires password.Some? ==> |password.value| >= SecretboxKeySize
    requires EncryptNonce(c, random, value, password, bigEndian).Ok?
    ensures |EncryptNonce(c, random, value, password, bigEndian).value| == NonceHashSize
  {
    var box := c.seal(Key(password.value), random, HostBytes(value, 4, bigEndian));
    assert box.Some?;
  }

  /**
   * MRH_SRV_DecryptNonce: opens MACBYTES + 4 bytes after the 24-byte nonce
   * and reads the result as a host u32.
   */
  function DecryptNonce(c: Cipher, enc: seq<Byte>, password: Option<seq<Byte>>, bigEndian: bool)
    : (r: Result<nat, ErrorKind>)
    requires |enc| >= NonceHashSize
    requires password.Some? ==> |password.value| >= SecretboxKeySize
    ensures password.None? ==> r == Err(InvalidParam)
    ensures r.Err? ==> r.error in {InvalidParam, EncryptionFailed}
    ensures r.Ok? ==> exists m :: c.open(password.value[..32], enc[..24], enc[24..44]) == Some(m)
                                 && r.value == FromHostBytes(m, bigEndian)
    ensures password.Some? ==>
              r == match c.open(password.value[..32], enc[..24], enc[24..44])
                   case None => Err(EncryptionFailed)
                   case Some(m) => Ok(FromHostBytes(m, bigEndian))
  {
    if password.None? then Err(InvalidParam)
    else
      match c.open(Key(password.value), enc[..SecretboxNonceSize], enc[SecretboxNonceSize..NonceHashSize])
      case None => Err(EncryptionFailed)
      case Some(m) => Ok(FromHostBytes(m, bigEndian))
  }

  /** On the host that encrypted it, the nonce decrypts to its own value. */
  lemma DecryptNonceEncryptNonce(c: Cipher, random: seq<Byte>, value: nat, password: Option<seq<Byte>>,
                                 tail: seq<Byte>, bigEndian: bool)
    requires Sound(c) && |random| == SecretboxNonceSize && IsUint(value, 4)
    requires password.Some? ==> |password.value| >= SecretboxKeySize
    requires EncryptNonce(c, random, value, password, bigEndian).Ok?
    ensures DecryptNonce(c, EncryptNonce(c, random, value, password, bigEndian).value + tail,
                         password, bigEndian) == Ok(value)
  {
    NonceOpened(c, random, value, password, tail, bigEndian);
    if bigEndian {
      ReverseInvolutive(LE(value, 4));
    }
    FromLEOfLE(value, 4);
  }

  /**
   * The nonce travels in the sender's byte order: read back on a host of the
   * other byte order it comes out byte-swapped.
   */
  lemma DecryptNonceOtherHost(c: Cipher, random: seq<Byte>, value: nat, password: Option<seq<Byte>>,
                              tail: seq<Byte>, bigEndian: bool)
    requires Sound(c) && |random| == SecretboxNonceSize && IsUint(value, 4)
    requires password.Some? ==> |password.value| >= SecretboxKeySize
    requires EncryptNonce(c, random, value, password, bigEndian).Ok?
    ensures DecryptNonce(c, EncryptNonce(c, random, value, password, bigEndian).value + tail,
                         password, !bigEndian) == Ok(Bswap(value, 4))
  {
    NonceOpened(c, random, value, password, tail, bigEndian);
    if bigEndian {
      ReverseInvolutive(LE(value, 4));
    }
  }

  lemma NonceOpened(c: Cipher, random: seq<Byte>, value: nat, password: Option<seq<Byte>>,
                    tail: seq<Byte>, bigEndian: bool)
    requires Sound(c) && |random| == SecretboxNonceSize && IsUint(value, 4)
    requires password.Some? ==> |password.value| >= SecretboxKeySize
    requires EncryptNonce(c, random, value, password, bigEndian).Ok?
    ensures var enc := EncryptNonce(c, random, value, password, bigEndian).value + tail;
            c.open(password.value[..32], enc[..24], enc[24..44]) == Some(HostBytes(value, 4, bigEndian))
  {
    var m := HostBytes(value, 4, bigEndian);
    var box := c.seal(Key(password.value), random, m);
    assert box.Some?;
    var enc := EncryptNonce(c, random, value, password, bigEndian).value + tail;
    assert enc[..24] == random && enc[24..44] == box.value;
  }
}

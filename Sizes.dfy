/**
 * Field and buffer sizes (MRH_ServerSizes.h, MRH_MsQuicContext.h) and the
 * libsodium secretbox sizes the code relies on.
 *
 * Several macros of MRH_ServerSizes.h are written without parentheses; every
 * place that uses them does so alone or as an array index, so they expand to
 * the values below.
 */
module Sizes {

  const ServerAddressSize: nat := 256
  const AccountMailSize: nat := 128
  const AccountPasswordSize: nat := 32
  const AccountPasswordSaltSize: nat := 16
  const DeviceKeySize: nat := 25

  /** crypto_secretbox_NONCEBYTES, crypto_secretbox_MACBYTES, crypto_secretbox_KEYBYTES. */
  const SecretboxNonceSize: nat := 24
  const SecretboxMacSize: nat := 16
  const SecretboxKeySize: nat := 32

  /** MRH_SRV_SIZE_NONCE_HASH: nonce, MAC and the sealed 4-byte nonce. */
  const NonceHashSize: nat := 24 + 16 + 4

  /** MRH_SRV_SIZE_MESSAGE_BUFFER_MAX: the largest tag-plus-fields message. */
  const MessageBufferMax: nat := 1024
  /** MRH_SRV_SIZE_TEXT_STRING: the buffer less the tag and the 8-byte timestamp. */
  const TextStringSize: nat := MessageBufferMax - 9
  /** MRH_SRV_SIZE_CUSTOM_BUFFER: the buffer less the tag. */
  const CustomBufferSize: nat := MessageBufferMax - 1
  const NotificationStringSize: nat := 256

  /** MRH_SRV_MESSAGE_BUFFER_COUNT: slots per direction and connection. */
  const MessageBufferCount: nat := 32

  /** sizeof(QUIC_BUFFER) on an LP64 host: a uint32_t length, padding and a pointer. */
  const QuicBufferHeaderSize: nat := 16
}

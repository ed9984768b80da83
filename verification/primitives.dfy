/**
 * The foreign code the auth client calls, passed in as functions: JSON
 * serialisation, UTF-8 encoding, SHA-256 (FIPS 180-4) and AES-256-GCM
 * encryption (NIST SP 800-38D). Only their result shapes are known.
 */
module Primitives {
  import opened Wrappers
  import opened Bytes
  import opened AuthRequests

  /** 32 bytes: a SHA-256 digest, and the AES-256 key. */
  type Bytes32 = s: seq<byte> | |s| == 32 witness seq(32, _ => 0)

  /** The 12-byte GCM nonce (`getRandomValues(new Uint8Array(12))`). */
  type Nonce = s: seq<byte> | |s| == 12 witness seq(12, _ => 0)

  datatype Primitives = Primitives(
    /** `JSON.stringify` of a request. */
    stringify: AuthRequest -> string,
    /** `new TextEncoder().encode`. */
    encodeUtf8: string -> seq<byte>,
    /** `crypto.subtle.digest('SHA-256', ·)`. */
    sha256: seq<byte> -> Bytes32,
    /**
     * `importKey` then `encrypt` with AES-GCM under a key and nonce: the
     * ciphertext with its tag, or `None` when WebCrypto rejects the call.
     */
    aesGcmEncrypt: (seq<byte>, Nonce, seq<byte>) -> Option<seq<byte>>)
}

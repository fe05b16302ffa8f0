/** The part of the browser's Web Cryptography API (`window.crypto.subtle`)
    that the library calls.  The AES-GCM computation, key generation and
    JWK validation happen inside the platform, so each operation is an
    injected, uninterpreted function; what the library relies on is stated
    as laws that callers assume of the platform. */
module WebCrypto {
  import opened Util
  import opened Results

  /** A key living inside the crypto subsystem, known only by a handle. */
  datatype CryptoKey = CryptoKey(handle: nat)

  /** A JSON Web Key (RFC 7517) as the platform exports it: algorithm,
      extractable flag, base64url key material, permitted operations, key type. */
  datatype JsonWebKey = JsonWebKey(alg: string, ext: bool, k: string, keyOps: seq<string>, kty: string)

  /** The platform operations, each a single asynchronous outcome. */
  datatype SubtleCrypto = SubtleCrypto(
    generateKey: (string, nat) -> Result<CryptoKey>,                        // algorithm name, key length in bits
    importKey: (string, JsonWebKey, string) -> Result<CryptoKey>,           // format, key, algorithm name
    exportKey: (string, CryptoKey) -> Result<JsonWebKey>,                   // format, key
    encrypt: (string, seq<byte>, CryptoKey, seq<byte>) -> Result<seq<byte>>, // algorithm name, iv, key, plaintext
    decrypt: (string, seq<byte>, CryptoKey, seq<byte>) -> Result<seq<byte>>  // algorithm name, iv, key, ciphertext
  )

  /** The AEAD law: what the cipher produces under a key and an iv, the
      cipher turns back into the plaintext under the same key and iv. */
  ghost predicate AeadRoundTrip(subtle: SubtleCrypto, algorithm: string)
  {
    forall iv, key, plaintext ::
      subtle.encrypt(algorithm, iv, key, plaintext).Success? ==>
        subtle.decrypt(algorithm, iv, key, subtle.encrypt(algorithm, iv, key, plaintext).value) == Success(plaintext)
  }

  /** Exporting a key the platform imported from a JWK yields the same key
      material (`k`). */
  ghost predicate ExportKeepsMaterial(subtle: SubtleCrypto, format: string, algorithm: string)
  {
    forall jwk, key ::
      subtle.importKey(format, jwk, algorithm) == Success(key) && subtle.exportKey(format, key).Success? ==>
        subtle.exportKey(format, key).value.k == jwk.k
  }
}

/**
 * The CryptoJS primitives the vault calls, kept uninterpreted: each is a
 * field of `Primitives`, so every operation of the model takes the library as
 * a parameter. `Sound` is the only thing assumed about them.
 */
module Crypto {

  /** A derived key, as the hex string `PBKDF2(...).toString()` yields. */
  type Key = string

  /**
   * The random salt `CryptoJS.AES.encrypt` draws for every call when it is
   * given a passphrase; it makes encryption non-deterministic.
   */
  type Nonce = nat

  datatype Primitives = Primitives(
    aesEncrypt: (Key, Nonce, string) -> string, // AES.encrypt(p, key).toString()
    aesDecrypt: (Key, string) -> string,        // AES.decrypt(ct, key).toString(Utf8)
    hmacSha256: (Key, string) -> string,        // HmacSHA256(data, key).toString()
    pbkdf2: (string, seq<bv8>, nat, nat) -> Key // PBKDF2(pass, salt, {keySize, iterations})
  )

  /** The field separator of an encrypted blob. */
  const SEPARATOR: char := ':'

  /**
   * What the model assumes of the library: AES decryption undoes encryption
   * under the same key, and both the ciphertext encoding (base64) and the
   * HMAC encoding (hex) are non-empty and never contain the separator.
   */
  ghost predicate Sound(c: Primitives) {
    && (forall k, n, p :: c.aesDecrypt(k, c.aesEncrypt(k, n, p)) == p)
    && (forall k, n, p :: c.aesEncrypt(k, n, p) != [] && SEPARATOR !in c.aesEncrypt(k, n, p))
    && (forall k, d :: c.hmacSha256(k, d) != [] && SEPARATOR !in c.hmacSha256(k, d))
  }

  /** Key-derivation parameters shared by both vault variants. */
  const PASSPHRASE: string := "your-secret-key"
  const KEY_SIZE_WORDS: nat := 256 / 32
  const ITERATIONS: nat := 1000

  /** The pinned salt, hex `abcdef0123456789abcdef0123456789` as bytes. */
  const FIXED_SALT: seq<bv8> := [
    0xab, 0xcd, 0xef, 0x01, 0x23, 0x45, 0x67, 0x89,
    0xab, 0xcd, 0xef, 0x01, 0x23, 0x45, 0x67, 0x89
  ]

  /** The vault key derived from the fixed passphrase and a salt. */
  function DeriveKey(c: Primitives, salt: seq<bv8>): Key {
    c.pbkdf2(PASSPHRASE, salt, KEY_SIZE_WORDS, ITERATIONS)
  }

  /** The module-level key of the current vault: derived from the pinned salt. */
  function SecretKey(c: Primitives): Key {
    DeriveKey(c, FIXED_SALT)
  }
}

/**
 * The integrity-checked blob: `encrypt` produces `hmac(ct) + ":" + ct`, and
 * `decrypt` checks the tag before it ever calls AES.
 */
module Cipher {
  import opened Wrappers
  import opened Crypto
  import JsString

  /**
   * `encrypt(password)`: AES ciphertext, prefixed by its HMAC tag. Under a
   * sound library, decrypting the blob gives the password back, `""` included.
   */
  function Encrypt(c: Primitives, key: Key, nonce: Nonce, password: string): (blob: string)
    ensures Sound(c) ==> Decrypt(c, key, blob) == Some(password)
  {
    var ct := c.aesEncrypt(key, nonce, password);
    SealedBlobOpens(c, key, nonce, password);
    c.hmacSha256(key, ct) + [SEPARATOR] + ct
  }

  /** The blob `encrypt` builds passes the integrity check and decrypts to the password. */
  lemma SealedBlobOpens(c: Primitives, key: Key, nonce: Nonce, password: string)
    ensures Sound(c) ==>
      var ct := c.aesEncrypt(key, nonce, password);
      Decrypt(c, key, c.hmacSha256(key, ct) + [SEPARATOR] + ct) == Some(password)
  {
    if Sound(c) {
      var ct := c.aesEncrypt(key, nonce, password);
      DecryptFields(c, key, c.hmacSha256(key, ct), ct, []);
      assert c.hmacSha256(key, ct) + [SEPARATOR] + ct + [] == c.hmacSha256(key, ct) + [SEPARATOR] + ct;
    }
  }

  /** An encrypted blob has exactly two fields: the tag of the ciphertext, then the ciphertext. */
  lemma EncryptFormat(c: Primitives, key: Key, nonce: Nonce, password: string)
    requires Sound(c)
    ensures var ct := c.aesEncrypt(key, nonce, password);
      JsString.Split(Encrypt(c, key, nonce, password), SEPARATOR) == [c.hmacSha256(key, ct), ct]
  {
    var ct := c.aesEncrypt(key, nonce, password);
    var tag := c.hmacSha256(key, ct);
    JsString.SplitJoin([tag, ct], SEPARATOR);
    assert JsString.Join([tag, ct], SEPARATOR) == tag + [SEPARATOR] + ct;
  }

  /**
   * `decrypt(blob)`: the destructuring `[hash, data] = blob.split(':')` keeps
   * the first two pieces (`data` is `undefined` when there is no separator);
   * an empty or missing piece, or a tag that does not match, yields `null`.
   */
  function Decrypt(c: Primitives, key: Key, blob: string): (plain: Option<string>)
    ensures SEPARATOR !in blob ==> plain == None
    ensures plain.Some? ==>
      var pieces := JsString.Split(blob, SEPARATOR);
      && |pieces| >= 2 && pieces[0] != [] && pieces[1] != []
      && c.hmacSha256(key, pieces[1]) == pieces[0]
      && plain.value == c.aesDecrypt(key, pieces[1])
  {
    var pieces := JsString.Split(blob, SEPARATOR);
    var hash := pieces[0];
    var data := if |pieces| >= 2 then Some(pieces[1]) else None;
    if hash == [] || data.None? || data.value == [] then None
    else if c.hmacSha256(key, data.value) != hash then None
    else Some(c.aesDecrypt(key, data.value))
  }

  /**
   * Decryption of any blob that holds a separator: `tag ":" data` followed by
   * nothing or by a further `":" ...` tail, which is ignored. Together with
   * the separator-free case of `Decrypt`'s contract this covers every string.
   */
  lemma DecryptFields(c: Primitives, key: Key, tag: string, data: string, rest: string)
    requires SEPARATOR !in tag && SEPARATOR !in data
    requires rest == [] || rest[0] == SEPARATOR
    ensures Decrypt(c, key, tag + [SEPARATOR] + data + rest) ==
      if tag != [] && data != [] && c.hmacSha256(key, data) == tag
      then Some(c.aesDecrypt(key, data))
      else None
  {
    var blob := tag + [SEPARATOR] + data + rest;
    assert blob == tag + ([SEPARATOR] + data + rest);
    JsString.SplitPrefix(tag, [SEPARATOR] + data + rest, SEPARATOR);
    assert ([SEPARATOR] + data + rest)[1..] == data + rest;
    JsString.SplitPrefix(data, rest, SEPARATOR);
    if rest == [] {
      assert JsString.Split(data + rest, SEPARATOR)[0] == data;
    } else {
      assert rest == [SEPARATOR] + rest[1..];
      assert JsString.Split(data + rest, SEPARATOR)[0] == data;
    }
    assert JsString.Split(blob, SEPARATOR)[1] == data;
  }

  /**
   * The integrity check comes first: whether a blob is accepted does not
   * depend on AES decryption at all, so a rejected blob never reaches it.
   */
  lemma IntegrityBeforeDecryption(c: Primitives, key: Key, blob: string, aes: (Key, string) -> string)
    ensures Decrypt(c.(aesDecrypt := aes), key, blob).Some? == Decrypt(c, key, blob).Some?
  {
  }

  /** Tamper detection: replacing the tag of a blob by any other tag is rejected. */
  lemma ForgedTagRejected(c: Primitives, key: Key, nonce: Nonce, password: string, forged: string)
    requires Sound(c)
    requires SEPARATOR !in forged
    requires forged != c.hmacSha256(key, c.aesEncrypt(key, nonce, password))
    ensures Decrypt(c, key, forged + [SEPARATOR] + c.aesEncrypt(key, nonce, password)) == None
  {
    var ct := c.aesEncrypt(key, nonce, password);
    DecryptFields(c, key, forged, ct, []);
    assert forged + [SEPARATOR] + ct + [] == forged + [SEPARATOR] + ct;
  }

  /** A blob encrypted under one key is rejected under a key whose tag of its ciphertext differs. */
  lemma OtherKeyRejected(c: Primitives, key: Key, other: Key, nonce: Nonce, password: string)
    requires Sound(c)
    requires c.hmacSha256(other, c.aesEncrypt(key, nonce, password)) != c.hmacSha256(key, c.aesEncrypt(key, nonce, password))
    ensures Decrypt(c, other, Encrypt(c, key, nonce, password)) == None
  {
    var ct := c.aesEncrypt(key, nonce, password);
    DecryptFields(c, other, c.hmacSha256(key, ct), ct, []);
    assert Encrypt(c, key, nonce, password) == c.hmacSha256(key, ct) + [SEPARATOR] + ct + [];
  }
}

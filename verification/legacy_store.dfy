/**
 * The earlier vault variant: the same blob format and list logic, but its key
 * is derived at every page load from 16 freshly random salt bytes, and it has
 * no delete or update.
 */
module LegacyStore {
  import opened Wrappers
  import opened Crypto
  import opened History
  import Cipher
  import Vault

  /** The module-level key of one page load, derived from that load's random salt. */
  function SessionKey(c: Primitives, loadSalt: seq<bv8>): Key {
    DeriveKey(c, loadSalt)
  }

  /** `storePassword` of this variant, in a page load that drew `loadSalt`. */
  function StorePassword(c: Primitives, loadSalt: seq<bv8>, store: Vault.Store, fingerprint: Option<string>,
                         password: string, now: int, nonce: Nonce): (r: Vault.Store)
    ensures fingerprint.None? || fingerprint == Some([]) ==> r == store
    ensures fingerprint.Some? && fingerprint.value != [] ==>
      var fp := fingerprint.value;
      var before := Vault.HistoryOf(store, fp);
      && r.Keys == store.Keys + {fp}
      && (forall k :: k in store && k != fp ==> r[k] == store[k])
      && |r[fp]| == (if |before| >= MAX_HISTORY then |before| else |before| + 1)
      && r[fp][0] == Entry(now, Cipher.Encrypt(c, SessionKey(c, loadSalt), nonce, password))
      && r[fp][1..] == before[..|r[fp]| - 1]
      && (|before| <= MAX_HISTORY ==> |r[fp]| <= MAX_HISTORY)
  {
    Vault.StorePassword(c, SessionKey(c, loadSalt), store, fingerprint, password, now, nonce)
  }

  /** `fetchPasswords` of this variant, in a page load that drew `loadSalt`. */
  function FetchPasswords(c: Primitives, loadSalt: seq<bv8>, store: Vault.Store, fingerprint: string): (shown: seq<Vault.Shown>)
    ensures fingerprint !in store ==> shown == []
    ensures fingerprint in store ==> |shown| == |store[fingerprint]|
    ensures forall i :: 0 <= i < |shown| ==>
      && shown[i].timestamp == store[fingerprint][i].timestamp
      && shown[i].password == Vault.Reveal(Cipher.Decrypt(c, SessionKey(c, loadSalt), store[fingerprint][i].blob))
  {
    Vault.FetchPasswords(c, SessionKey(c, loadSalt), store, fingerprint)
  }

  /** Within one page load a stored password reads back. */
  lemma SameLoadRoundTrip(c: Primitives, loadSalt: seq<bv8>, store: Vault.Store, fingerprint: string,
                          password: string, now: int, nonce: Nonce)
    requires Sound(c)
    requires fingerprint != [] && password != []
    ensures FetchPasswords(c, loadSalt, StorePassword(c, loadSalt, store, Some(fingerprint), password, now, nonce), fingerprint)[0]
         == Vault.Shown(now, password)
  {
  }

  /**
   * As written, a password stored in one page load cannot be read in a later
   * one: whenever the later load's key tags the stored ciphertext differently
   * (as a key-dependent HMAC does for keys from different random salts), the
   * integrity check fails and the entry reads as the sentinel.
   * `DemoCrypto.LaterLoadWitness` exhibits a sound library and two salts
   * where this happens.
   */
  lemma LaterLoadCannotRead(c: Primitives, firstLoad: seq<bv8>, laterLoad: seq<bv8>, store: Vault.Store,
                            fingerprint: string, password: string, now: int, nonce: Nonce)
    requires Sound(c)
    requires fingerprint != []
    requires var ct := c.aesEncrypt(SessionKey(c, firstLoad), nonce, password);
      c.hmacSha256(SessionKey(c, laterLoad), ct) != c.hmacSha256(SessionKey(c, firstLoad), ct)
    ensures var written := StorePassword(c, firstLoad, store, Some(fingerprint), password, now, nonce);
      FetchPasswords(c, laterLoad, written, fingerprint)[0] == Vault.Shown(now, Vault.DECRYPTION_ERROR)
  {
    var k1 := SessionKey(c, firstLoad);
    var k2 := SessionKey(c, laterLoad);
    Cipher.OtherKeyRejected(c, k1, k2, nonce, password);
    var written := StorePassword(c, firstLoad, store, Some(fingerprint), password, now, nonce);
    Vault.FetchAt(c, k2, written, fingerprint, 0);
  }

  /**
   * The corrected key derivation (the current vault's): the salt is pinned,
   * so the key is the same in every page load and a stored password reads
   * back in any later load.
   */
  lemma PinnedKeyReadsInLaterLoad(c: Primitives, firstLoad: seq<bv8>, laterLoad: seq<bv8>, store: Vault.Store,
                                  fingerprint: string, password: string, now: int, nonce: Nonce)
    requires Sound(c)
    requires fingerprint != [] && password != []
    ensures var written := Vault.StorePassword(c, PinnedSessionKey(c, firstLoad), store, Some(fingerprint), password, now, nonce);
      Vault.FetchPasswords(c, PinnedSessionKey(c, laterLoad), written, fingerprint)[0] == Vault.Shown(now, password)
  {
  }

  /**
   * The key of a page load under the pinned salt. It ignores `loadSalt` on
   * purpose: whatever random bytes the load drew, the key is `SecretKey`.
   */
  function PinnedSessionKey(c: Primitives, loadSalt: seq<bv8>): Key {
    SecretKey(c)
  }
}

/**
 * A concrete library that satisfies `Crypto.Sound`: a key-independent,
 * reversible "cipher" and a tag that depends on the key. It shows that what
 * `Sound` assumes is consistent, and it is the witness for the
 * cross-page-load failure of the random-salt vault.
 */
module DemoCrypto {
  import opened Crypto
  import opened Wrappers
  import Vault
  import LegacyStore

  /** One character, with the separator and the escape character escaped. */
  function EscapeChar(ch: char): (e: string)
    ensures SEPARATOR !in e
  {
    if ch == ':' then "%3" else if ch == '%' then "%%" else [ch]
  }

  /** `s` with every character escaped; never contains the separator. */
  function Escape(s: string): (e: string)
    ensures SEPARATOR !in e
    decreases |s|
  {
    if |s| == 0 then [] else EscapeChar(s[0]) + Escape(s[1..])
  }

  /** The inverse of `Escape`. */
  function Unescape(e: string): string
    decreases |e|
  {
    if |e| == 0 then []
    else if e[0] == '%' && |e| >= 2 then (if e[1] == '3' then ":" else [e[1]]) + Unescape(e[2..])
    else [e[0]] + Unescape(e[1..])
  }

  lemma {:induction false} UnescapeEscape(s: string)
    ensures Unescape(Escape(s)) == s
    decreases |s|
  {
    if |s| > 0 {
      var rest := Escape(s[1..]);
      UnescapeEscape(s[1..]);
      var e := EscapeChar(s[0]) + rest;
      if s[0] == ':' || s[0] == '%' {
        assert e[2..] == rest;
      } else {
        assert e[1..] == rest;
      }
      assert s == [s[0]] + s[1..];
    }
  }

  /** `Escape` is injective. */
  lemma EscapeInjective(a: string, b: string)
    requires a != b
    ensures Escape(a) != Escape(b)
  {
    UnescapeEscape(a);
    UnescapeEscape(b);
  }

  /** The demo key derivation: one letter per salt byte, so distinct salts give distinct keys. */
  function KeyOf(salt: seq<bv8>): Key {
    seq(|salt|, i requires 0 <= i < |salt| => (salt[i] as int + 0x41) as char)
  }

  /** A toy library: ciphertext and tag are escaped text, the tag depends only on the key. */
  const Demo: Primitives := Primitives(
    (k: Key, n: Nonce, p: string) => "U" + Escape(p),
    (k: Key, ct: string) => if |ct| >= 1 then Unescape(ct[1..]) else [],
    (k: Key, d: string) => "H" + Escape(k),
    (pass: string, salt: seq<bv8>, size: nat, iterations: nat) => KeyOf(salt)
  )

  /** The toy library meets the assumptions the model makes of any crypto library. */
  lemma DemoIsSound()
    ensures Sound(Demo)
  {
    forall k: Key, n: Nonce, p: string
      ensures Demo.aesDecrypt(k, Demo.aesEncrypt(k, n, p)) == p
    {
      UnescapeEscape(p);
      assert ("U" + Escape(p))[1..] == Escape(p);
    }
  }

  /** Different salts give different keys, and different keys different tags. */
  lemma DemoTagsSeparateSalts(s1: seq<bv8>, s2: seq<bv8>, d: string)
    requires |s1| > 0 && |s2| > 0 && s1[0] != s2[0]
    ensures Demo.hmacSha256(DeriveKey(Demo, s1), d) != Demo.hmacSha256(DeriveKey(Demo, s2), d)
  {
    var k1 := DeriveKey(Demo, s1);
    var k2 := DeriveKey(Demo, s2);
    assert k1[0] != k2[0];
    EscapeInjective(k1, k2);
    assert ("H" + Escape(k1))[1..] == Escape(k1);
    assert ("H" + Escape(k2))[1..] == Escape(k2);
  }

  /**
   * The random-salt vault failing across page loads, concretely: with this
   * sound library, `hunter2` stored for fingerprint `abc` in a load that drew
   * sixteen 0 bytes reads as the sentinel in a load that drew sixteen 1 bytes.
   */
  lemma LaterLoadWitness()
    ensures var firstLoad: seq<bv8> := seq(16, _ => 0);
      var laterLoad: seq<bv8> := seq(16, _ => 1);
      var written := LegacyStore.StorePassword(Demo, firstLoad, map[], Some("abc"), "hunter2", 0, 0);
      && Sound(Demo)
      && LegacyStore.FetchPasswords(Demo, laterLoad, written, "abc") == [Vault.Shown(0, Vault.DECRYPTION_ERROR)]
  {
    var firstLoad: seq<bv8> := seq(16, _ => 0);
    var laterLoad: seq<bv8> := seq(16, _ => 1);
    DemoIsSound();
    var ct := Demo.aesEncrypt(LegacyStore.SessionKey(Demo, firstLoad), 0, "hunter2");
    DemoTagsSeparateSalts(firstLoad, laterLoad, ct);
    LegacyStore.LaterLoadCannotRead(Demo, firstLoad, laterLoad, map[], "abc", "hunter2", 0, 0);
    var written := LegacyStore.StorePassword(Demo, firstLoad, map[], Some("abc"), "hunter2", 0, 0);
    assert |written["abc"]| == 1;
  }
}

/**
 * The IndexedDB object store `passwords`, keyed by fingerprint, as a map from
 * fingerprint to history, and the four vault operations as pure
 * transformations of it. Each operation takes the library and the key it
 * encrypts under; `Date.now()` and the encryption randomness are parameters.
 */
module Vault {
  import opened Wrappers
  import opened Crypto
  import opened History
  import Cipher

  /** fingerprint -> passwords, most recent first */
  type Store = map<string, seq<Entry>>

  /** What `fetchPasswords` returns per entry. */
  datatype Shown = Shown(timestamp: int, password: string)

  /** The sentinel shown for an entry that does not decrypt to a non-empty string. */
  const DECRYPTION_ERROR: string := "Decryption Error"

  /** `entry ? entry.passwords : []` */
  function HistoryOf(store: Store, fingerprint: string): seq<Entry> {
    if fingerprint in store then store[fingerprint] else []
  }

  /** `decrypt(blob) || 'Decryption Error'`: both `null` and `""` are falsy. */
  function Reveal(plain: Option<string>): (shown: string)
    ensures shown != []
    ensures shown == DECRYPTION_ERROR || plain == Some(shown)
    ensures plain.Some? && plain.value != [] ==> shown == plain.value
    ensures plain.None? || plain == Some([]) ==> shown == DECRYPTION_ERROR
  {
    match plain
    case Some(p) => if p != [] then p else DECRYPTION_ERROR
    case None => DECRYPTION_ERROR
  }

  /**
   * `storePassword(fingerprint, password)`: a missing or empty fingerprint is
   * a no-op; otherwise the encrypted password is inserted at the head of the
   * fingerprint's history, evicting the tail of a full one.
   */
  function StorePassword(c: Primitives, key: Key, store: Store, fingerprint: Option<string>,
                         password: string, now: int, nonce: Nonce): (r: Store)
    ensures fingerprint.None? || fingerprint == Some([]) ==> r == store
    ensures fingerprint.Some? && fingerprint.value != [] ==>
      var fp := fingerprint.value;
      var before := HistoryOf(store, fp);
      && r.Keys == store.Keys + {fp}
      && (forall k :: k in store && k != fp ==> r[k] == store[k])
      && |r[fp]| == (if |before| >= MAX_HISTORY then |before| else |before| + 1)
      && r[fp][0] == Entry(now, Cipher.Encrypt(c, key, nonce, password))
      && r[fp][1..] == before[..|r[fp]| - 1]
      && (|before| <= MAX_HISTORY ==> |r[fp]| <= MAX_HISTORY)
  {
    match fingerprint
    case None => store
    case Some(fp) =>
      if fp == [] then store
      else store[fp := Push(HistoryOf(store, fp), Entry(now, Cipher.Encrypt(c, key, nonce, password)))]
  }

  /**
   * `fetchPasswords(fingerprint)`: no record gives the empty list; otherwise
   * each entry is decrypted on its own, keeping its timestamp and position.
   */
  function FetchPasswords(c: Primitives, key: Key, store: Store, fingerprint: string): (shown: seq<Shown>)
    ensures fingerprint !in store ==> shown == []
    ensures fingerprint in store ==> |shown| == |store[fingerprint]|
    ensures forall i :: 0 <= i < |shown| ==>
      && shown[i].timestamp == store[fingerprint][i].timestamp
      && shown[i].password == Reveal(Cipher.Decrypt(c, key, store[fingerprint][i].blob))
  {
    if fingerprint !in store then []
    else
      var history := store[fingerprint];
      seq(|history|, i requires 0 <= i < |history| =>
        Shown(history[i].timestamp, Reveal(Cipher.Decrypt(c, key, history[i].blob))))
  }

  /**
   * `deleteStoredPassword(fingerprint, timestamp)`: no record is a no-op;
   * otherwise every entry with that timestamp is dropped from that record.
   */
  function DeleteStoredPassword(store: Store, fingerprint: string, timestamp: int): (r: Store)
    ensures fingerprint !in store ==> r == store
    ensures r.Keys == store.Keys
    ensures forall k :: k in store && k != fingerprint ==> r[k] == store[k]
    ensures fingerprint in store ==>
      && (forall e :: e in r[fingerprint] <==> e in store[fingerprint] && e.timestamp != timestamp)
      && |r[fingerprint]| == |store[fingerprint]| - Matching(store[fingerprint], timestamp)
      && Subsequence(r[fingerprint], store[fingerprint])
  {
    if fingerprint !in store then store
    else store[fingerprint := Remove(store[fingerprint], timestamp)]
  }

  /**
   * `updateStoredPassword(fingerprint, timestamp, newPassword)`: no record is
   * a no-op; otherwise every entry with that timestamp gets a fresh
   * encryption of the new password (`nonces(i)` is the randomness of the
   * re-encryption at position `i`), and nothing else changes.
   */
  function UpdateStoredPassword(c: Primitives, key: Key, store: Store, fingerprint: string,
                                timestamp: int, newPassword: string, nonces: nat -> Nonce): (r: Store)
    ensures fingerprint !in store ==> r == store
    ensures r.Keys == store.Keys
    ensures forall k :: k in store && k != fingerprint ==> r[k] == store[k]
    ensures fingerprint in store ==>
      var before := store[fingerprint];
      var after := r[fingerprint];
      && |after| == |before|
      && (forall i :: 0 <= i < |after| ==> after[i].timestamp == before[i].timestamp)
      && (forall i :: 0 <= i < |after| && before[i].timestamp != timestamp ==> after[i] == before[i])
      && (forall i :: 0 <= i < |after| && before[i].timestamp == timestamp ==>
            after[i].blob == Cipher.Encrypt(c, key, nonces(i), newPassword))
  {
    if fingerprint !in store then store
    else
      var reseal := (i: nat) => Cipher.Encrypt(c, key, nonces(i), newPassword);
      store[fingerprint := Reseal(store[fingerprint], timestamp, reseal)]
  }

  /**
   * Storing then fetching: the new password comes first with its timestamp
   * (an empty password reads back as the sentinel, since `""` is falsy), and
   * the rest is what was shown before, minus an evicted tail.
   */
  lemma StoreThenFetch(c: Primitives, key: Key, store: Store, fingerprint: string,
                       password: string, now: int, nonce: Nonce)
    requires Sound(c)
    requires fingerprint != []
    ensures var shown := FetchPasswords(c, key, StorePassword(c, key, store, Some(fingerprint), password, now, nonce), fingerprint);
      var before := FetchPasswords(c, key, store, fingerprint);
      && |shown| == (if |before| >= MAX_HISTORY then |before| else |before| + 1)
      && shown[0].timestamp == now
      && (password != [] ==> shown[0].password == password)
      && (password == [] ==> shown[0].password == DECRYPTION_ERROR)
      && shown[1..] == before[..|shown| - 1]
  {
  }

  /** Each shown entry is its own stored entry, revealed. */
  lemma FetchAt(c: Primitives, key: Key, store: Store, fingerprint: string, i: nat)
    requires fingerprint in store && i < |store[fingerprint]|
    ensures i < |FetchPasswords(c, key, store, fingerprint)|
    ensures FetchPasswords(c, key, store, fingerprint)[i]
         == Shown(store[fingerprint][i].timestamp, Reveal(Cipher.Decrypt(c, key, store[fingerprint][i].blob)))
  {
  }

  /** One call of `storePassword` in a sequence of them. */
  datatype StoreCall = StoreCall(now: int, password: string, nonce: Nonce)

  /** The store after the calls, in order, for one fingerprint. */
  function StoreAll(c: Primitives, key: Key, store: Store, fingerprint: string, calls: seq<StoreCall>): (r: Store)
    ensures fingerprint != [] && |calls| > 0 ==> fingerprint in r
    decreases |calls|
  {
    if |calls| == 0 then store
    else
      var last := calls[|calls| - 1];
      StorePassword(c, key, StoreAll(c, key, store, fingerprint, calls[..|calls| - 1]),
                    Some(fingerprint), last.password, last.now, last.nonce)
  }

  /** The entries the calls insert, in call order. */
  function Inserted(c: Primitives, key: Key, calls: seq<StoreCall>): (entries: seq<Entry>)
    ensures |entries| == |calls|
    ensures forall i :: 0 <= i < |calls| ==>
      && entries[i].timestamp == calls[i].now
      && (Sound(c) ==> Cipher.Decrypt(c, key, entries[i].blob) == Some(calls[i].password))
  {
    seq(|calls|, i requires 0 <= i < |calls| =>
      Entry(calls[i].now, Cipher.Encrypt(c, key, calls[i].nonce, calls[i].password)))
  }

  /** A sequence of stores builds the fingerprint's history by repeated `Push`. */
  lemma {:induction false} StoreAllPushes(c: Primitives, key: Key, store: Store, fingerprint: string, calls: seq<StoreCall>)
    requires fingerprint != []
    ensures HistoryOf(StoreAll(c, key, store, fingerprint, calls), fingerprint)
         == PushAll(HistoryOf(store, fingerprint), Inserted(c, key, calls))
    decreases |calls|
  {
    if |calls| > 0 {
      var n := |calls|;
      StoreAllPushes(c, key, store, fingerprint, calls[..n - 1]);
      assert Inserted(c, key, calls)[..n - 1] == Inserted(c, key, calls[..n - 1]);
    }
  }

  /**
   * Bounded history, end to end: after any number of stores of non-empty
   * passwords for a fresh fingerprint, fetching shows exactly the last five
   * passwords with their timestamps, most recent first. Storing P1..P6 shows
   * P6, P5, P4, P3, P2.
   */
  lemma FetchShowsLatestFive(c: Primitives, key: Key, store: Store, fingerprint: string, calls: seq<StoreCall>)
    requires Sound(c)
    requires fingerprint != [] && fingerprint !in store
    requires forall i :: 0 <= i < |calls| ==> calls[i].password != []
    ensures var shown := FetchPasswords(c, key, StoreAll(c, key, store, fingerprint, calls), fingerprint);
      && |shown| == (if |calls| < MAX_HISTORY then |calls| else MAX_HISTORY)
      && forall i :: 0 <= i < |shown| ==>
           shown[i] == Shown(calls[|calls| - 1 - i].now, calls[|calls| - 1 - i].password)
  {
    var r := StoreAll(c, key, store, fingerprint, calls);
    var shown := FetchPasswords(c, key, r, fingerprint);
    var entries := Inserted(c, key, calls);
    assert HistoryOf(store, fingerprint) == [];
    StoreAllPushes(c, key, store, fingerprint, calls);
    var h := HistoryOf(r, fingerprint);
    assert h == PushAll([], entries);
    PushAllKeepsLatest(entries);
    if |calls| == 0 {
      assert shown == [];
    } else {
      assert fingerprint in r && h == r[fingerprint];
      assert |h| == |shown|;
      forall i | 0 <= i < |shown|
        ensures shown[i] == Shown(calls[|calls| - 1 - i].now, calls[|calls| - 1 - i].password)
      {
        var k := |calls| - 1 - i;
        var call := calls[k];
        assert h[i] == entries[k];
        assert h[i] == Entry(call.now, Cipher.Encrypt(c, key, call.nonce, call.password));
        assert Cipher.Decrypt(c, key, h[i].blob) == Some(call.password);
        assert shown[i] == Shown(h[i].timestamp, Reveal(Cipher.Decrypt(c, key, h[i].blob)));
      }
    }
  }

  /** Storing with a `now` no earlier than the newest entry keeps the history newest-first. */
  lemma StoreKeepsNewestFirst(c: Primitives, key: Key, store: Store, fingerprint: string,
                              password: string, now: int, nonce: Nonce)
    requires NewestFirst(HistoryOf(store, fingerprint))
    requires |HistoryOf(store, fingerprint)| == 0 || now >= HistoryOf(store, fingerprint)[0].timestamp
    ensures NewestFirst(HistoryOf(StorePassword(c, key, store, Some(fingerprint), password, now, nonce), fingerprint))
  {
    PushNewestFirst(HistoryOf(store, fingerprint), Entry(now, Cipher.Encrypt(c, key, nonce, password)));
  }

  /**
   * Tamper detection: replacing the tag of one stored blob by a wrong one
   * makes exactly that entry read as the sentinel; all others read as before.
   */
  lemma TamperedEntryIsolated(c: Primitives, key: Key, store: Store, fingerprint: string, i: nat,
                              nonce: Nonce, password: string, forged: string)
    requires Sound(c)
    requires fingerprint in store && i < |store[fingerprint]|
    requires store[fingerprint][i].blob == Cipher.Encrypt(c, key, nonce, password)
    requires SEPARATOR !in forged
    requires forged != c.hmacSha256(key, c.aesEncrypt(key, nonce, password))
    ensures var history := store[fingerprint];
      var tampered := history[i := history[i].(blob := forged + [SEPARATOR] + c.aesEncrypt(key, nonce, password))];
      var shown := FetchPasswords(c, key, store[fingerprint := tampered], fingerprint);
      var before := FetchPasswords(c, key, store, fingerprint);
      && |shown| == |before|
      && shown[i] == Shown(history[i].timestamp, DECRYPTION_ERROR)
      && forall j :: 0 <= j < |shown| && j != i ==> shown[j] == before[j]
  {
    Cipher.ForgedTagRejected(c, key, nonce, password, forged);
  }

  /** Deleting twice is deleting once. */
  lemma DeleteIdempotent(store: Store, fingerprint: string, timestamp: int)
    ensures DeleteStoredPassword(DeleteStoredPassword(store, fingerprint, timestamp), fingerprint, timestamp)
         == DeleteStoredPassword(store, fingerprint, timestamp)
  {
    if fingerprint in store {
      RemoveIdempotent(store[fingerprint], timestamp);
    }
  }

  /** Deleting a timestamp no entry carries leaves the store as it was. */
  lemma DeleteAbsentTimestamp(store: Store, fingerprint: string, timestamp: int)
    requires forall i :: 0 <= i < |HistoryOf(store, fingerprint)| ==> HistoryOf(store, fingerprint)[i].timestamp != timestamp
    ensures DeleteStoredPassword(store, fingerprint, timestamp) == store
  {
    if fingerprint in store {
      assert HistoryOf(store, fingerprint) == store[fingerprint];
      RemoveAbsent(store[fingerprint], timestamp);
    }
  }

  /**
   * Delete removes every entry with the timestamp, not only the first: any
   * two entries stored in the same millisecond both go, and the record
   * shrinks by at least two.
   */
  lemma DeleteRemovesEveryMatch(store: Store, fingerprint: string, timestamp: int, i: nat, j: nat)
    requires fingerprint in store && i < j < |store[fingerprint]|
    requires store[fingerprint][i].timestamp == timestamp && store[fingerprint][j].timestamp == timestamp
    ensures var r := DeleteStoredPassword(store, fingerprint, timestamp)[fingerprint];
      && store[fingerprint][i] !in r && store[fingerprint][j] !in r
      && |r| <= |store[fingerprint]| - 2
  {
    TwoMatches(store[fingerprint], timestamp, i, j);
  }

  /** Updating a timestamp no entry carries leaves the store as it was. */
  lemma UpdateAbsentTimestamp(c: Primitives, key: Key, store: Store, fingerprint: string,
                              timestamp: int, newPassword: string, nonces: nat -> Nonce)
    requires forall i :: 0 <= i < |HistoryOf(store, fingerprint)| ==> HistoryOf(store, fingerprint)[i].timestamp != timestamp
    ensures UpdateStoredPassword(c, key, store, fingerprint, timestamp, newPassword, nonces) == store
  {
    if fingerprint in store {
      assert HistoryOf(store, fingerprint) == store[fingerprint];
      var reseal := (i: nat) => Cipher.Encrypt(c, key, nonces(i), newPassword);
      ResealAbsent(store[fingerprint], timestamp, reseal);
      assert store[fingerprint := store[fingerprint]] == store;
    }
  }

  /**
   * Updating then fetching: every entry with the timestamp reads as the new
   * password (or the sentinel when it is empty), in place; every other entry
   * reads as before.
   */
  lemma UpdateThenFetch(c: Primitives, key: Key, store: Store, fingerprint: string,
                        timestamp: int, newPassword: string, nonces: nat -> Nonce)
    requires Sound(c)
    requires fingerprint in store
    ensures var shown := FetchPasswords(c, key, UpdateStoredPassword(c, key, store, fingerprint, timestamp, newPassword, nonces), fingerprint);
      var before := FetchPasswords(c, key, store, fingerprint);
      && |shown| == |before|
      && (forall i :: 0 <= i < |shown| ==> shown[i].timestamp == before[i].timestamp)
      && (forall i :: 0 <= i < |shown| && before[i].timestamp != timestamp ==> shown[i] == before[i])
      && (forall i :: 0 <= i < |shown| && before[i].timestamp == timestamp ==>
            shown[i].password == if newPassword != [] then newPassword else DECRYPTION_ERROR)
  {
  }

  /** Delete and update keep a newest-first history newest-first. */
  lemma MutationsKeepNewestFirst(c: Primitives, key: Key, store: Store, fingerprint: string,
                                 timestamp: int, newPassword: string, nonces: nat -> Nonce)
    requires NewestFirst(HistoryOf(store, fingerprint))
    ensures NewestFirst(HistoryOf(DeleteStoredPassword(store, fingerprint, timestamp), fingerprint))
    ensures NewestFirst(HistoryOf(UpdateStoredPassword(c, key, store, fingerprint, timestamp, newPassword, nonces), fingerprint))
  {
    if fingerprint in store {
      SubsequenceNewestFirst(Remove(store[fingerprint], timestamp), store[fingerprint]);
    }
  }
}

# Password generator vault — Dafny model

This project models the core of a browser password generator: the encrypted,
per-device password history it keeps in IndexedDB, and the character-class
password generator.

**The vault.** `src/app/_password-generator/_lib/actions.ts` is the current
version. `src/app/_password-generator/store.ts` is an earlier variant. Both
are modelled.

- The object store `passwords` becomes a map from a device fingerprint to its
  history. A history is a list of `Entry(timestamp, blob)`, most recent first.
- The mutating operations (store, delete, update) are pure functions from
  one store to the next. Fetch maps a store to the list it shows.
- CryptoJS (AES, HMAC-SHA256, PBKDF2) appears as the function-typed fields of
  `Crypto.Primitives`. Each operation that encrypts or decrypts takes the
  library and a key as parameters. The `LegacyStore` operations take the
  library and the page load's salt instead, and derive the key from it.
  Delete touches no ciphertext and takes neither.
- The only assumption about the library is `Crypto.Sound`:
  - AES decryption undoes AES encryption under the same key.
  - AES ciphertexts (base64) and HMAC tags (hex) are non-empty.
  - Neither ever contains the `:` separator.
- `DemoCrypto.Demo` is a concrete library that satisfies `Sound`. It shows
  that the assumption is consistent, and it witnesses the cross-page-load
  failure of the `store.ts` variant.

Modules:

- `Cipher` covers the blob format `hmac(ct) ":" ct` and `decrypt`.
  - `decrypt` keeps the first two fields of the blob split on `:`.
  - It checks the tag before it calls AES.
- `History` covers the list logic of insert, delete and update.
- `Vault` covers the four exported operations.
- `LegacyStore` covers the `store.ts` variant. That variant derives its key
  from a salt drawn at random each time the page loads.
- `Generator` covers `generatePassword` from
  `src/app/_password-generator/index.tsx`. The random index of each iteration
  is passed in as `draws[i]`.

Inputs from the outside world are explicit parameters:

- `Date.now()` is the integer `now`.
- The random salt that `AES.encrypt` draws on every call is a `Nonce`. An
  update gets one nonce per position.
- The random salt of each `store.ts` page load is a byte sequence.

Two behaviours differ from what the operation names suggest. The model follows
the code in both:

- `deleteStoredPassword` removes **every** entry with the given timestamp, not
  only the first one.
- `updateStoredPassword` re-encrypts every matching entry, each with fresh
  randomness.

## Model

| member | source | states |
|---|---|---|
| `JsString.Split` | src/app/_password-generator/_lib/actions.ts:22 | `split(':')` returns at least one piece, and no piece contains the separator |
| `JsString.JoinSplit` | src/app/_password-generator/_lib/actions.ts:22 | splitting loses nothing: joining the pieces with the separator gives the original string |
| `JsString.SplitJoin` | src/app/_password-generator/_lib/actions.ts:17-22 | joining separator-free pieces and splitting the result gives exactly those pieces back |
| `Cipher.EncryptFormat` | src/app/_password-generator/_lib/actions.ts:14-18 | an encrypted blob has exactly two fields: the HMAC tag of the ciphertext, then the ciphertext |
| `Cipher.Encrypt` | src/app/_password-generator/_lib/actions.ts:14-18 | under a sound library, decrypting the blob gives the password back, for every password including `""` |
| `Cipher.DecryptFields` | src/app/_password-generator/_lib/actions.ts:21-27 | a blob `tag:data[:...]` decrypts to `aesDecrypt(data)` exactly when tag and data are non-empty and the tag matches the HMAC of data; otherwise `null`; anything after a second `:` is ignored |
| `Cipher.Decrypt` | src/app/_password-generator/_lib/actions.ts:21-27 | a blob without `:` gives `null`; a blob is accepted only if its first two fields are non-empty and the first is the HMAC of the second, and the value is the AES decryption of the second field |
| `Cipher.IntegrityBeforeDecryption` | src/app/_password-generator/_lib/actions.ts:23-26 | whether a blob is accepted does not depend on AES decryption, so rejected blobs never reach it |
| `Cipher.ForgedTagRejected` | src/app/_password-generator/_lib/actions.ts:24-25 | replacing the tag of a genuine blob with any other tag makes decryption return `null` |
| `Cipher.OtherKeyRejected` | src/app/_password-generator/store.ts:34-35 | a blob is rejected under a key whose tag of its ciphertext differs from the stored tag |
| `History.Push` | src/app/_password-generator/_lib/actions.ts:45-49 | the new entry is first; the rest is the old list minus its last entry when it already held 5 or more; at most 5 entries if there were at most 5 before |
| `History.Remove` | src/app/_password-generator/_lib/actions.ts:94 | keeps exactly the entries with another timestamp, in their original order, and removes every match |
| `History.Reseal` | src/app/_password-generator/_lib/actions.ts:115-117 | same length and timestamps; only the blobs of matching entries change, and all other entries stay identical |
| `History.PushNewestFirst` | src/app/_password-generator/_lib/actions.ts:48-49 | inserting an entry no older than the head keeps the history ordered most recent first |
| `History.RemoveAbsent` | src/app/_password-generator/_lib/actions.ts:94 | deleting a timestamp that no entry carries leaves the history as it was |
| `History.RemoveIdempotent` | src/app/_password-generator/_lib/actions.ts:94 | filtering twice is the same as filtering once |
| `History.ResealNewestFirst` | src/app/_password-generator/_lib/actions.ts:115-117 | an update keeps a newest-first history newest-first |
| `History.ResealAbsent` | src/app/_password-generator/_lib/actions.ts:115-117 | updating a timestamp that no entry carries leaves the history as it was |
| `History.PushAllKeepsLatest` | src/app/_password-generator/_lib/actions.ts:47-49 | after any number of inserts into an empty history, it holds the last `min(n, 5)` entries, most recent first |
| `Vault.Reveal` | src/app/_password-generator/_lib/actions.ts:74 | the shown password is never empty; it is the decrypted text when that is non-empty, and `Decryption Error` for `null` or `""` |
| `Vault.StorePassword` | src/app/_password-generator/_lib/actions.ts:30-53 | a missing or empty fingerprint leaves the store unchanged; otherwise only that fingerprint's record changes: the new encrypted entry is at its head, followed by the old list minus exactly its last entry when it held 5 or more, so the length is `|before|` from 5 up and `|before| + 1` below |
| `Vault.FetchPasswords` | src/app/_password-generator/_lib/actions.ts:67-75 | no record gives `[]`; otherwise one result per entry, with the same timestamps in the same order, each password being that entry's decryption when it is a non-empty string and `Decryption Error` otherwise |
| `Vault.DeleteStoredPassword` | src/app/_password-generator/_lib/actions.ts:90-95 | no record is a no-op; otherwise that record loses every entry with the timestamp and keeps the rest in order; other records do not change |
| `Vault.UpdateStoredPassword` | src/app/_password-generator/_lib/actions.ts:111-119 | no record is a no-op; otherwise every matching entry is re-encrypted in place with its timestamp kept, and everything else is identical |
| `Vault.StoreThenFetch` | src/app/_password-generator/_lib/actions.ts:43-75 | after a store, fetch shows the new password first with its timestamp, then what it showed before with exactly one entry evicted when there were 5 or more; an empty password shows as `Decryption Error` |
| `Vault.FetchShowsLatestFive` | src/app/_password-generator/_lib/actions.ts:45-75 | after n stores of non-empty passwords for a new fingerprint, fetch shows exactly the last `min(n, 5)` of them, newest first |
| `Vault.StoreKeepsNewestFirst` | src/app/_password-generator/_lib/actions.ts:48-49 | storing at a time no earlier than the newest entry keeps the record newest-first |
| `Vault.TamperedEntryIsolated` | src/app/_password-generator/_lib/actions.ts:72-75 | forging the tag of one stored entry makes that entry alone show `Decryption Error`; every other entry shows as before |
| `Vault.DeleteIdempotent` | src/app/_password-generator/_lib/actions.ts:90-95 | deleting twice gives the same store as deleting once |
| `Vault.DeleteAbsentTimestamp` | src/app/_password-generator/_lib/actions.ts:94-95 | deleting a timestamp that is not in the record leaves the store unchanged |
| `Vault.DeleteRemovesEveryMatch` | src/app/_password-generator/_lib/actions.ts:94 | for every record, any two entries that share a timestamp are both gone after one delete of that timestamp, and the record shrinks by at least two |
| `Vault.UpdateAbsentTimestamp` | src/app/_password-generator/_lib/actions.ts:113-119 | updating a timestamp that is not in the record leaves the store unchanged |
| `Vault.UpdateThenFetch` | src/app/_password-generator/_lib/actions.ts:115-117 | after an update, matching entries show the new password (or the sentinel if it is empty) in place; all others show as before |
| `Vault.MutationsKeepNewestFirst` | src/app/_password-generator/_lib/actions.ts:94-117 | delete and update both keep a newest-first record newest-first |
| `LegacyStore.StorePassword` | src/app/_password-generator/store.ts:40-56 | a missing or empty fingerprint is a no-op; otherwise the entry of `now` and the password encrypted under the page load's key is at the head of that record, followed by the old list minus exactly one evicted entry when it held 5 or more; other records are unchanged |
| `LegacyStore.FetchPasswords` | src/app/_password-generator/store.ts:59-72 | no record gives `[]`; otherwise one result per entry with the same timestamps in the same order, each password being the entry's decryption under the page load's key when non-empty and `Decryption Error` otherwise |
| `LegacyStore.SameLoadRoundTrip` | src/app/_password-generator/store.ts:24-37 | within one page load, a stored non-empty password reads back first |
| `LegacyStore.LaterLoadCannotRead` | src/app/_password-generator/store.ts:6-9 | for any sound library whose HMAC tags the stored ciphertext differently under the two page loads' keys, a password stored in the first load shows as `Decryption Error` in the later one |
| `DemoCrypto.LaterLoadWitness` | src/app/_password-generator/store.ts:6-9 | with the concrete sound library `DemoCrypto.Demo`, `hunter2` stored for `abc` in a load that drew sixteen 0 bytes reads as `Decryption Error` in a load that drew sixteen 1 bytes |
| `LegacyStore.PinnedKeyReadsInLaterLoad` | src/app/_password-generator/_lib/actions.ts:6-11 | with the pinned salt, a password stored in one page load reads back in any later load |
| `Generator.Charset` | src/app/_password-generator/index.tsx:22-31 | a character is in the set exactly when its class is enabled; the length is the sum of the enabled classes; the set is empty exactly when every class is disabled; the enabled classes appear as contiguous blocks in the order lowercase, uppercase, digits, symbols |
| `Generator.CharAt` | src/app/_password-generator/index.tsx:35 | `charAt` gives at most one character: the character at the index when it is in range, and `""` otherwise |
| `Generator.GeneratePassword` | src/app/_password-generator/index.tsx:33-36 | for a non-empty set, length is `max(passwordLength, 0)`; for an empty set, the result is `""`; character i is the set's character at draw i, from an enabled class |
| `Generator.DefaultsUseEveryClass` | src/app/_password-generator/index.tsx:9-14 | the defaults are length 10 with all four classes enabled, which gives 91 characters |

## Left out

- IndexedDB: `openDB`, the schema upgrade callback, transactions and `tx.done`
  are I/O. A store operation is one pure map update. Persistence errors and
  the atomicity of concurrent read-modify-write calls are not modelled.
- CryptoJS internals are left abstract. No cryptographic strength is claimed.
  A tag collision or a wrong key whose tag still matches is not ruled out.
  AES decryption of text that is not valid UTF-8 (which can throw) is not
  modelled, since it needs a forged tag.
- Strings are sequences of Unicode scalar values, while a JS string is a
  sequence of UTF-16 code units. A password holding a lone surrogate cannot
  be written in the model. On such a password `CryptoJS.AES.encrypt`
  (`actions.ts` line 15, `store.ts` line 25) throws while UTF-8-encoding it,
  so store and update reject before writing. That error path is not
  modelled. Splitting on `:` and the empty-string checks do not depend on it.
- `Math.random()`, the float multiply and `Math.floor` are replaced by the
  supplied indices `draws`.
- `Date.now()` and the `new Date(...)` conversion in fetch: timestamps are
  plain integers throughout. In the source, fetch returns each timestamp as a
  `Date` object, and `password-modal.tsx` (lines 53 and 62) passes that object
  back to delete and update. There the number-to-`Date` comparisons at
  `actions.ts` lines 94 and 116 never match, so deleting or updating from the
  UI leaves the record as it is. The model's delete and update take the
  numeric timestamp that the vault functions declare, and the caller's
  conversion is not part of this model.
- A `passwordLength` that is not an integer (the number input allows it) is
  not modelled. The loop bound is an `int`.
- `utils.ts` (browser fingerprinting), `types.ts`, `password-modal.tsx`,
  `page.tsx`, React state and effects, and the clipboard and `setTimeout`
  code are UI or platform code. None of them is part of this model.
- Key-derivation parameter validation (an invalid key size or iteration count
  as a configuration error) is not done by the code, so it is not modelled.

## Findings

| source | as written | input that shows it | evidently intended | confidence | as-written member | corrected member |
|---|---|---|---|---|---|---|
| src/app/_password-generator/store.ts:6-9 | the key is re-derived from 16 fresh random salt bytes at every module load | store `hunter2` for fingerprint `abc` in one page load, then fetch in a later load that drew a different salt: the entry shows `Decryption Error` (concretely `DemoCrypto.LaterLoadWitness`) | a pinned salt, so every load derives the same key, as `actions.ts` lines 6-11 do | high; not executed | `LegacyStore.LaterLoadCannotRead` | `LegacyStore.PinnedKeyReadsInLaterLoad` |

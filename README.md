# Quick Notes Clipboard: a Dafny model of the note store

Quick Notes Clipboard is a browser extension. It keeps short text snippets ("notes"), each with a category, in `chrome.storage.local`. The popup encrypts the text of every note it saves with one AES-GCM key. That key is read from the `encryption_key` entry (a JWK) when that entry is present; the code meant to store a freshly generated key there never runs (see Findings). The options page merges imported notes into the stored ones and collects custom categories. The test utilities contain an in-memory storage area that enforces a byte quota.

This project models that bookkeeping and proves its properties:

- `Utf8`: the `TextEncoder`/`TextDecoder` pair that turns note text into bytes and back, with a round-trip proof. `TextDecoder` with default options consumes one leading byte order mark (EF BB BF), so text that starts with U+FEFF comes back without it.
- `Cipher`: a stand-in for AES-GCM with a 96-bit IV (section 5.2.1.1 of NIST SP 800-38D). It is a keyed byte mask plus one tag byte over the masked bytes, the IV and the key. Opening under the sealing key and IV gives the plaintext back. Opening succeeds only on a ciphertext that sealing could produce. A different key, one changed ciphertext byte or one changed IV byte makes opening fail.
- `Encryption`: the popup's `encryption` object.
  - `encrypt` returns an `{encrypted, iv}` envelope with a 12-byte IV; `decrypt` returns `null` on failure.
  - `init`/`getStoredKey` form a state machine over the stored key and the in-memory key (class `KeyHolder`).
- `Notes`: the popup's note records.
  - A note's text is a tagged union: a plain string (written by the context menu) or an encrypted envelope.
  - The text and category a note is displayed with.
  - The quota check.
  - Save, delete and edit, as methods of `NoteStorage`, a class that stands for the stored `notes` entry.
  - The search/category filter with its counter and empty-state message.
- `Options`: the options page. The fallback to the default options, the custom-category clean-up, and the import merge.
- `StorageMock`: the test utilities' storage area (`get`, `set`, `clear`) with its `bytesInUse` accounting, as class `LocalArea`.
- `TestData`: `generateMultipleNotes`.

Inputs stand in for the outside world:

- `now`/`clock` for `Date.now()`.
- `iv` for the 12 bytes of `crypto.getRandomValues`.
- `generated` for the key that `crypto.subtle.generateKey` returns.
- `usage` for the result of `getBytesInUse`.
- `readOk` and `writeAccepted` for whether a `chrome.storage.local` read or write succeeds.
- `sizeOf` and `itemsSize` for UTF-8 lengths of `JSON.stringify` output.

## Model

| member | source | states |
|---|---|---|
| `Utf8.Encode` | popup.js:48 | `TextEncoder.encode`: the concatenated one-to-four byte UTF-8 forms of the characters; its round trip is `Utf8.DecodeEncode`, its length `Utf8.EncodeLength` |
| `Utf8.DecodeScalars` | popup.js:77 | the characters of well-formed UTF-8, with malformed input reported as failure; specified by `Utf8.DecodeScalarsEncode` and `Utf8.DecodeScalarsInjective` |
| `Utf8.Decode` | popup.js:77 | `TextDecoder.decode` with default options: one leading EF BB BF is dropped, then the rest is decoded; specified by `Utf8.DecodeEncode` and `Utf8.DecodeInjective` |
| `Utf8.StripBom` | popup.js:77 | the text less one leading U+FEFF, unchanged when it has none |
| `Utf8.DecodeScalarsEncode` | popup.js:48-77 | decoding the characters of an encoding gives the text back |
| `Utf8.DecodeScalarsInjective` | popup.js:77 | bytes whose characters decode to a text are exactly that text's encoding |
| `Utf8.EncodeStartsWithBom` | popup.js:48-77 | an encoding starts with EF BB BF exactly when the text starts with U+FEFF |
| `Utf8.DecodeEncode` | popup.js:46-77 | decoding the encoding of a text gives the text back less one leading U+FEFF; unchanged for text not starting with U+FEFF |
| `Utf8.DecodeInjective` | popup.js:77 | bytes that decode to a text are that text's encoding (and then the text does not start with U+FEFF) or its encoding behind one byte order mark |
| `Utf8.EncodeLength` | popup.js:187 | the encoded size of a note is between 1 and 4 bytes per character, and equals the character count for ASCII |
| `Utf8.DecodeFirstInjective` | popup.js:77 | the bytes consumed for one character are exactly that character's encoding (overlong forms rejected) |
| `Cipher.Seal` | popup.js:50-57 | encryption: the ciphertext is one tag byte longer than the plaintext; what opens is specified by `Cipher.OpenSeal` and the tamper lemmas |
| `Cipher.Open` | popup.js:68-75 | whatever decryption accepts is the sealing of the plaintext it returns |
| `Cipher.OpenSeal` | popup.js:50-57 | opening under the sealing key and IV returns the plaintext |
| `Cipher.OpenWrongKey` | popup.js:66-81 | a ciphertext sealed under one key does not open under another |
| `Cipher.OpenTamperedCiphertext` | tests/storage-tests.js:58-67 | changing any one byte of a ciphertext makes it fail to open |
| `Cipher.OpenBadTag` | popup.js:66-81 | masked bytes followed by anything but their authentication tag are rejected |
| `Cipher.OpenTamperedIv` | popup.js:66-81 | changing any one byte of the IV makes the ciphertext fail to open |
| `Encryption.Encrypt` | popup.js:46-63 | the envelope carries exactly the 12 IV bytes drawn and a ciphertext one tag byte longer than the encoded text; decrypting it under the same key gives the text back, less one leading U+FEFF; exactly the text when it does not start with U+FEFF |
| `Encryption.Decrypt` | popup.js:66-82 | a non-null result is text whose encryption under this key and IV is exactly the given ciphertext (then the text does not start with U+FEFF), or whose encryption behind one byte order mark is; failures are `None` (null) |
| `Encryption.DecryptWrongKey` | popup.js:66-82 | an envelope made under one key decrypts to null under another |
| `Encryption.DecryptCorrupted` | tests/storage-tests.js:58-67 | changing one byte of an envelope's ciphertext makes decryption return null, never text |
| `Encryption.GetStoredKey` | popup.js:31-43 | the stored key when the entry is present, otherwise a freshly generated key that is not stored; its effect on init is stated by `Encryption.InitAsWritten` |
| `Encryption.InitAsWritten` | popup.js:7-13 | after init the key is set; it is the stored key when one is stored, otherwise the freshly generated key; the stored entry is left unchanged in both cases |
| `Encryption.InitPersisting` | popup.js:9-12 | corrected init: the key is set and the stored entry equals it; a stored key is kept as is |
| `Encryption.KeyHolder.constructor` | popup.js:2-5 | the object starts with `key` null over the given stored entry |
| `Encryption.KeyHolder.Init` | popup.js:7-13 | the object's new state is `InitAsWritten` of its old state |
| `Encryption.KeyHolder.InitAndPersist` | popup.js:7-28 | the object's new state is `InitPersisting` of its old state |
| `Encryption.NoteUnreadableInNextSession` | popup.js:31-43 | as written, with no stored key, a note saved in one session fails to decrypt in the next session whenever the next generated key differs |
| `Encryption.NoteReadableInNextSession` | popup.js:7-13 | with the corrected init, a note saved in one session decrypts in the next to its text (less a leading U+FEFF), whatever key the next session would generate |
| `Notes.DisplayText` | popup.js:285-298 | the decrypted text, the error string when decryption yields null or the empty string, or the plain text as stored; its outcomes are stated by `Notes.DisplayTextCases` |
| `Notes.DisplayTextCases` | popup.js:285-298 | an envelope under the current key shows its text less a leading U+FEFF (the error string if nothing is left), one made under another key shows the error string, a plain string is shown as is |
| `Notes.DisplayCategory` | popup.js:276 | the data category is the note's category, or `other` when it is missing or empty; never empty |
| `Notes.CategoryLabel` | popup.js:280 | the badge text is never empty |
| `Notes.CategoryLabelMatchesData` | popup.js:279-280 | the badge text is the upper-cased data category |
| `Notes.CheckStorageQuota` | popup.js:111-122 | space is available when usage is below the quota or cannot be read; the warning shows when usage exceeds the 4 MB threshold; its consequences are stated by `Notes.QuotaWarnsBeforeBlocking` and `Notes.SaveRejectionOrder` |
| `Notes.QuotaWarnsBeforeBlocking` | popup.js:111-122 | with a quota above the 4 MB threshold, the usage warning is always shown by the time a save is refused for lack of space; an unreadable usage never refuses nor warns |
| `Notes.SaveRejection` | popup.js:178-203 | the first failing save guard, or none; its order is stated by `Notes.SaveRejectionOrder` |
| `Notes.SaveGuards` | popup.js:178-203 | the same guard chain given the boolean `checkStorageQuota()` returns |
| `Notes.CheckStorageQuotaAsWritten` | popup.js:111-118 | the quota check as written when `getBytesInUse()` resolves to a number: both destructured fields are `undefined`, so every comparison is false; stated by `Notes.QuotaCheckAsWrittenRefusesAll` |
| `Notes.QuotaCheckAsWrittenRefusesAll` | popup.js:111-118 | as written, the check reports no space and no warning for every usage, so every note that passes the size guard is refused as over quota; the check on a usage below the quota finds room and lets it pass |
| `Notes.SaveRejectionOrder` | popup.js:174-203 | the save guards reject in order (empty text, size over 4194304 bytes, quota, 10000 notes), each exactly when its own check fails and all earlier ones pass; a passing note leaves room under the count limit |
| `Notes.TrimmedHasNoBom` | popup.js:174 | text trimmed by `trim()` never starts with U+FEFF, so the byte order mark rule never alters a saved note |
| `Notes.NewNote` | popup.js:205-216 | the new note has id `now`, the chosen category, no source and an envelope with a 12-byte IV that displays as the saved text when that text is non-empty and does not start with U+FEFF |
| `Notes.Without` | popup.js:335 | a note is kept iff it was present and its id differs from the deleted id |
| `Notes.WithoutAppend` | popup.js:335 | the delete filter distributes over concatenation, so kept notes stay in order |
| `Notes.WithoutAbsent` | popup.js:335 | deleting an id no note has changes nothing |
| `Notes.DeleteIdempotent` | popup.js:335 | deleting twice equals deleting once |
| `Notes.FindIndex` | popup.js:415 | returns -1 iff no note has the id, otherwise the first index with it |
| `Notes.Edited` | popup.js:421-422 | the edited note gets the new text and category and keeps its id, timestamp and source |
| `Notes.CardOf` | popup.js:272-298 | the card a stored note renders as: its display text and its data category; its visibility is stated by `Notes.NoteVisibility` |
| `Notes.SearchTerm` | popup.js:458 | the search input lower-cased, then trimmed |
| `Notes.IsVisible` | popup.js:465-468 | a card is visible when its lower-cased text includes the term and the filter is empty or equals its category |
| `Notes.CountVisible` | popup.js:464-472 | the number of visible cards, never more than the number of cards |
| `Notes.NoteVisibility` | popup.js:465-468 | a stored note's card is visible iff its displayed text, lower-cased, includes the term and the filter is empty, equals its category, or is `other` for a note without category |
| `Notes.EmptySearchShowsAll` | popup.js:464-473 | with an empty search term and no category filter every note is visible |
| `Notes.EmptyStateMessage` | popup.js:475-486 | a message is shown iff no note is visible; which message depends on which of search and filter are set |
| `Notes.FilterNotes` | popup.js:457-487 | each card is shown iff its lower-cased text includes the lower-cased trimmed search term and the filter is empty or equals its category; the counter equals the number shown, is zero iff none is shown, and selects the empty-state message |
| `Notes.NoteStorage.constructor` | popup.js:197-198 | the stored collection is the given one |
| `Notes.NoteStorage.SaveNewNote` | popup.js:171-229 | a rejected or unwritten save leaves the stored notes unchanged; a successful one stores the new note followed by the old notes (only the new note if the read failed), at most 10000 in all, and the first note displays as the trimmed input |
| `Notes.NoteStorage.DeleteNote` | popup.js:330-342 | the stored notes become the old ones without the deleted id (nothing is kept if the read failed) |
| `Notes.NoteStorage.SaveEdit` | popup.js:408-433 | with non-empty trimmed text and the id present, only the first note with that id changes, in text and category; length and ids are unchanged; otherwise nothing is written |
| `Options.EffectiveOptions` | options.js:2-27 | stored options are used whole; with none stored the defaults apply (category `other`, 20 notes, newest first, no backup, no custom categories, the five built-in colours) |
| `Options.NonBlank` | options.js:113-120 | a category is returned iff it is non-empty and the trim of some input |
| `Options.GetCustomCategories` | options.js:112-121 | returns the trimmed non-blank inputs in order; none is empty and none has surrounding whitespace |
| `Options.HasId` | options.js:162 | some current note has the id; computed by `Options.SomeHasId` |
| `Options.Unseen` | options.js:161-165 | an imported note is appended iff no current note has its id |
| `Options.SomeHasId` | options.js:161 | the scan over the current notes answers true iff some current note has the given id |
| `Options.UnseenSnoc` | options.js:160-164 | reading one more imported note appends it to the new notes exactly when its id is not among the current notes |
| `Options.MergeImport` | options.js:156-167 | the merged list is the current notes, unchanged, followed by the imported notes with ids new to the current notes, in file order |
| `Options.SharedNewIdKeptTwice` | options.js:162 | two imported notes sharing a new id are both appended |
| `Options.UnseenAllPresent` | options.js:162 | when every imported id is already present nothing is appended |
| `Options.ReimportAddsNothing` | options.js:159-165 | importing the same file again right after a merge adds nothing |
| `StorageMock.Written` | tests/test-utils.js:28-33 | the data after writing each entry in turn; specified by `StorageMock.WrittenLookup` |
| `StorageMock.Charged` | tests/test-utils.js:28-33 | `bytesInUse` after charging each entry `-oldSize + itemsSize` in turn; specified by `StorageMock.ChargedForNewKeys` |
| `StorageMock.WrittenLookup` | tests/test-utils.js:28-33 | after a write each written key holds its value and every other key is unchanged |
| `StorageMock.ChargedForNewKeys` | tests/test-utils.js:29-31 | writing only new keys raises `bytesInUse` by the size of the whole items object once per key |
| `StorageMock.LocalArea.constructor` | tests/test-utils.js:4-6 | the area starts empty with `bytesInUse` 0 |
| `StorageMock.LocalArea.Get` | tests/test-utils.js:8-20 | one entry per requested key, absent keys included; everything stored when no key list is given |
| `StorageMock.LocalArea.Set` | tests/test-utils.js:22-34 | a write that would exceed 5242880 bytes fails with the quota error and changes neither data nor `bytesInUse`; otherwise each entry is written and charged `-oldSize + itemsSize` in turn |
| `StorageMock.LocalArea.Clear` | tests/test-utils.js:36-39 | data becomes empty and `bytesInUse` 0 |
| `TestData.GenerateMultipleNotes` | tests/test-utils.js:63-74 | `count` notes; note `i` has id clock + `i` and the `i mod 5`-th built-in category; with a clock that does not run backwards the ids strictly increase |

## Left out

- AES-GCM itself, JWK export and import, and `getRandomValues` are not modelled. The cipher is a stand-in with the properties listed above. Its tag is one byte, so only single-byte tampering is proved to be detected. Keys are opaque values. A failing `importKey` (a corrupted stored key) is not modelled.
- `TextDecoder` replaces malformed UTF-8 with U+FFFD. The model reports malformed UTF-8 as a decryption failure instead. Only an authentic ciphertext that `encrypt` did not produce can carry such bytes. Its removal of one leading byte order mark is modelled (`Utf8.Decode`).
- `toLowerCase`/`toUpperCase` are modelled on ASCII letters only. JavaScript strings are taken as sequences of Unicode scalar values; lone UTF-16 surrogates are not modelled.
- `Date.now()` and `new Date()` are read separately in the source. The model uses one reading for a note's id and its timestamp. `toISOString` formatting is not modelled: timestamps are milliseconds.
- `encrypt` cannot yield a falsy envelope, so the `Encryption failed` guard (popup.js:207-209) has no branch in the model.
- Edit compares ids through `parseInt(noteElement.dataset.id)`. The model compares the integer ids directly. This is the same for integer ids.
- `filterNotes` reads the rendered text. Decryption fills that text in asynchronously, so a filter that runs before decryption finishes sees an empty text. The model filters the final display text; this race is not modelled.
- `Notes.CheckStorageQuota` takes `getBytesInUse`'s result as a `{bytesInUse, QUOTA_BYTES}` pair, or as unreadable when the call throws; this is the check as its authors evidently meant it. The destructuring of the number the browser API resolves to is modelled separately (`Notes.CheckStorageQuotaAsWritten`, see Findings). The quota value the browser reports is an input.
- `Encryption.InitAsWritten` models init as it runs: the generate-and-store branch (popup.js:9-12) is never reached, so it has no code in the model.
- All DOM work is left out as UI without algorithmic content: element creation, event listeners, banners and timeouts, `confirm`, the clipboard, edit-mode element swapping, and `isValidUrl`.
- `background.js` is not part of this model. It prepends an unchecked plain-text note through Chrome callbacks and races with the popup on shared storage.
- File picking, blob download, `JSON.parse` of the import file, and `saveOptions`' form reading are left out as I/O.
- `generateLargeNote` is taken as a given `text` input; its loop bound is a float division.
- The sizes of `JSON.stringify` output are inputs: `sizeOf` for a stored value and `itemsSize` for the whole items object.

## Findings

| source | as written | input that shows it | evidently intended | confidence | as-written member | corrected member |
|---|---|---|---|---|---|---|
| popup.js:113-117 | `checkStorageQuota` destructures `{ bytesInUse, QUOTA_BYTES }` from what `getBytesInUse()` resolves to, which is a number; both fields are `undefined`, so `bytesInUse < QUOTA_BYTES` is false and no warning shows | any save of a non-empty note within the size limit, whatever the usage | the bytes in use compared with `chrome.storage.local.QUOTA_BYTES`, so a save goes through while usage is below the quota | high (not executed) | `Notes.QuotaCheckAsWrittenRefusesAll` | `Notes.CheckStorageQuota` |
| popup.js:7-13, 31-43 | `getStoredKey` returns a freshly generated key when none is stored, so `init` never reaches its generate-and-store branch and the key is never persisted | empty storage; first session generates key k1 and saves a note; second session generates k2 ≠ k1 | a generated key is stored, so later sessions decrypt earlier notes | high (not executed) | `Encryption.NoteUnreadableInNextSession` | `Encryption.NoteReadableInNextSession` |

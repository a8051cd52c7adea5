/** The popup's `encryption` object (popup.js:1-83): one AES-GCM key, held in
    memory as `key` and read from the `encryption_key` entry of
    `chrome.storage.local` when that entry is present (the code meant to
    store a fresh key there never runs), and the `encrypt`/`decrypt` pair
    that turns note text into an `{encrypted, iv}` envelope and back. */
module Encryption {
  import opened Wrappers
  import opened Bytes
  import opened Cipher
  import Utf8

  /** The object `encrypt` returns: ciphertext bytes and the IV used. */
  datatype Envelope = Envelope(encrypted: seq<Byte>, iv: seq<Byte>)

  /** `encrypt(text)` under `key`, with `iv` the 12 random bytes drawn by
      `crypto.getRandomValues` (popup.js:46-63). */
  function Encrypt(key: Key, text: string, iv: seq<Byte>): (e: Envelope)
    requires |iv| == IV_LENGTH
    ensures |e.iv| == IV_LENGTH && e.iv == iv
    ensures |e.encrypted| == |Utf8.Encode(text)| + 1
    ensures Decrypt(key, e.encrypted, e.iv) == Some(Utf8.StripBom(text))
    ensures !Utf8.StartsWithBom(text) ==> Decrypt(key, e.encrypted, e.iv) == Some(text)
  {
    Utf8.DecodeEncode(text);
    OpenSeal(key, iv, Utf8.Encode(text));
    Envelope(Seal(key, iv, Utf8.Encode(text)), iv)
  }

  /** `decrypt(encryptedData, iv)` under `key` (popup.js:66-82): `None` is
      the `null` returned when WebCrypto rejects. What it accepts is the
      encryption of the text it returns, or of that text behind one byte
      order mark, which `TextDecoder` drops. */
  function Decrypt(key: Key, encrypted: seq<Byte>, iv: seq<Byte>): (r: Option<string>)
    ensures r.Some? ==> (encrypted == Seal(key, iv, Utf8.Encode(r.value)) && !Utf8.StartsWithBom(r.value))
                        || encrypted == Seal(key, iv, Utf8.BOM_BYTES + Utf8.Encode(r.value))
  {
    match Open(key, iv, encrypted)
    case None => None
    case Some(bytes) =>
      match Utf8.Decode(bytes)
      case None => None
      case Some(text) =>
        Utf8.DecodeInjective(bytes, text);
        Some(text)
  }

  /** An envelope made under one key does not decrypt under another. */
  lemma DecryptWrongKey(k1: Key, k2: Key, text: string, iv: seq<Byte>)
    requires |iv| == IV_LENGTH && k1 != k2
    ensures Decrypt(k2, Encrypt(k1, text, iv).encrypted, iv) == None
  {
    OpenWrongKey(k1, k2, iv, Utf8.Encode(text));
  }

  /** Changing one byte of an envelope's ciphertext makes `decrypt` return
      null, never text (the corruption in tests/storage-tests.js:62-66). */
  lemma DecryptCorrupted(key: Key, text: string, iv: seq<Byte>, j: nat, x: Byte)
    requires |iv| == IV_LENGTH
    requires j < |Encrypt(key, text, iv).encrypted| && x != Encrypt(key, text, iv).encrypted[j]
    ensures Decrypt(key, Encrypt(key, text, iv).encrypted[j := x], iv) == None
  {
    OpenTamperedCiphertext(key, iv, Utf8.Encode(text), j, x);
  }

  /** The persisted key slot and the in-memory key. `None` in `stored` is a
      missing (falsy) `encryption_key` entry; `None` in `current` is the
      initial `key: null`. */
  datatype KeyState = KeyState(stored: Option<Key>, current: Option<Key>)

  /** `getStoredKey()` (popup.js:31-43): the imported stored key or, when
      there is none, a key freshly generated (`generated`) and NOT stored. */
  function GetStoredKey(stored: Option<Key>, generated: Key): (k: Key)
  {
    if stored.Some? then stored.value else generated
  }

  /** `init()` as written (popup.js:7-13): `key` is set from
      `getStoredKey()`. That never yields a falsy key, so the
      generate-and-store branch (popup.js:9-12) never runs. */
  function InitAsWritten(s: KeyState, generated: Key): (t: KeyState)
    ensures t.current.Some?
    ensures s.stored.Some? ==> t.current == s.stored
    ensures s.stored.None? ==> t.current == Some(generated)
    ensures t.stored == s.stored
  {
    KeyState(s.stored, Some(GetStoredKey(s.stored, generated)))
  }

  /** `init()` as evidently intended: a key generated because none was
      stored is also persisted. */
  function InitPersisting(s: KeyState, generated: Key): (t: KeyState)
    ensures t.current.Some? && t.stored == t.current
    ensures s.stored.Some? ==> t == KeyState(s.stored, s.stored)
  {
    var k := GetStoredKey(s.stored, generated);
    KeyState(Some(k), Some(k))
  }

  /** The `encryption` object and the `encryption_key` entry it reads. */
  class KeyHolder {
    var storedKey: Option<Key>
    var key: Option<Key>

    function State(): KeyState
      reads this
    {
      KeyState(storedKey, key)
    }

    constructor (stored: Option<Key>)
      ensures State() == KeyState(stored, None)
    {
      storedKey := stored;
      key := None;
    }

    /** `init()` as written. `generated` is what `generateNewKey()` yields
        inside `getStoredKey()`. */
    method Init(generated: Key)
      modifies this
      ensures State() == InitAsWritten(old(State()), generated)
    {
      key := Some(GetStoredKey(storedKey, generated));
    }

    /** `init()` corrected so that a freshly generated key is stored. */
    method InitAndPersist(generated: Key)
      modifies this
      ensures State() == InitPersisting(old(State()), generated)
    {
      var k := GetStoredKey(storedKey, generated);
      key := Some(k);
      if storedKey.None? {
        storedKey := Some(k);
      }
    }
  }

  /** As written: with nothing stored, a note encrypted in one popup session
      cannot be decrypted in the next, because the next session generates a
      different key instead of finding the first one. */
  lemma NoteUnreadableInNextSession(k1: Key, k2: Key, text: string, iv: seq<Byte>)
    requires |iv| == IV_LENGTH && k1 != k2
    ensures var first := InitAsWritten(KeyState(None, None), k1);
      var second := InitAsWritten(KeyState(first.stored, None), k2);
      Decrypt(second.current.value, Encrypt(first.current.value, text, iv).encrypted, iv) == None
  {
    DecryptWrongKey(k1, k2, text, iv);
  }

  /** Corrected: a note encrypted in one session decrypts in every later
      session, whatever key generation would have produced there. */
  lemma NoteReadableInNextSession(k1: Key, k2: Key, stored: Option<Key>, text: string, iv: seq<Byte>)
    requires |iv| == IV_LENGTH
    ensures var first := InitPersisting(KeyState(stored, None), k1);
      var second := InitPersisting(KeyState(first.stored, None), k2);
      Decrypt(second.current.value, Encrypt(first.current.value, text, iv).encrypted, iv) == Some(Utf8.StripBom(text))
  {
    var first := InitPersisting(KeyState(stored, None), k1);
    var second := InitPersisting(KeyState(first.stored, None), k2);
    assert second.current == first.current;
  }
}

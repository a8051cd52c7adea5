/** The authenticated cipher behind `encryption.encrypt`/`decrypt`
    (popup.js:46-82): AES-GCM with a 96-bit IV as WebCrypto provides it.
    AES itself is not modelled. In its place stands a keyed byte mask plus a
    one-byte tag over the masked bytes, the IV and the key. The stand-in keeps
    the properties the notes code relies on: decrypting what was encrypted
    under the same key and IV gives the plaintext back; a wrong key, a changed
    ciphertext byte or a changed IV byte makes decryption fail; and decryption
    succeeds only on a ciphertext that encryption could have produced. */
module Cipher {
  import opened Wrappers
  import opened Bytes

  /** Length of the random IV drawn for every encryption (popup.js:47). */
  const IV_LENGTH := 12

  /** A WebCrypto AES-GCM key: opaque to the code that holds it. */
  datatype Key = Key(secret: Byte)

  function Pad(k: Key, iv: seq<Byte>, i: nat): Byte
  {
    (k.secret + i + (if |iv| > 0 then iv[i % |iv|] else 0)) % 256
  }

  function Mask(k: Key, iv: seq<Byte>, p: seq<Byte>): (m: seq<Byte>)
    ensures |m| == |p|
  {
    seq(|p|, i requires 0 <= i < |p| => (p[i] + Pad(k, iv, i)) % 256)
  }

  function Unmask(k: Key, iv: seq<Byte>, m: seq<Byte>): (p: seq<Byte>)
    ensures |p| == |m|
  {
    seq(|m|, i requires 0 <= i < |m| => (m[i] - Pad(k, iv, i)) % 256)
  }

  function Tag(k: Key, iv: seq<Byte>, m: seq<Byte>): Byte
  {
    (Sum(m) + Sum(iv) + k.secret) % 256
  }

  /** `crypto.subtle.encrypt({name: 'AES-GCM', iv}, key, plaintext)`:
      the masked bytes followed by the tag. */
  function Seal(k: Key, iv: seq<Byte>, p: seq<Byte>): (c: seq<Byte>)
    ensures |c| == |p| + 1
  {
    var m := Mask(k, iv, p);
    m + [Tag(k, iv, m)]
  }

  /** `crypto.subtle.decrypt({name: 'AES-GCM', iv}, key, c)`: `None` where
      WebCrypto rejects with an OperationError. Whatever it accepts is the
      sealing of what it returns (integrity). */
  function Open(k: Key, iv: seq<Byte>, c: seq<Byte>): (r: Option<seq<Byte>>)
    ensures r.Some? ==> c == Seal(k, iv, r.value)
  {
    if |c| == 0 then None
    else
      var p := Unmask(k, iv, c[..|c| - 1]);
      if Seal(k, iv, p) == c then Some(p) else None
  }

  lemma UnmaskMask(k: Key, iv: seq<Byte>, p: seq<Byte>)
    ensures Unmask(k, iv, Mask(k, iv, p)) == p
  {
  }

  lemma AddSubMod(b: Byte, q: Byte)
    ensures ((b - q) % 256 + q) % 256 == b
  {
    if b >= q {
      assert (b - q) % 256 == b - q;
    } else {
      assert (b - q) % 256 == b - q + 256;
    }
  }

  lemma MaskUnmask(k: Key, iv: seq<Byte>, m: seq<Byte>)
    ensures Mask(k, iv, Unmask(k, iv, m)) == m
  {
    forall i | 0 <= i < |m|
      ensures Mask(k, iv, Unmask(k, iv, m))[i] == m[i]
    {
      AddSubMod(m[i], Pad(k, iv, i));
    }
  }

  /** Opening under the key and IV that sealed gives the plaintext back. */
  lemma OpenSeal(k: Key, iv: seq<Byte>, p: seq<Byte>)
    ensures Open(k, iv, Seal(k, iv, p)) == Some(p)
  {
    var c := Seal(k, iv, p);
    assert c[..|c| - 1] == Mask(k, iv, p);
    UnmaskMask(k, iv, p);
  }

  /** A ciphertext sealed under one key does not open under another. */
  lemma OpenWrongKey(k1: Key, k2: Key, iv: seq<Byte>, p: seq<Byte>)
    requires k1 != k2
    ensures Open(k2, iv, Seal(k1, iv, p)) == None
  {
    var c := Seal(k1, iv, p);
    var m := c[..|c| - 1];
    MaskUnmask(k2, iv, m);
    assert m == Mask(k1, iv, p);
    assert Tag(k2, iv, m) != Tag(k1, iv, m);
    assert Seal(k2, iv, Unmask(k2, iv, m))[|c| - 1] != c[|c| - 1];
  }

  /** Masked bytes followed by anything but their tag do not open. */
  lemma OpenBadTag(k: Key, iv: seq<Byte>, m: seq<Byte>, t: Byte)
    requires t != Tag(k, iv, m)
    ensures Open(k, iv, m + [t]) == None
  {
    var c := m + [t];
    assert c[..|c| - 1] == m;
    MaskUnmask(k, iv, m);
    assert Seal(k, iv, Unmask(k, iv, m))[|m|] == Tag(k, iv, m);
  }

  lemma ModShift(a: int, d: int)
    requires 0 < d < 256 || -256 < d < 0
    ensures (a + d) % 256 != a % 256
  {
  }

  lemma OpenTamperedBody(k: Key, iv: seq<Byte>, p: seq<Byte>, j: nat, x: Byte)
    requires j < |p| && x != Seal(k, iv, p)[j]
    ensures Open(k, iv, Seal(k, iv, p)[j := x]) == None
  {
    var m := Mask(k, iv, p);
    var m' := m[j := x];
    assert Seal(k, iv, p)[j := x] == m' + [Tag(k, iv, m)];
    SumUpdate(m, j, x);
    ModShift(Sum(m) + Sum(iv) + k.secret, x - m[j]);
    OpenBadTag(k, iv, m', Tag(k, iv, m));
  }

  lemma OpenTamperedTag(k: Key, iv: seq<Byte>, p: seq<Byte>, x: Byte)
    requires x != Seal(k, iv, p)[|p|]
    ensures Open(k, iv, Seal(k, iv, p)[|p| := x]) == None
  {
    var m := Mask(k, iv, p);
    assert Seal(k, iv, p)[|p| := x] == m + [x];
    OpenBadTag(k, iv, m, x);
  }

  /** Changing any one byte of a sealed ciphertext makes it fail to open. */
  lemma OpenTamperedCiphertext(k: Key, iv: seq<Byte>, p: seq<Byte>, j: nat, x: Byte)
    requires j < |Seal(k, iv, p)| && x != Seal(k, iv, p)[j]
    ensures Open(k, iv, Seal(k, iv, p)[j := x]) == None
  {
    if j < |p| {
      OpenTamperedBody(k, iv, p, j, x);
    } else {
      OpenTamperedTag(k, iv, p, x);
    }
  }

  /** Changing any one byte of the IV makes the ciphertext fail to open. */
  lemma OpenTamperedIv(k: Key, iv: seq<Byte>, p: seq<Byte>, j: nat, x: Byte)
    requires j < |iv| && x != iv[j]
    ensures Open(k, iv[j := x], Seal(k, iv, p)) == None
  {
    var iv' := iv[j := x];
    var c := Seal(k, iv, p);
    var m := c[..|c| - 1];
    MaskUnmask(k, iv', m);
    SumUpdate(iv, j, x);
    assert Seal(k, iv', Unmask(k, iv', m))[|c| - 1] != c[|c| - 1];
  }
}

/** UTF-8, as `TextEncoder.encode` and `TextDecoder.decode` apply it to the
    note text before and after encryption. A `char` is a Unicode scalar value
    (0..0xD7FF or 0xE000..0x10FFFF). */
module Utf8 {
  import opened Wrappers
  import opened Bytes

  predicate IsContinuation(b: Byte) { 0x80 <= b < 0xC0 }

  /** The one-to-four byte UTF-8 form of one scalar value. */
  function EncodeChar(c: char): (r: seq<Byte>)
    ensures 1 <= |r| <= 4
    ensures (|r| == 1) == (c as int < 0x80)
  {
    var cp := c as int;
    if cp < 0x80 then [cp]
    else if cp < 0x800 then [0xC0 + cp / 64, 0x80 + cp % 64]
    else if cp < 0x10000 then [0xE0 + cp / 4096, 0x80 + (cp / 64) % 64, 0x80 + cp % 64]
    else [0xF0 + cp / 262144, 0x80 + (cp / 4096) % 64, 0x80 + (cp / 64) % 64, 0x80 + cp % 64]
  }

  /** `new TextEncoder().encode(s)`. */
  function Encode(s: string): seq<Byte>
  {
    if s == [] then [] else EncodeChar(s[0]) + Encode(s[1..])
  }

  /** Decodes the well-formed sequence at the start of `b`: the scalar value
      and the number of bytes it takes. Overlong forms, surrogates and values
      above 0x10FFFF are rejected. */
  function DecodeFirst(b: seq<Byte>): (r: Option<(char, nat)>)
    ensures r.Some? ==> 1 <= r.value.1 <= |b| && r.value.1 <= 4
  {
    if |b| == 0 then None
    else if b[0] < 0x80 then Some((b[0] as char, 1))
    else if 0xC2 <= b[0] < 0xE0 then
      if |b| >= 2 && IsContinuation(b[1])
      then Some((((b[0] as int - 0xC0) * 64 + (b[1] as int - 0x80)) as char, 2))
      else None
    else if 0xE0 <= b[0] < 0xF0 then
      if |b| >= 3 && IsContinuation(b[1]) && IsContinuation(b[2]) then
        var cp := (b[0] as int - 0xE0) * 4096 + (b[1] as int - 0x80) * 64 + (b[2] as int - 0x80);
        if 0x800 <= cp && !(0xD800 <= cp < 0xE000) then Some((cp as char, 3)) else None
      else None
    else if 0xF0 <= b[0] < 0xF5 then
      if |b| >= 4 && IsContinuation(b[1]) && IsContinuation(b[2]) && IsContinuation(b[3]) then
        var cp := (b[0] as int - 0xF0) * 262144 + (b[1] as int - 0x80) * 4096 + (b[2] as int - 0x80) * 64 + (b[3] as int - 0x80);
        if 0x10000 <= cp < 0x110000 then Some((cp as char, 4)) else None
      else None
    else None
  }

  /** U+FEFF, the byte order mark, and its UTF-8 form. */
  const BOM: char := '\U{FEFF}'
  const BOM_BYTES: seq<Byte> := [0xEF, 0xBB, 0xBF]

  predicate StartsWithBom(s: string) { s != [] && s[0] == BOM }

  predicate StartsWithBomBytes(b: seq<Byte>) { |b| >= 3 && b[..3] == BOM_BYTES }

  /** The text with one leading byte order mark removed, if it has one. */
  function StripBom(s: string): (r: string)
    ensures StartsWithBom(s) ==> [BOM] + r == s
    ensures !StartsWithBom(s) ==> r == s
  {
    if StartsWithBom(s) then s[1..] else s
  }

  /** The scalar values of well-formed UTF-8; `None` where the decoder
      would substitute U+FFFD. */
  function DecodeScalars(b: seq<Byte>): Option<string>
    decreases |b|
  {
    if b == [] then Some([])
    else match DecodeFirst(b)
      case None => None
      case Some((c, n)) =>
        match DecodeScalars(b[n..])
        case None => None
        case Some(rest) => Some([c] + rest)
  }

  /** `new TextDecoder().decode(b)` with default options: a leading byte
      order mark is consumed, not returned (`ignoreBOM` is false). */
  function Decode(b: seq<Byte>): Option<string>
  {
    if StartsWithBomBytes(b) then DecodeScalars(b[3..]) else DecodeScalars(b)
  }

  lemma TwoByteForm(cp: int)
    requires 0x80 <= cp < 0x800
    ensures 0xC2 <= 0xC0 + cp / 64 < 0xE0 && 0 <= cp % 64 < 64
    ensures (cp / 64) * 64 + cp % 64 == cp
  {
  }

  lemma ThreeByteForm(cp: int)
    requires 0x800 <= cp < 0x10000
    ensures 0xE0 <= 0xE0 + cp / 4096 < 0xF0 && 0 <= (cp / 64) % 64 < 64 && 0 <= cp % 64 < 64
    ensures (cp / 4096) * 4096 + ((cp / 64) % 64) * 64 + cp % 64 == cp
  {
    assert cp == (cp / 64) * 64 + cp % 64;
    assert cp / 64 == (cp / 4096) * 64 + (cp / 64) % 64;
  }

  lemma FourByteForm(cp: int)
    requires 0x10000 <= cp < 0x110000
    ensures 0xF0 <= 0xF0 + cp / 262144 < 0xF5
    ensures 0 <= (cp / 4096) % 64 < 64 && 0 <= (cp / 64) % 64 < 64 && 0 <= cp % 64 < 64
    ensures (cp / 262144) * 262144 + ((cp / 4096) % 64) * 4096 + ((cp / 64) % 64) * 64 + cp % 64 == cp
  {
    assert cp == (cp / 64) * 64 + cp % 64;
    assert cp / 64 == (cp / 4096) * 64 + (cp / 64) % 64;
    assert cp / 4096 == (cp / 262144) * 64 + (cp / 4096) % 64;
  }

  /** Decoding the encoding of one scalar value gives it back, whatever follows. */
  lemma DecodeFirstEncodeChar(c: char, rest: seq<Byte>)
    ensures DecodeFirst(EncodeChar(c) + rest) == Some((c, |EncodeChar(c)|))
  {
    var cp := c as int;
    var b := EncodeChar(c) + rest;
    if cp < 0x80 {
    } else if cp < 0x800 {
      TwoByteForm(cp);
      assert b[0] as int - 0xC0 == cp / 64 && b[1] as int - 0x80 == cp % 64;
    } else if cp < 0x10000 {
      ThreeByteForm(cp);
      assert b[0] as int - 0xE0 == cp / 4096 && b[1] as int - 0x80 == (cp / 64) % 64;
      assert b[2] as int - 0x80 == cp % 64;
    } else {
      FourByteForm(cp);
      assert b[0] as int - 0xF0 == cp / 262144 && b[1] as int - 0x80 == (cp / 4096) % 64;
      assert b[2] as int - 0x80 == (cp / 64) % 64 && b[3] as int - 0x80 == cp % 64;
    }
  }

  /** Decoding the scalar values of an encoding gives the text back. */
  lemma {:induction false} DecodeScalarsEncode(s: string)
    ensures DecodeScalars(Encode(s)) == Some(s)
  {
    if s != [] {
      var e := EncodeChar(s[0]);
      var rest := Encode(s[1..]);
      DecodeFirstEncodeChar(s[0], rest);
      assert (e + rest)[|e|..] == rest;
      DecodeScalarsEncode(s[1..]);
      assert [s[0]] + s[1..] == s;
    }
  }

  /** An encoding starts with the bytes EF BB BF exactly when the text
      starts with U+FEFF. */
  lemma EncodeStartsWithBom(s: string)
    ensures StartsWithBomBytes(Encode(s)) <==> StartsWithBom(s)
    ensures StartsWithBom(s) ==> Encode(s) == BOM_BYTES + Encode(s[1..])
  {
    if s != [] {
      var rest := Encode(s[1..]);
      assert Encode(s) == EncodeChar(s[0]) + rest;
      DecodeFirstEncodeChar(s[0], rest);
      if StartsWithBomBytes(Encode(s)) {
        var b := Encode(s);
        assert b[0] == 0xEF && b[1] == 0xBB && b[2] == 0xBF by {
          assert b[..3] == BOM_BYTES;
        }
        assert DecodeFirst(b) == Some((BOM, 3));
      }
      if StartsWithBom(s) {
        assert EncodeChar(BOM) == BOM_BYTES;
      }
    }
  }

  /** What `TextDecoder` reads back is what `TextEncoder` wrote, less one
      leading byte order mark. */
  lemma DecodeEncode(s: string)
    ensures Decode(Encode(s)) == Some(StripBom(s))
    ensures !StartsWithBom(s) ==> Decode(Encode(s)) == Some(s)
  {
    EncodeStartsWithBom(s);
    if StartsWithBom(s) {
      assert (BOM_BYTES + Encode(s[1..]))[3..] == Encode(s[1..]);
      DecodeScalarsEncode(s[1..]);
    } else {
      DecodeScalarsEncode(s);
    }
  }

  /** The encoded length lies between one and four bytes per character, and
      equals the character count exactly for ASCII text. */
  lemma {:induction false} EncodeLength(s: string)
    ensures |s| <= |Encode(s)| <= 4 * |s|
    ensures (forall i :: 0 <= i < |s| ==> s[i] as int < 0x80) ==> |Encode(s)| == |s|
  {
    if s != [] {
      EncodeLength(s[1..]);
    }
  }

  lemma DivModUnique(x: int, y: int)
    requires 0 <= y < 64 && 0 <= x
    ensures (x * 64 + y) / 64 == x && (x * 64 + y) % 64 == y
  {
  }

  lemma TwoByteInjective(b: seq<Byte>)
    requires |b| >= 2 && 0xC2 <= b[0] < 0xE0 && IsContinuation(b[1])
    ensures var cp := (b[0] as int - 0xC0) * 64 + (b[1] as int - 0x80);
      0x80 <= cp < 0x800 && b[0] == 0xC0 + cp / 64 && b[1] == 0x80 + cp % 64
  {
    DivModUnique(b[0] as int - 0xC0, b[1] as int - 0x80);
  }

  lemma ThreeByteInjective(b: seq<Byte>)
    requires |b| >= 3 && 0xE0 <= b[0] < 0xF0 && IsContinuation(b[1]) && IsContinuation(b[2])
    ensures var cp := (b[0] as int - 0xE0) * 4096 + (b[1] as int - 0x80) * 64 + (b[2] as int - 0x80);
      cp < 0x10000 && b[0] == 0xE0 + cp / 4096 && b[1] == 0x80 + (cp / 64) % 64 && b[2] == 0x80 + cp % 64
  {
    var x, y, z := b[0] as int - 0xE0, b[1] as int - 0x80, b[2] as int - 0x80;
    var cp := x * 4096 + y * 64 + z;
    assert cp == (x * 64 + y) * 64 + z;
    DivModUnique(x * 64 + y, z);
    DivModUnique(x, y);
    assert cp / 4096 == (cp / 64) / 64;
  }

  lemma FourByteInjective(b: seq<Byte>)
    requires |b| >= 4 && 0xF0 <= b[0] < 0xF5 && IsContinuation(b[1]) && IsContinuation(b[2]) && IsContinuation(b[3])
    ensures var cp := (b[0] as int - 0xF0) * 262144 + (b[1] as int - 0x80) * 4096 + (b[2] as int - 0x80) * 64 + (b[3] as int - 0x80);
      b[0] == 0xF0 + cp / 262144 && b[1] == 0x80 + (cp / 4096) % 64
      && b[2] == 0x80 + (cp / 64) % 64 && b[3] == 0x80 + cp % 64
  {
    var w, x, y, z := b[0] as int - 0xF0, b[1] as int - 0x80, b[2] as int - 0x80, b[3] as int - 0x80;
    var cp := w * 262144 + x * 4096 + y * 64 + z;
    assert cp == ((w * 64 + x) * 64 + y) * 64 + z;
    DivModUnique((w * 64 + x) * 64 + y, z);
    DivModUnique(w * 64 + x, y);
    DivModUnique(w, x);
    assert cp / 4096 == (cp / 64) / 64;
    assert cp / 262144 == (cp / 4096) / 64;
  }

  /** The bytes `DecodeFirst` consumes are the encoding of what it returns. */
  lemma DecodeFirstInjective(b: seq<Byte>, c: char, n: nat)
    requires DecodeFirst(b) == Some((c, n))
    ensures n <= |b| && b[..n] == EncodeChar(c)
  {
    if b[0] < 0x80 {
    } else if b[0] < 0xE0 {
      TwoByteInjective(b);
      assert b[..n] == [b[0], b[1]];
    } else if b[0] < 0xF0 {
      ThreeByteInjective(b);
      assert b[..n] == [b[0], b[1], b[2]];
    } else {
      FourByteInjective(b);
      assert b[..n] == [b[0], b[1], b[2], b[3]];
    }
  }

  /** One step of `DecodeScalars` on a non-empty input. */
  lemma DecodeStep(b: seq<Byte>, s: string)
    requires b != [] && DecodeScalars(b) == Some(s)
    ensures DecodeFirst(b).Some? && s != []
    ensures DecodeFirst(b).value.0 == s[0]
    ensures DecodeScalars(b[DecodeFirst(b).value.1..]) == Some(s[1..])
  {
  }

  lemma {:induction false} DecodeScalarsInjective(b: seq<Byte>, s: string)
    requires DecodeScalars(b) == Some(s)
    ensures b == Encode(s)
    decreases |b|
  {
    if b != [] {
      DecodeStep(b, s);
      var n := DecodeFirst(b).value.1;
      DecodeScalarsInjective(b[n..], s[1..]);
      DecodeFirstInjective(b, s[0], n);
      assert b == b[..n] + b[n..];
    }
  }

  /** Bytes that decode to `s` are the encoding of `s`, or the encoding of
      `s` behind one byte order mark; in the first case `s` itself does not
      start with U+FEFF. */
  lemma DecodeInjective(b: seq<Byte>, s: string)
    requires Decode(b) == Some(s)
    ensures (b == Encode(s) && !StartsWithBom(s)) || b == BOM_BYTES + Encode(s)
  {
    if StartsWithBomBytes(b) {
      DecodeScalarsInjective(b[3..], s);
      assert b == b[..3] + b[3..];
    } else {
      DecodeScalarsInjective(b, s);
      EncodeStartsWithBom(s);
    }
  }
}

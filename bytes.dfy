/** Bytes as the JavaScript code holds them: numbers 0..255 in a plain array
    (`Array.from(new Uint8Array(...))`). */
module Bytes {

  type Byte = b: int | 0 <= b < 256

  /** Sum of the bytes of `s`, as an unbounded integer. */
  function Sum(s: seq<Byte>): nat
  {
    if s == [] then 0 else s[0] + Sum(s[1..])
  }

  /** Changing one byte changes the sum by exactly the difference. */
  lemma {:induction false} SumUpdate(s: seq<Byte>, j: nat, x: Byte)
    requires j < |s|
    ensures Sum(s[j := x]) == Sum(s) - s[j] + x
  {
    if j == 0 {
      assert s[j := x][1..] == s[1..];
    } else {
      assert s[j := x][1..] == s[1..][j - 1 := x];
      SumUpdate(s[1..], j - 1, x);
    }
  }
}

/** The test-data generator of the test utilities (tests/test-utils.js:63-74). */
module TestData {
  import opened Wrappers
  import opened Notes

  /** `generateMultipleNotes(count)`: note `i` gets id `Date.now() + i`,
      the `i mod 5`-th built-in category, and a timestamp `i` seconds
      before the clock. `clock[i]` is `Date.now()` in iteration `i`;
      `text` is what `generateLargeNote` returns. While the clock does not
      run backwards the ids strictly increase, so they are distinct. */
  method GenerateMultipleNotes(count: nat, clock: seq<int>, text: string) returns (notes: seq<Note>)
    requires |clock| == count
    ensures |notes| == count
    ensures forall i :: 0 <= i < count ==> notes[i].id == clock[i] + i
    ensures forall i :: 0 <= i < count ==> notes[i].category == CATEGORIES[i % 5]
    ensures forall i :: 0 <= i < count ==> notes[i].text == Plain(text) && notes[i].timestamp == clock[i] - i * 1000
    ensures (forall i, j :: 0 <= i <= j < count ==> clock[i] <= clock[j]) ==>
      forall i, j :: 0 <= i < j < count ==> notes[i].id < notes[j].id
  {
    notes := [];
    var i := 0;
    while i < count
      invariant 0 <= i <= count && |notes| == i
      invariant forall j :: 0 <= j < i ==> notes[j] == Note(clock[j] + j, Plain(text), CATEGORIES[j % 5], clock[j] - j * 1000, None)
    {
      notes := notes + [Note(clock[i] + i, Plain(text), CATEGORIES[i % 5], clock[i] - i * 1000, None)];
      i := i + 1;
    }
  }
}

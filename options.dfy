/** The options page's data handling (options.js): falling back to the
    default options, collecting the custom categories, and merging imported
    notes into the stored ones. */
module Options {
  import opened Wrappers
  import opened Text
  import opened Notes

  /** The stored `options` object. `categoryColors` lists its entries in
      order, category name first. */
  datatype Options = Options(
    defaultCategory: string,
    maxNotesDisplay: int,
    notesOrder: string,
    categoryColors: seq<(string, string)>,
    autoBackup: string,
    customCategories: seq<string>)

  /** `defaultOptions` (options.js:2-15). */
  const DEFAULT_OPTIONS := Options(
    "other",
    20,
    "newest",
    [("sql", "#007bff"), ("url", "#28a745"), ("snippet", "#dc3545"), ("command", "#ffc107"), ("other", "#6c757d")],
    "never",
    [])

  /** `result.options || defaultOptions` (options.js:27): a stored options
      object is used whole, with no per-field fallback; with none stored,
      the defaults apply. */
  function EffectiveOptions(stored: Option<Options>): (o: Options)
    ensures stored.Some? ==> o == stored.value
    ensures stored.None? ==> o.defaultCategory == "other" && o.maxNotesDisplay == 20
    ensures stored.None? ==> o.notesOrder == "newest" && o.autoBackup == "never" && o.customCategories == []
    ensures stored.None? ==> |o.categoryColors| == |CATEGORIES|
    ensures stored.None? ==> forall i :: 0 <= i < |CATEGORIES| ==> o.categoryColors[i].0 == CATEGORIES[i]
  {
    if stored.Some? then stored.value else DEFAULT_OPTIONS
  }

  // ----- Custom categories (options.js:112-121)

  /** The trimmed, non-blank values, in order. */
  function NonBlank(values: seq<string>): (r: seq<string>)
    ensures |r| <= |values|
    ensures forall c :: c in r <==> c != "" && exists v :: v in values && Trim(v) == c
  {
    if values == [] then []
    else
      var rest := NonBlank(values[1..]);
      assert forall v :: v in values <==> v == values[0] || v in values[1..];
      if Trim(values[0]) != "" then [Trim(values[0])] + rest else rest
  }

  /** `getCustomCategories()` over the text inputs' values, in page order:
      the trimmed value of every input that is not blank. No category it
      returns is empty or has surrounding whitespace. */
  method GetCustomCategories(values: seq<string>) returns (categories: seq<string>)
    ensures categories == NonBlank(values)
    ensures forall i :: 0 <= i < |categories| ==> categories[i] != "" && Trim(categories[i]) == categories[i]
  {
    categories := [];
    var i := 0;
    while i < |values|
      invariant 0 <= i <= |values|
      invariant categories + NonBlank(values[i..]) == NonBlank(values)
      invariant forall j :: 0 <= j < |categories| ==> categories[j] != "" && Trim(categories[j]) == categories[j]
    {
      assert values[i..][1..] == values[i + 1..];
      var trimmed := Trim(values[i]);
      if trimmed != "" {
        TrimIdempotent(values[i]);
        categories := categories + [trimmed];
      }
      i := i + 1;
    }
    assert values[i..] == [];
  }

  // ----- Import merge (options.js:156-167)

  /** `notes.some(n => n.id === id)`. */
  predicate HasId(notes: seq<Note>, id: int)
  {
    exists i :: 0 <= i < |notes| && notes[i].id == id
  }

  /** The imported notes whose id no current note has, in file order. The
      test is against the current notes only, so imported notes sharing a
      new id are all kept. */
  function Unseen(current: seq<Note>, imported: seq<Note>): (r: seq<Note>)
    ensures |r| <= |imported|
    ensures forall n :: n in r <==> n in imported && !HasId(current, n.id)
  {
    if imported == [] then []
    else
      var rest := Unseen(current, imported[1..]);
      assert forall n :: n in imported <==> n == imported[0] || n in imported[1..];
      if !HasId(current, imported[0].id) then [imported[0]] + rest else rest
  }

  /** `currentNotes.some(n => n.id === id)`. */
  method SomeHasId(notes: seq<Note>, id: int) returns (found: bool)
    ensures found == HasId(notes, id)
  {
    found := false;
    var j := 0;
    while j < |notes|
      invariant 0 <= j <= |notes|
      invariant found <==> exists k :: 0 <= k < j && notes[k].id == id
    {
      if notes[j].id == id {
        found := true;
      }
      j := j + 1;
    }
  }

  /** The merge inside `importNotes()`: the current notes, then every
      imported note whose id is not among them. */
  method MergeImport(current: seq<Note>, imported: seq<Note>) returns (merged: seq<Note>)
    ensures merged == current + Unseen(current, imported)
    ensures merged[..|current|] == current
  {
    merged := current;
    var i := 0;
    while i < |imported|
      invariant 0 <= i <= |imported|
      invariant merged == current + Unseen(current, imported[..i])
    {
      var note := imported[i];
      var seen := SomeHasId(current, note.id);
      if !seen {
        merged := merged + [note];
      }
      UnseenSnoc(current, imported[..i], note);
      assert imported[..i + 1] == imported[..i] + [note];
      i := i + 1;
    }
    assert imported[..i] == imported;
  }

  /** `Unseen` read one imported note at a time from the end of the file. */
  lemma {:induction false} UnseenSnoc(current: seq<Note>, imported: seq<Note>, n: Note)
    ensures Unseen(current, imported + [n])
      == Unseen(current, imported) + (if HasId(current, n.id) then [] else [n])
  {
    if imported == [] {
      assert [n][1..] == [];
    } else {
      assert (imported + [n])[1..] == imported[1..] + [n];
      UnseenSnoc(current, imported[1..], n);
    }
  }

  /** Two imported notes that share an id no current note has are both
      appended. */
  lemma SharedNewIdKeptTwice(current: seq<Note>, a: Note, b: Note)
    requires a.id == b.id && !HasId(current, a.id)
    ensures Unseen(current, [a, b]) == [a, b]
  {
    assert [a, b][1..] == [b];
  }

  /** When every imported id is already present, nothing is appended. */
  lemma {:induction false} UnseenAllPresent(current: seq<Note>, imported: seq<Note>)
    requires forall n :: n in imported ==> HasId(current, n.id)
    ensures Unseen(current, imported) == []
  {
    if imported != [] {
      assert imported[0] in imported;
      UnseenAllPresent(current, imported[1..]);
    }
  }

  /** Importing the same file again right after a merge adds nothing. */
  lemma ReimportAddsNothing(current: seq<Note>, imported: seq<Note>)
    ensures var merged := current + Unseen(current, imported);
      merged + Unseen(merged, imported) == merged
  {
    var added := Unseen(current, imported);
    var merged := current + added;
    forall n | n in imported ensures HasId(merged, n.id) {
      if HasId(current, n.id) {
        var i :| 0 <= i < |current| && current[i].id == n.id;
        assert merged[i].id == n.id;
      } else {
        assert n in added;
        var i :| 0 <= i < |added| && added[i] == n;
        assert merged[|current| + i].id == n.id;
      }
    }
    UnseenAllPresent(merged, imported);
  }
}

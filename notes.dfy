/** The popup's note bookkeeping (popup.js:85-487): the stored note records,
    the guards in front of saving, deleting and editing, the text and
    category a note is displayed with, and the search/category filter. */
module Notes {
  import opened Wrappers
  import opened Bytes
  import opened Cipher
  import opened Text
  import opened Encryption
  import Utf8

  const MAX_NOTE_SIZE_BYTES := 4194304
  const WARNING_THRESHOLD_BYTES := 4194304
  const MAX_NOTES_COUNT := 10000

  /** The built-in categories, in the order the editor and the test data use. */
  const CATEGORIES: seq<string> := ["sql", "url", "snippet", "command", "other"]

  const DECRYPT_ERROR := "Error: Could not decrypt note"

  /** A note's `text`: the plain string the context menu stores
      (background.js:34) or the envelope `encrypt` produces. */
  datatype NoteText = Plain(s: string) | Encrypted(envelope: Envelope)

  /** A stored note. `category == ""` stands for a missing or empty
      category, which the code treats alike (`note.category || 'other'`);
      `timestamp` is the instant `toISOString` renders, in milliseconds. */
  datatype Note = Note(id: int, text: NoteText, category: string, timestamp: int, source: Option<string>)

  // ----- Display (popup.js:272-298)

  /** The text a note is shown with: the decrypted text, the error string
      when decryption yields nothing (null or the empty string), or the
      plain text as stored. */
  function DisplayText(key: Key, note: Note): (r: string)
  {
    match note.text
    case Plain(s) => s
    case Encrypted(e) =>
      match Decrypt(key, e.encrypted, e.iv)
      case Some(t) => if t != "" then t else DECRYPT_ERROR
      case None => DECRYPT_ERROR
  }

  /** What `DisplayText` shows for each shape of text: an envelope made
      under the current key shows its text less a leading byte order mark
      (the error string if nothing is left), one that does not decrypt shows
      the error string, and a plain string is shown as it is. */
  lemma DisplayTextCases(key: Key, other: Key, text: string, iv: seq<Byte>, n: Note)
    requires |iv| == IV_LENGTH && other != key
    ensures DisplayText(key, n.(text := Encrypted(Encrypt(key, text, iv))))
      == if Utf8.StripBom(text) != "" then Utf8.StripBom(text) else DECRYPT_ERROR
    ensures DisplayText(key, n.(text := Encrypted(Encrypt(other, text, iv)))) == DECRYPT_ERROR
    ensures DisplayText(key, n.(text := Plain(text))) == text
  {
    DecryptWrongKey(other, key, text, iv);
  }

  /** `note.category || 'other'`: the `data-category` and CSS class suffix. */
  function DisplayCategory(note: Note): (r: string)
    ensures r != ""
    ensures r == note.category || (note.category == "" && r == "other")
  {
    if note.category != "" then note.category else "other"
  }

  /** `note.category ? note.category.toUpperCase() : 'OTHER'`: the badge. */
  function CategoryLabel(note: Note): (r: string)
    ensures r != ""
  {
    if note.category != "" then ToUpper(note.category) else "OTHER"
  }

  /** The badge is the upper-cased `data-category`. */
  lemma CategoryLabelMatchesData(note: Note)
    ensures CategoryLabel(note) == ToUpper(DisplayCategory(note))
  {
    if note.category == "" {
      assert ToUpper("other") == "OTHER";
    }
  }

  // ----- Quota check (popup.js:111-122)

  /** What `chrome.storage.local.getBytesInUse()` reports, or `Unavailable`
      when the call throws. */
  datatype UsageReport = Usage(bytesInUse: int, quotaBytes: int) | Unavailable

  datatype QuotaCheck = QuotaCheck(hasSpace: bool, warn: bool)

  /** `checkStorageQuota()`: space is available when usage is below the
      quota, or when usage cannot be read; the warning banner shows above
      the threshold. */
  function CheckStorageQuota(r: UsageReport): (q: QuotaCheck)
    ensures q.hasSpace <==> (r.Unavailable? || r.bytesInUse < r.quotaBytes)
    ensures q.warn <==> r.Usage? && r.bytesInUse > WARNING_THRESHOLD_BYTES
  {
    match r
    case Unavailable => QuotaCheck(true, false)
    case Usage(used, quota) => QuotaCheck(used < quota, used > WARNING_THRESHOLD_BYTES)
  }

  /** When the reported quota lies above the warning threshold, the usage
      warning is always showing by the time saving is refused for lack of
      space; an unreadable usage never refuses a save nor warns. */
  lemma QuotaWarnsBeforeBlocking(r: UsageReport)
    requires r.Usage? ==> r.quotaBytes > WARNING_THRESHOLD_BYTES
    ensures !CheckStorageQuota(r).hasSpace ==> CheckStorageQuota(r).warn
    ensures r.Unavailable? ==> CheckStorageQuota(r) == QuotaCheck(true, false)
  {
  }

  /** `a < b` in JavaScript where either side may be `undefined` (`None`):
      `undefined` converts to NaN, and every comparison with NaN is false. */
  predicate JsLess(a: Option<int>, b: Option<int>)
  {
    a.Some? && b.Some? && a.value < b.value
  }

  /** `const { bytesInUse, QUOTA_BYTES } = n` for the number `n` that
      `getBytesInUse()` resolves to: a number has neither property. */
  function DestructureUsage(n: int): (Option<int>, Option<int>)
  {
    (None, None)
  }

  /** `checkStorageQuota()` as written, when `getBytesInUse()` resolves to
      the number of bytes in use. */
  function CheckStorageQuotaAsWritten(n: int): QuotaCheck
  {
    var (bytesInUse, quotaBytes) := DestructureUsage(n);
    QuotaCheck(JsLess(bytesInUse, quotaBytes), JsLess(Some(WARNING_THRESHOLD_BYTES), bytesInUse))
  }

  /** As written, whatever the usage, the check reports no space and never
      warns, so every note that passes the size guard is refused as over
      quota, even where the check on the usage and the quota finds room. */
  lemma QuotaCheckAsWrittenRefusesAll(n: int, quota: int, noteText: string, count: nat)
    requires n < quota
    requires noteText != "" && |Utf8.Encode(noteText)| <= MAX_NOTE_SIZE_BYTES
    ensures CheckStorageQuotaAsWritten(n) == QuotaCheck(false, false)
    ensures SaveGuards(noteText, CheckStorageQuotaAsWritten(n).hasSpace, count) == Some(QuotaExceeded)
    ensures CheckStorageQuota(Usage(n, quota)).hasSpace
    ensures SaveRejection(noteText, Usage(n, quota), count) != Some(QuotaExceeded)
  {
  }

  // ----- Save (popup.js:171-229)

  datatype SaveError = EmptyText | NoteTooLarge(size: nat) | QuotaExceeded | TooManyNotes | WriteFailed

  /** The guard chain of `saveNewNote`, on the trimmed text, the usage report
      and the number of stored notes: the first failing guard, or `None`. */
  function SaveRejection(noteText: string, usage: UsageReport, count: nat): (e: Option<SaveError>)
  {
    SaveGuards(noteText, CheckStorageQuota(usage).hasSpace, count)
  }

  /** The same chain, given the answer `checkStorageQuota()` returns. */
  function SaveGuards(noteText: string, hasSpace: bool, count: nat): (e: Option<SaveError>)
  {
    if noteText == "" then Some(EmptyText)
    else if |Utf8.Encode(noteText)| > MAX_NOTE_SIZE_BYTES then Some(NoteTooLarge(|Utf8.Encode(noteText)|))
    else if !hasSpace then Some(QuotaExceeded)
    else if count >= MAX_NOTES_COUNT then Some(TooManyNotes)
    else None
  }

  /** The guards in their order: each rejection happens exactly when its own
      condition fails and every earlier one holds; a note passes only when
      all four hold, and then there is room for it. */
  lemma SaveRejectionOrder(noteText: string, usage: UsageReport, count: nat)
    ensures SaveRejection(noteText, usage, count) == Some(EmptyText) <==> noteText == ""
    ensures SaveRejection(noteText, usage, count) == Some(NoteTooLarge(|Utf8.Encode(noteText)|))
      <==> noteText != "" && |Utf8.Encode(noteText)| > MAX_NOTE_SIZE_BYTES
    ensures SaveRejection(noteText, usage, count) == Some(QuotaExceeded)
      <==> noteText != "" && |Utf8.Encode(noteText)| <= MAX_NOTE_SIZE_BYTES
           && usage.Usage? && usage.bytesInUse >= usage.quotaBytes
    ensures SaveRejection(noteText, usage, count) == Some(TooManyNotes)
      <==> noteText != "" && |Utf8.Encode(noteText)| <= MAX_NOTE_SIZE_BYTES
           && CheckStorageQuota(usage).hasSpace && count >= MAX_NOTES_COUNT
    ensures SaveRejection(noteText, usage, count).None? ==> 0 < |noteText| <= MAX_NOTE_SIZE_BYTES && count + 1 <= MAX_NOTES_COUNT
  {
    if noteText != "" && |Utf8.Encode(noteText)| <= MAX_NOTE_SIZE_BYTES {
      Utf8.EncodeLength(noteText);
    }
  }

  /** Trimmed text never starts with a byte order mark: U+FEFF is
      whitespace to `String.prototype.trim`. */
  lemma TrimmedHasNoBom(s: string)
    ensures !Utf8.StartsWithBom(Trim(s))
  {
    TrimShape(s);
  }

  /** The note `saveNewNote` builds (popup.js:211-216). */
  function NewNote(key: Key, noteText: string, category: string, iv: seq<Byte>, now: int): (n: Note)
    requires |iv| == IV_LENGTH
    ensures n.id == now && n.category == category && n.source.None?
    ensures n.text.Encrypted? && |n.text.envelope.iv| == IV_LENGTH
    ensures noteText != "" && !Utf8.StartsWithBom(noteText) ==> DisplayText(key, n) == noteText
  {
    Note(now, Encrypted(Encrypt(key, noteText, iv)), category, now, None)
  }

  // ----- Delete (popup.js:330-342)

  /** `notes.filter(n => n.id !== id)`. */
  function Without(notes: seq<Note>, id: int): (r: seq<Note>)
    ensures |r| <= |notes|
    ensures forall n :: n in r <==> n in notes && n.id != id
  {
    if notes == [] then []
    else if notes[0].id != id then [notes[0]] + Without(notes[1..], id)
    else Without(notes[1..], id)
  }

  /** The filter distributes over concatenation, so it keeps the relative
      order of the notes it keeps. */
  lemma {:induction false} WithoutAppend(a: seq<Note>, b: seq<Note>, id: int)
    ensures Without(a + b, id) == Without(a, id) + Without(b, id)
  {
    if a != [] {
      assert (a + b)[1..] == a[1..] + b;
      WithoutAppend(a[1..], b, id);
    } else {
      assert a + b == b;
    }
  }

  /** A collection without the id is left exactly as it is. */
  lemma {:induction false} WithoutAbsent(notes: seq<Note>, id: int)
    requires forall i :: 0 <= i < |notes| ==> notes[i].id != id
    ensures Without(notes, id) == notes
  {
    if notes != [] {
      WithoutAbsent(notes[1..], id);
    }
  }

  /** Deleting twice is deleting once. */
  lemma DeleteIdempotent(notes: seq<Note>, id: int)
    ensures Without(Without(notes, id), id) == Without(notes, id)
  {
    var r := Without(notes, id);
    forall i | 0 <= i < |r| ensures r[i].id != id {
      assert r[i] in r;
    }
    WithoutAbsent(r, id);
  }

  // ----- Edit (popup.js:408-433)

  /** `notes[i]` is the note `findIndex` picks for `id`. */
  ghost predicate IsFirstIndex(notes: seq<Note>, id: int, i: int)
  {
    0 <= i < |notes| && notes[i].id == id && forall j :: 0 <= j < i ==> notes[j].id != id
  }

  /** `notes.findIndex(n => n.id === id)`. */
  method FindIndex(notes: seq<Note>, id: int) returns (index: int)
    ensures index == -1 <==> forall j :: 0 <= j < |notes| ==> notes[j].id != id
    ensures index != -1 ==> IsFirstIndex(notes, id, index)
  {
    index := 0;
    while index < |notes|
      invariant 0 <= index <= |notes|
      invariant forall j :: 0 <= j < index ==> notes[j].id != id
    {
      if notes[index].id == id {
        return;
      }
      index := index + 1;
    }
    index := -1;
  }

  /** The result of the edit: new text and category, everything else kept. */
  function Edited(note: Note, text: NoteText, category: string): (n: Note)
    ensures n.id == note.id && n.timestamp == note.timestamp && n.source == note.source
    ensures n.text == text && n.category == category
  {
    note.(text := text, category := category)
  }

  // ----- Filter (popup.js:457-487)

  /** A rendered `.note-item`: its text span's content and `data-category`. */
  datatype Card = Card(text: string, category: string)

  /** The card `createNoteElement` renders for a stored note. */
  function CardOf(key: Key, note: Note): Card
  {
    Card(DisplayText(key, note), DisplayCategory(note))
  }

  /** The search term: the input lower-cased, then trimmed. */
  function SearchTerm(input: string): string
  {
    Trim(ToLower(input))
  }

  /** A card is shown when its lower-cased text includes the search term and
      the category filter is unset or equal to its category. */
  predicate IsVisible(card: Card, searchTerm: string, categoryFilter: string)
  {
    Contains(ToLower(card.text), searchTerm) && (categoryFilter == "" || card.category == categoryFilter)
  }

  function CountVisible(cards: seq<Card>, searchTerm: string, categoryFilter: string): (r: nat)
    ensures r <= |cards|
  {
    if cards == [] then 0
    else
      var first := if IsVisible(cards[0], searchTerm, categoryFilter) then 1 else 0;
      first + CountVisible(cards[1..], searchTerm, categoryFilter)
  }

  /** With neither a search term nor a category filter, every card is shown. */
  lemma {:induction false} EmptySearchShowsAll(cards: seq<Card>)
    ensures CountVisible(cards, "", "") == |cards|
  {
    if cards != [] {
      ContainsEmpty(ToLower(cards[0].text));
      EmptySearchShowsAll(cards[1..]);
    }
  }

  /** Filtering a stored note's card: it is searched by the text it is
      displayed with (a note that does not decrypt is found by the error
      string), and a category filter matches a note without a category
      only when the filter is `other`. */
  lemma NoteVisibility(key: Key, note: Note, searchTerm: string, categoryFilter: string)
    ensures IsVisible(CardOf(key, note), searchTerm, categoryFilter)
      <==> Contains(ToLower(DisplayText(key, note)), searchTerm)
           && (categoryFilter == "" || categoryFilter == note.category
               || (note.category == "" && categoryFilter == "other"))
  {
  }

  /** The empty-state text when nothing is visible, by which of the search
      term and the category filter are set; `None` when notes are visible. */
  function EmptyStateMessage(searchTerm: string, categoryFilter: string, visibleNotes: nat): (m: Option<string>)
    ensures m.Some? <==> visibleNotes == 0
  {
    if visibleNotes != 0 then None
    else if searchTerm != "" && categoryFilter != "" then
      Some("No " + ToUpper(categoryFilter) + " notes found matching \"" + searchTerm + "\"")
    else if searchTerm != "" then Some("No notes found matching \"" + searchTerm + "\"")
    else if categoryFilter != "" then Some("No " + ToUpper(categoryFilter) + " notes found")
    else Some("No notes yet! Add your first note above.")
  }

  /** `filterNotes()`: which cards are shown, how many, and the empty-state
      text. */
  method FilterNotes(cards: seq<Card>, searchInput: string, categoryFilter: string)
    returns (shown: seq<bool>, visibleNotes: nat, emptyState: Option<string>)
    ensures |shown| == |cards|
    ensures forall i :: 0 <= i < |cards| ==> shown[i] == IsVisible(cards[i], SearchTerm(searchInput), categoryFilter)
    ensures visibleNotes == CountVisible(cards, SearchTerm(searchInput), categoryFilter)
    ensures visibleNotes <= |cards|
    ensures visibleNotes == 0 <==> forall i :: 0 <= i < |cards| ==> !shown[i]
    ensures emptyState == EmptyStateMessage(SearchTerm(searchInput), categoryFilter, visibleNotes)
  {
    var searchTerm := SearchTerm(searchInput);
    shown := [];
    visibleNotes := 0;
    var i := 0;
    while i < |cards|
      invariant 0 <= i <= |cards| && |shown| == i
      invariant forall j :: 0 <= j < i ==> shown[j] == IsVisible(cards[j], searchTerm, categoryFilter)
      invariant visibleNotes + CountVisible(cards[i..], searchTerm, categoryFilter)
        == CountVisible(cards, searchTerm, categoryFilter)
      invariant visibleNotes <= i
      invariant visibleNotes == 0 <==> forall j :: 0 <= j < i ==> !shown[j]
    {
      var isVisible := IsVisible(cards[i], searchTerm, categoryFilter);
      assert cards[i..][1..] == cards[i + 1..];
      shown := shown + [isVisible];
      if isVisible {
        visibleNotes := visibleNotes + 1;
      }
      i := i + 1;
    }
    assert cards[i..] == [];
    emptyState := EmptyStateMessage(searchTerm, categoryFilter, visibleNotes);
  }

  // ----- The stored collection and the handlers that write it

  /** The `notes` entry of `chrome.storage.local` as the popup's handlers
      read and write it; a missing entry reads as `[]`. `readOk` says
      whether `safeStorageGet('notes')` reads it; when the read throws,
      `safeStorageGet` returns `{}` (popup.js:490-498) and the handler
      carries on with `[]`. `writeAccepted` says whether
      `chrome.storage.local.set` resolves. */
  class NoteStorage {
    var notes: seq<Note>

    constructor (stored: seq<Note>)
      ensures notes == stored
    {
      notes := stored;
    }

    /** `saveNewNote()`: the guards, then `[newNote] ++ notes` is written. */
    method SaveNewNote(input: string, category: string, usage: UsageReport, key: Key,
                       iv: seq<Byte>, now: int, readOk: bool, writeAccepted: bool)
      returns (error: Option<SaveError>)
      requires |iv| == IV_LENGTH
      modifies this
      ensures var existing := if readOk then old(notes) else [];
        var rejection := SaveRejection(Trim(input), usage, |existing|);
        error == if rejection.Some? then rejection else if writeAccepted then None else Some(WriteFailed)
      ensures error.Some? ==> notes == old(notes)
      ensures error.None? ==> notes == [NewNote(key, Trim(input), category, iv, now)] + (if readOk then old(notes) else [])
      ensures error.None? && readOk ==> |notes| == |old(notes)| + 1 && notes[1..] == old(notes)
      ensures error.None? ==> |notes| <= MAX_NOTES_COUNT && DisplayText(key, notes[0]) == Trim(input)
    {
      var noteText := Trim(input);
      TrimmedHasNoBom(input);
      var existingNotes := if readOk then notes else [];
      error := SaveRejection(noteText, usage, |existingNotes|);
      SaveRejectionOrder(noteText, usage, |existingNotes|);
      if error.Some? {
        return;
      }
      var newNote := NewNote(key, noteText, category, iv, now);
      existingNotes := [newNote] + existingNotes;
      if !writeAccepted {
        error := Some(WriteFailed);
        return;
      }
      notes := existingNotes;
    }

    /** The delete button's handler: every note with the id is dropped. */
    method DeleteNote(id: int, readOk: bool, writeAccepted: bool)
      modifies this
      ensures notes == if !writeAccepted then old(notes) else if readOk then Without(old(notes), id) else []
    {
      var current := if readOk then notes else [];
      var updatedNotes := Without(current, id);
      if writeAccepted {
        notes := updatedNotes;
      }
    }

    /** The edit form's save handler: with non-empty trimmed text, the first
        note with the id gets the new encrypted text and category; nothing
        is written when the text is empty or the id is absent. */
    method SaveEdit(id: int, input: string, category: string, key: Key, iv: seq<Byte>,
                    readOk: bool, writeAccepted: bool)
      returns (written: bool)
      requires |iv| == IV_LENGTH
      modifies this
      ensures written <==> readOk && writeAccepted && Trim(input) != "" && exists i :: IsFirstIndex(old(notes), id, i)
      ensures !written ==> notes == old(notes)
      ensures written ==> exists i :: (IsFirstIndex(old(notes), id, i)
        && notes == old(notes)[i := Edited(old(notes)[i], Encrypted(Encrypt(key, Trim(input), iv)), category)])
      ensures written ==> |notes| == |old(notes)|
      ensures written ==> forall i :: 0 <= i < |notes| ==> notes[i].id == old(notes)[i].id
      ensures written ==> forall i :: IsFirstIndex(notes, id, i) ==> DisplayText(key, notes[i]) == Trim(input)
    {
      written := false;
      var newText := Trim(input);
      TrimmedHasNoBom(input);
      if newText == "" {
        return;
      }
      var current := if readOk then notes else [];
      var noteIndex := FindIndex(current, id);
      if noteIndex == -1 {
        return;
      }
      var encryptedData := Encrypt(key, newText, iv);
      current := current[noteIndex := Edited(current[noteIndex], Encrypted(encryptedData), category)];
      if writeAccepted {
        notes := current;
        written := true;
      }
    }
  }
}

/**
 * The notes store of the content script and the two handlers that use it:
 * the `mouseup` handler that saves a note on the selected text, and
 * `restoreHighlights`, which re-highlights the saved texts of the current
 * work when the page has loaded.
 *
 * The persisted value is `{works: {<workId>: {workId, author, title, fandom, notes}}}`;
 * the model keeps its `works` dictionary.
 */
module Notes {
  import opened Wrappers
  import opened Text
  import WorkId
  import opened Highlight

  datatype Note = Note(id: string, text: string, note: string, time: int)

  datatype Work = Work(workId: string, author: string, title: string, fandom: string, notes: seq<Note>)

  /** What `window.getSelection()` tells the handler: whether it is collapsed, and `toString()`. */
  datatype Selection = Selection(isCollapsed: bool, text: string)

  /** The early returns of the `mouseup` handler, in the order it checks them. */
  datatype Abort = NoSelection | Collapsed | EmptyText | NoNote | NoWorkId

  /** What survives the checks: the work to file the note under, the trimmed selected text and the note. */
  datatype Draft = Draft(workId: string, text: string, note: string)

  /** The work's metadata as read off the page when its entry is created. */
  datatype Meta = Meta(author: string, title: string, fandom: string)

  const UnknownAuthor: string := "Unknown Author"
  const UnknownFandom: string := "Unknown Fandom"
  const UnknownTitle: string := "Unknown Title"

  /**
   * `getAuthor`, `getFandom` and `getWorkTitle`: the trimmed `innerText` of
   * the element the page query finds, or the fallback when there is none.
   */
  function MetadataOr(found: Option<string>, fallback: string): (r: string)
    ensures found.None? ==> r == fallback
    ensures found.Some? ==> r == Trim(found.value)
    ensures found.Some? ==> IsTrimmed(r) && (r == [] <==> AllWhitespace(found.value))
  {
    match found
    case None => fallback
    case Some(text) => TrimEmptyIff(text); Trim(text)
  }

  /** An element whose text has no whitespace at its ends is reported verbatim. */
  lemma MetadataOrVerbatim(text: string, fallback: string)
    requires IsTrimmed(text)
    ensures MetadataOr(Some(text), fallback) == text
  {
    TrimmedIsFixed(text);
  }

  /**
   * The metadata the handler records for a new entry: `getAuthor()`,
   * `getWorkTitle()` and `getFandom()`, given the text of the element each
   * page query finds, if any.
   */
  function PageMeta(authorEl: Option<string>, titleEl: Option<string>, fandomEl: Option<string>): Meta
  {
    Meta(MetadataOr(authorEl, UnknownAuthor), MetadataOr(titleEl, UnknownTitle), MetadataOr(fandomEl, UnknownFandom))
  }

  /**
   * The checks the `mouseup` handler makes before it stores anything: a
   * selection that is not collapsed, selected text that is not all
   * whitespace, a note that is neither cancelled nor empty, and a work id in
   * the path. The note is prompted for before the work id is read, so a
   * path without one is reported only once the note has been given.
   */
  function Admit(selection: Option<Selection>, noteInput: Option<string>, path: string): (r: Result<Draft, Abort>)
    ensures r == Failure(NoSelection) <==> selection.None?
    ensures r == Failure(Collapsed) <==> selection.Some? && selection.value.isCollapsed
    ensures r == Failure(EmptyText) <==>
      selection.Some? && !selection.value.isCollapsed && AllWhitespace(selection.value.text)
    ensures r == Failure(NoNote) <==>
      && selection.Some? && !selection.value.isCollapsed && !AllWhitespace(selection.value.text)
      && (noteInput.None? || noteInput.value == [])
    ensures r.Success? <==>
      && selection.Some? && !selection.value.isCollapsed && !AllWhitespace(selection.value.text)
      && noteInput.Some? && noteInput.value != []
      && WorkId.GetWorkId(path).Some?
    ensures r.Success? ==>
      && r.value.text == Trim(selection.value.text) && r.value.text != [] && IsTrimmed(r.value.text)
      && r.value.note == noteInput.value
      && WorkId.GetWorkId(path) == Some(r.value.workId) && WorkId.AllDigits(r.value.workId)
  {
    if selection.None? then Failure(NoSelection)
    else if selection.value.isCollapsed then Failure(Collapsed)
    else
      var text := Trim(selection.value.text);
      TrimEmptyIff(selection.value.text);
      if text == [] then Failure(EmptyText)
      else if noteInput.None? || noteInput.value == [] then Failure(NoNote)
      else match WorkId.GetWorkId(path)
        case None => Failure(NoWorkId)
        case Some(workId) => Success(Draft(workId, text, noteInput.value))
  }

  /** The notes stored for `workId`: none when there is no id or no entry for it. */
  function NotesFor(works: map<string, Work>, workId: Option<string>): seq<Note>
  {
    if workId.Some? && workId.value in works then works[workId.value].notes else []
  }

  /**
   * The store after saving note `id` of draft `d` at time `time`: the work's
   * entry is created with the page's metadata and no notes if it is absent,
   * and the note is pushed on the end of its list. Every other entry is kept.
   */
  function WithNote(works: map<string, Work>, d: Draft, id: string, time: int, meta: Meta): (r: map<string, Work>)
    ensures r.Keys == works.Keys + {d.workId}
    ensures forall k :: k in works && k != d.workId ==> r[k] == works[k]
    ensures NotesFor(r, Some(d.workId)) == NotesFor(works, Some(d.workId)) + [Note(id, d.text, d.note, time)]
    ensures d.workId in works ==>
      var (w, w') := (works[d.workId], r[d.workId]);
      w'.workId == w.workId && w'.author == w.author && w'.title == w.title && w'.fandom == w.fandom
    ensures d.workId !in works ==>
      var w' := r[d.workId];
      w'.workId == d.workId && w'.author == meta.author && w'.title == meta.title && w'.fandom == meta.fandom
  {
    var w := if d.workId in works then works[d.workId] else Work(d.workId, meta.author, meta.title, meta.fandom, []);
    works[d.workId := w.(notes := w.notes + [Note(id, d.text, d.note, time)])]
  }

  /** Every stored note has non-empty, trimmed text and a non-empty note. */
  ghost predicate NotesWellFormed(notes: seq<Note>)
  {
    forall i :: 0 <= i < |notes| ==> notes[i].text != [] && IsTrimmed(notes[i].text) && notes[i].note != []
  }

  /** What the script only ever writes: each entry is filed under its own work id and holds well-formed notes. */
  ghost predicate WellFormed(works: map<string, Work>)
  {
    forall k :: k in works ==> works[k].workId == k && NotesWellFormed(works[k].notes)
  }

  /** Saving an admitted draft keeps the store well formed. */
  lemma WithNoteWellFormed(works: map<string, Work>, d: Draft, id: string, time: int, meta: Meta)
    requires WellFormed(works)
    requires d.text != [] && IsTrimmed(d.text) && d.note != []
    ensures WellFormed(WithNote(works, d, id, time, meta))
  {
    var r := WithNote(works, d, id, time, meta);
    var notes := NotesFor(r, Some(d.workId));
    assert notes == NotesFor(works, Some(d.workId)) + [Note(id, d.text, d.note, time)];
    assert NotesWellFormed(notes);
  }

  /** The number of notes in the store, over all works. */
  ghost function TotalNotes(works: map<string, Work>): nat
    decreases |works|
  {
    if works == map[] then 0
    else
      var k :| k in works;
      |works[k].notes| + TotalNotes(works - {k})
  }

  lemma {:induction false} TotalNotesRemove(works: map<string, Work>, k: string)
    requires k in works
    ensures TotalNotes(works) == |works[k].notes| + TotalNotes(works - {k})
    decreases |works|
  {
    var j :| j in works && TotalNotes(works) == |works[j].notes| + TotalNotes(works - {j});
    if j != k {
      assert works - {j} - {k} == works - {k} - {j};
      TotalNotesRemove(works - {j}, k);
      TotalNotesRemove(works - {k}, j);
    }
  }

  /** Saving a note adds exactly one note to the store. */
  lemma WithNoteCount(works: map<string, Work>, d: Draft, id: string, time: int, meta: Meta)
    ensures TotalNotes(WithNote(works, d, id, time, meta)) == TotalNotes(works) + 1
  {
    var r := WithNote(works, d, id, time, meta);
    TotalNotesRemove(r, d.workId);
    assert r - {d.workId} == works - {d.workId};
    if d.workId in works {
      TotalNotesRemove(works, d.workId);
    } else {
      assert works - {d.workId} == works;
    }
  }

  /** Every note's text is non-empty, so the match loop can run on it. */
  ghost predicate Searchable(notes: seq<Note>)
  {
    forall i :: 0 <= i < |notes| ==> |notes[i].text| > 0
  }

  lemma HighlightTextEach(ps: seq<seq<Segment>>, t: string, id: string)
    requires |t| > 0
    ensures forall k :: 0 <= k < |ps| ==> TextOf(HighlightSpec(ps[k], t, id)) == TextOf(ps[k])
  {
    forall k | 0 <= k < |ps| ensures TextOf(HighlightSpec(ps[k], t, id)) == TextOf(ps[k]) {
      HighlightText(ps[k], t, id);
    }
  }

  /**
   * One pass of `restoreHighlights`' inner loop: note `t`, `id` highlighted
   * in every paragraph, in order. No paragraph's text changes.
   */
  function HighlightParas(ps: seq<seq<Segment>>, t: string, id: string): (r: seq<seq<Segment>>)
    requires |t| > 0
    ensures |r| == |ps|
    ensures forall k :: 0 <= k < |ps| ==> TextOf(r[k]) == TextOf(ps[k])
  {
    HighlightTextEach(ps, t, id);
    seq(|ps|, k requires 0 <= k < |ps| => HighlightSpec(ps[k], t, id))
  }

  /**
   * The paragraphs after `restoreHighlights` has taken each note in turn, in
   * stored order. Restoring highlights never changes the text of any paragraph.
   */
  function Restored(notes: seq<Note>, ps: seq<seq<Segment>>): (r: seq<seq<Segment>>)
    requires Searchable(notes)
    ensures |r| == |ps|
    ensures forall k :: 0 <= k < |ps| ==> TextOf(r[k]) == TextOf(ps[k])
  {
    if notes == [] then ps
    else
      var n := notes[|notes| - 1];
      HighlightParas(Restored(notes[..|notes| - 1], ps), n.text, n.id)
  }

  /** No paragraph has a node outside a highlight containing `u`. */
  predicate NoneContain(ps: seq<seq<Segment>>, u: string)
  {
    forall k :: 0 <= k < |ps| ==> !AnyMatch(ps[k], u)
  }

  /**
   * One pass with note text `t` leaves no unhighlighted node containing `t`,
   * and keeps free of `u` paragraphs that were already free of it.
   */
  lemma PassFree(ps: seq<seq<Segment>>, t: string, id: string, u: string)
    requires |t| > 0
    requires u == t || NoneContain(ps, u)
    ensures NoneContain(HighlightParas(ps, t, id), u)
  {
    forall k | 0 <= k < |ps| ensures !AnyMatch(HighlightParas(ps, t, id)[k], u) {
      HighlightFree(ps[k], t, id, u);
    }
  }

  /** A pass with a text no unhighlighted node contains changes nothing. */
  lemma PassUnmatched(ps: seq<seq<Segment>>, t: string, id: string)
    requires |t| > 0 && NoneContain(ps, t)
    ensures HighlightParas(ps, t, id) == ps
  {
    forall k | 0 <= k < |ps| ensures HighlightParas(ps, t, id)[k] == ps[k] {
      HighlightUnmatched(ps[k], t, id);
    }
  }

  /** Once no unhighlighted node contains `u`, later passes keep it so. */
  lemma {:induction false} NoneContainPersists(notes: seq<Note>, ps: seq<seq<Segment>>, u: string, a: nat, b: nat)
    requires Searchable(notes) && a <= b <= |notes|
    requires NoneContain(Restored(notes[..a], ps), u)
    ensures NoneContain(Restored(notes[..b], ps), u)
    decreases b - a
  {
    if a < b {
      assert notes[..a + 1][..a] == notes[..a];
      PassFree(Restored(notes[..a], ps), notes[a].text, notes[a].id, u);
      NoneContainPersists(notes, ps, u, a + 1, b);
    }
  }

  /** After a note's pass, no unhighlighted node contains its text when any later note's pass begins. */
  lemma EarlierTextFree(notes: seq<Note>, ps: seq<seq<Segment>>, i: nat, j: nat)
    requires Searchable(notes) && i < j <= |notes|
    ensures NoneContain(Restored(notes[..j], ps), notes[i].text)
  {
    assert notes[..i + 1][..i] == notes[..i];
    PassFree(Restored(notes[..i], ps), notes[i].text, notes[i].id, notes[i].text);
    NoneContainPersists(notes, ps, notes[i].text, i + 1, j);
  }

  /**
   * A note whose text equals that of an earlier note finds nothing left to
   * wrap: every occurrence already sits under the earlier note's span, so its
   * pass leaves the paragraphs as they are and it gets no highlight of its own.
   */
  lemma DuplicateTextAddsNothing(notes: seq<Note>, ps: seq<seq<Segment>>, i: nat, j: nat)
    requires Searchable(notes) && i < j < |notes|
    requires notes[i].text == notes[j].text
    ensures Restored(notes[..j + 1], ps) == Restored(notes[..j], ps)
  {
    EarlierTextFree(notes, ps, i, j);
    assert notes[..j + 1][..j] == notes[..j];
    PassUnmatched(Restored(notes[..j], ps), notes[j].text, notes[j].id);
  }

  class NotesStore {
    /** `data.works` */
    var works: map<string, Work>

    ghost predicate Valid()
      reads this
    {
      WellFormed(works)
    }

    /** `loadData()`: the stored dictionary, or `{works: {}}` when nothing is stored. */
    constructor Load(stored: Option<map<string, Work>>)
      ensures stored.None? ==> works == map[]
      ensures stored.Some? ==> works == stored.value
      ensures (stored.None? || WellFormed(stored.value)) ==> Valid()
    {
      works := if stored.Some? then stored.value else map[];
    }

    /**
     * The store half of the `mouseup` handler: the checks, in order, each an
     * early return that leaves the store as it is; then the work's entry is
     * created if absent and the new note pushed on its list. The note's id,
     * the time are the handler's `crypto.randomUUID()` and `Date.now()`; the
     * author, title and fandom elements are what the page queries of
     * `getAuthor()`, `getWorkTitle()` and `getFandom()` find.
     */
    method AddNote(selection: Option<Selection>, noteInput: Option<string>, path: string,
                   id: string, time: int, authorEl: Option<string>, titleEl: Option<string>, fandomEl: Option<string>)
      returns (outcome: Result<Draft, Abort>)
      modifies this
      ensures outcome == Admit(selection, noteInput, path)
      ensures outcome.Failure? ==> works == old(works)
      ensures outcome.Success? ==>
        works == WithNote(old(works), outcome.value, id, time, PageMeta(authorEl, titleEl, fandomEl))
      ensures old(Valid()) ==> Valid()
    {
      if selection.None? || selection.value.isCollapsed {
        outcome := if selection.None? then Failure(NoSelection) else Failure(Collapsed);
        return;
      }
      var text := Trim(selection.value.text);
      if text == [] {
        outcome := Failure(EmptyText);
        return;
      }
      if noteInput.None? || noteInput.value == [] {
        outcome := Failure(NoNote);
        return;
      }
      var workId := WorkId.GetWorkId(path);
      if workId.None? {
        outcome := Failure(NoWorkId);
        return;
      }
      var draft := Draft(workId.value, text, noteInput.value);
      Store(draft, id, time, PageMeta(authorEl, titleEl, fandomEl));
      outcome := Success(draft);
    }

    /** The tail of the `mouseup` handler: create the work's entry if absent, then push the note. */
    method Store(d: Draft, id: string, time: int, meta: Meta)
      modifies this
      ensures works == WithNote(old(works), d, id, time, meta)
      ensures old(Valid()) && d.text != [] && IsTrimmed(d.text) && d.note != [] ==> Valid()
    {
      ghost var before := works;
      if d.workId !in works {
        works := works[d.workId := Work(d.workId, meta.author, meta.title, meta.fandom, [])];
      }
      var w := works[d.workId];
      assert w == if d.workId in before then before[d.workId] else Work(d.workId, meta.author, meta.title, meta.fandom, []);
      ghost var saved := w.(notes := w.notes + [Note(id, d.text, d.note, time)]);
      works := works[d.workId := w.(notes := w.notes + [Note(id, d.text, d.note, time)])];
      assert works == before[d.workId := saved];
      if WellFormed(before) && d.text != [] && IsTrimmed(d.text) && d.note != [] {
        WithNoteWellFormed(before, d, id, time, meta);
      }
    }

    /**
     * `restoreHighlights()`: nothing when the path has no work id or the store
     * no entry for it; otherwise, for each stored note in turn, every
     * paragraph is highlighted with the note's text and id.
     */
    method RestoreHighlights(path: string, paragraphs: array<seq<Segment>>)
      requires Valid()
      modifies paragraphs
      ensures Searchable(NotesFor(works, WorkId.GetWorkId(path)))
      ensures paragraphs[..] == Restored(NotesFor(works, WorkId.GetWorkId(path)), old(paragraphs[..]))
      ensures WorkId.GetWorkId(path).None? || WorkId.GetWorkId(path).value !in works ==>
        paragraphs[..] == old(paragraphs[..])
    {
      var workId := WorkId.GetWorkId(path);
      if workId.None? || workId.value !in works {
        return;
      }
      var notes := works[workId.value].notes;
      assert Searchable(notes);
      var i := 0;
      while i < |notes|
        invariant i <= |notes|
        invariant paragraphs[..] == Restored(notes[..i], old(paragraphs[..]))
      {
        var n := notes[i];
        HighlightEach(paragraphs, n.text, n.id);
        assert notes[..i + 1][..i] == notes[..i];
        i := i + 1;
      }
      assert notes[..|notes|] == notes;
    }
  }

  /** The inner loop of `restoreHighlights()`: every paragraph, in document order, highlighted with note `id`'s text `t`. */
  method HighlightEach(paragraphs: array<seq<Segment>>, t: string, id: string)
    requires |t| > 0
    modifies paragraphs
    ensures paragraphs[..] == HighlightParas(old(paragraphs[..]), t, id)
  {
    var j := 0;
    while j < paragraphs.Length
      invariant j <= paragraphs.Length
      invariant forall k :: 0 <= k < j ==> paragraphs[k] == HighlightSpec(old(paragraphs[k]), t, id)
      invariant forall k :: j <= k < paragraphs.Length ==> paragraphs[k] == old(paragraphs[k])
    {
      var out, matched := HighlightAll(paragraphs[j], t, id);
      paragraphs[j] := out;
      j := j + 1;
    }
  }
}

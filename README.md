# AO3 note-taking content script, modelled in Dafny

`code/content.js` is a browser content script for Archive of Our Own work
pages. A reader selects some text and types a note. The script wraps the
selection in an `ao3-highlight` span and keeps the note in a per-work store.
When the page loads it highlights every saved text again.

This project models the sequential logic inside that script:

- `Text` (`text.dfy`): `String.prototype.trim` over the ECMAScript
  whitespace and line-terminator code points. It is computed by indices:
  `StartOfText` finds the first non-whitespace position and `EndOfText`
  the end of the last.
- `WorkId` (`work_id.dfy`): `getWorkId`, the regular expression
  `/\/works\/(\d+)/` matched against the path. The match starts at the
  leftmost `"/works/"` directly followed by an ASCII digit, and the capture
  is the maximal digit run there.
- `Highlight` (`highlight.dfy`): `highlightRangeByTextAll`.
  - A paragraph is a sequence of text nodes: `Plain`, or `Marked` when the
    node's parent is already a highlight span.
  - `IndexOf` is `indexOf` with its start position clamped.
  - `FindAll` is the node's match loop, an imperative method proved equal to
    the function `Pieces`: the node split into the text before each match
    and a span over it. Its span offsets are `Occurrences`, the leftmost
    non-overlapping occurrences.
  - `HighlightAll` is the tree-walker loop. It skips marked nodes and returns
    `matched`.
- `Notes` (`notes.dfy`): the store and the two handlers that use it.
  - `Work` and `Note` are the persisted records.
  - `NotesStore` is a class whose `works` map is the persisted dictionary.
  - `Load` is `loadData`.
  - `AddNote` is the store half of the `mouseup` handler:
    - the early returns, in the order the handler makes them (`Admit`);
    - creation of the work's entry when it is absent;
    - the push of the new note (`Store`, `WithNote`).
  - `RestoreHighlights` is `restoreHighlights`, nested loops over the notes
    and an array of paragraphs, proved equal to `Restored`.

The handler's outside calls become the method's parameters:

| call | parameter |
|---|---|
| `window.getSelection()` | `Option<Selection>` |
| `prompt` | `Option<string>` |
| `location.pathname` | `path` |
| `crypto.randomUUID()` | `id` |
| `Date.now()` | `time` |
| the page queries of `getAuthor`, `getWorkTitle`, `getFandom` | `authorEl`, `titleEl`, `fandomEl`: the found element's `innerText`, or `None` |

Each getter then follows the trim-or-fallback rule of `MetadataOr`, and
`PageMeta` gathers the three results into the metadata of a new entry.

Splitting a node in the DOM versus searching the unsplit string:

- In the DOM, `surroundContents` splits the text node at each match. The
  node keeps the text before the match, and a new node after the span holds
  the rest. The source's next `indexOf` on the shortened node finds nothing
  (`PrefixSearchEnds`).
- The walker next visits the span's own text node. Its parent is a
  highlight, so the test at line 149 skips it.
- The walker then visits the remainder node, and searching it from its start
  finds what searching the whole string from the end of the match finds
  (`SearchInRemainder`).
- `DomSplit` performs this node-by-node split, and `DomSplitIsPieces` proves
  it yields exactly `Pieces`, the nodes the model computes by searching the
  unsplit string from `idx + |t|`.

## Model

| member | source | states |
|---|---|---|
| WorkId.GetWorkId | code/content.js:6-9 | `None` exactly when no position has "/works/" followed by a digit. Otherwise the value is what the capture holds at the leftmost such position: non-empty, all ASCII digits, and the whole digit run. |
| WorkId.FirstMatch | code/content.js:7 | The leftmost position at or after `from` where the expression can start a match, or `None` when there is none. |
| WorkId.DigitRun | code/content.js:7 | The greedy `\d+`: the run from `j` is all digits and is followed by the end of the path or a non-digit. |
| WorkId.CaptureUnique | code/content.js:7-8 | The match position and the captured id are determined by the path. |
| WorkId.CanonicalPath | code/content.js:6-9 | "/works/" followed by digits and then a non-digit or the end yields those digits. |
| WorkId.ChapterPath | code/content.js:6-9 | On a chapter page, the work id is returned, not the chapter id. |
| WorkId.SkipsNonNumericPrefix | code/content.js:6-9 | "/works/" not followed by a digit is passed over for a later match. |
| Text.Trim | code/content.js:235 | The result is a contiguous piece of the input, everything cut from either end is whitespace, and the result starts and ends with non-whitespace. |
| Text.StartOfText | code/content.js:235 | The front cut: every position before it is whitespace and the one it points at is not. |
| Text.EndOfText | code/content.js:235 | The back cut: every position after it is whitespace and the one before it is not. |
| Text.TrimEmptyIff | code/content.js:235-236 | The trimmed text is empty exactly when the selection is all whitespace. |
| Text.TrimmedIsFixed | code/content.js:235 | `trim` leaves a string without whitespace at its ends unchanged. |
| Text.TrimIdempotent | code/content.js:235 | Trimming twice is trimming once. |
| Notes.MetadataOr | code/content.js:12-27 | The fallback ("Unknown Author", "Unknown Fandom", "Unknown Title") when no element is found. Otherwise exactly `trim` of the element's text, starting and ending with non-whitespace, and empty only if that text is all whitespace. |
| Notes.MetadataOrVerbatim | code/content.js:12-27 | A found element whose text has no whitespace at its ends is reported as it is. |
| Notes.Admit | code/content.js:231-254 | Each early return of the handler holds exactly when its check is the first to fail: no selection, collapsed, all-whitespace text, cancelled or empty note, no work id. It succeeds exactly when none fails, with the trimmed, non-empty text, the note and the path's work id. |
| Notes.PageMeta | code/content.js:259-261 | The metadata a new entry takes: the author, title and fandom, each `MetadataOr` of the element its getter's page query finds, with that getter's fallback. |
| Notes.NotesFor | code/content.js:177-179 | The notes stored for the work: its entry's `notes` list, and none when the path has no work id or the store has no entry for it. |
| Notes.WithNote | code/content.js:256-271 | The keys become the old keys plus the work id, and every other entry is unchanged. The work's notes become the old list (empty for a new entry) with the new note appended. An existing entry keeps its metadata, and a new one takes the page's. |
| Notes.WithNoteWellFormed | code/content.js:256-271 | Saving an admitted note keeps every entry filed under its own id, with non-empty trimmed texts and non-empty notes. |
| Notes.WithNoteCount | code/content.js:266-271 | Saving adds exactly one note to the store. |
| Notes.NotesStore.Load | code/content.js:33-35 | With nothing stored the store is the empty works map; otherwise it is what was stored. |
| Notes.NotesStore.AddNote | code/content.js:229-273 | The outcome is `Admit`'s verdict. On an early return the store is unchanged; on success it is `WithNote` of the old store, with the metadata the three getters return for the elements found. A well-formed store stays well formed. |
| Notes.NotesStore.Store | code/content.js:256-271 | Creating the entry if absent and then pushing the note gives `WithNote` of the old store. |
| Notes.NotesStore.RestoreHighlights | code/content.js:174-189 | The paragraphs become `Restored` of the current work's notes, applied to the old paragraphs. They are unchanged when the path has no work id or the store has no entry for it. |
| Notes.HighlightEach | code/content.js:185-187 | Every paragraph, in order, is highlighted with one note's text and id. |
| Notes.HighlightParas | code/content.js:185-187 | One note's pass over the paragraphs: the same number of paragraphs, each with its text unchanged. |
| Notes.Restored | code/content.js:184-188 | Restoring takes the notes in stored order; it changes no paragraph's text and keeps the number of paragraphs. |
| Notes.PassFree | code/content.js:185-187 | After a note's pass no unhighlighted node contains its text. A text no unhighlighted node contained before is still contained by none. |
| Notes.PassUnmatched | code/content.js:185-187 | A pass whose text no unhighlighted node contains changes nothing. |
| Notes.NoneContainPersists | code/content.js:184-188 | Later notes' passes never make a text reappear outside the highlights. |
| Notes.EarlierTextFree | code/content.js:184-188 | Once a note's pass is done, no later pass begins with an unhighlighted node containing that note's text. |
| Notes.DuplicateTextAddsNothing | code/content.js:184-188 | A note whose text repeats an earlier note's text leaves the paragraphs as they are, so it gets no span of its own. |
| Highlight.Clamp | code/content.js:153 | The clamped start lies in `[0, |s|]`: unchanged when already inside, 0 when negative, `|s|` when past the end. |
| Highlight.MatchesFromIff | code/content.js:153 | The character-by-character comparison holds exactly when the slice equals the rest of `t`. |
| Highlight.SearchFromSpec | code/content.js:153 | The search returns the least offset at or after its start where `t` occurs, or -1 when there is none. |
| Highlight.SearchFrom | code/content.js:153 | A found offset lies at or after the start and leaves room for `t` inside `s`; otherwise -1. |
| Highlight.IndexOf | code/content.js:153 | `indexOf(t, pos)`: -1, or an offset at or after the clamped `pos` that leaves room for `t`. |
| Highlight.IndexOfSpec | code/content.js:153-168 | `indexOf(t, pos)` is the least occurrence at or after the clamped `pos`, or -1. |
| Highlight.IndexOfFound | code/content.js:153-168 | A found offset is an occurrence. |
| Highlight.ContainsIff | code/content.js:153-154 | `indexOf(t) !== -1` exactly when `t` occurs somewhere. |
| Highlight.Occurrences | code/content.js:153-169 | The offsets the inner loop visits, restarting each search at the end of the last match; there are at most `(|s| - from) / |t|` of them. |
| Highlight.OccurrencesSound | code/content.js:153-169 | The visited offsets are occurrences, each at least `|t|` after the one before: strictly increasing and never overlapping. |
| Highlight.NonOverlappingCons | code/content.js:168 | An occurrence followed by non-overlapping occurrences after its end is still non-overlapping. |
| Highlight.OccurrencesComplete | code/content.js:153-169 | Every occurrence is visited, or overlaps a visited one that starts before it. The visited offsets are the leftmost non-overlapping occurrences. |
| Highlight.Pieces | code/content.js:153-169 | The nodes a plain text node becomes: the text before each visited match, a span over it, and the text after the last one. |
| Highlight.PiecesCount | code/content.js:153-169 | Each visited match adds one span and one text node after it. |
| Highlight.PiecesText | code/content.js:153-163 | Splitting a node around its matches does not change its text. |
| Highlight.PiecesMarks | code/content.js:153-168 | The spans sit exactly at the visited offsets. |
| Highlight.PiecesFree | code/content.js:153-169 | No unhighlighted piece left by the split contains `t`, and none contains a text the node did not contain. |
| Highlight.PiecesOtherMarks | code/content.js:159-163 | Every span the loop creates holds `t` and carries the note's id. |
| Highlight.FindAll | code/content.js:153-169 | The loop builds exactly `Pieces`. `found` is true exactly when the node contains `t`. The span offsets are the leftmost non-overlapping occurrences. |
| Highlight.Block | code/content.js:149-153 | What one node of the walk becomes: a node whose parent is a highlight is kept as it is; any other is split by its match loop into `Pieces`. |
| Highlight.AnyMatch | code/content.js:143-172 | The final value of `matched`: some node outside a highlight contains `t`. |
| Highlight.HighlightSpec | code/content.js:145-170 | The paragraph after the walk: each node in order, a node under a highlight kept as it is and every other one replaced by its `Pieces`. |
| Highlight.HighlightAll | code/content.js:141-173 | The walk yields `HighlightSpec`: marked nodes are kept and every plain node is split by the match loop. `matched` holds exactly when some unhighlighted node contains `t`. |
| Highlight.PrefixSearchEnds | code/content.js:163-168 | After a wrap, the next `indexOf` on the shortened node finds nothing, so the inner loop ends there. |
| Highlight.SearchInRemainder | code/content.js:145-168 | Searching the remainder node from its start finds the occurrence that searching the whole node from the end of the match finds, shifted by that offset. |
| Highlight.DomSplit | code/content.js:153-168 | The split as the DOM performs it, node by node: the first match of the node is wrapped, the shortened node's search ends, and the remainder node is searched from its start. |
| Highlight.DomSplitIsPieces | code/content.js:153-168 | Wrapping the first match, skipping the span's own text node and searching the remainder node from its start yields exactly `Pieces`. |
| Highlight.HighlightText | code/content.js:141-173 | Highlighting never changes a paragraph's text. |
| Highlight.HighlightUnmatched | code/content.js:141-173 | When no unhighlighted node contains `t`, the paragraph is left as it is. |
| Highlight.HighlightFree | code/content.js:148-169 | Afterwards no unhighlighted node contains `t`, and a text no such node contained stays absent. |
| Highlight.HighlightIdempotent | code/content.js:141-173 | A second pass with the same text finds nothing and changes nothing. |
| Highlight.HighlightKeepsMarks | code/content.js:148-151 | Nodes already under a highlight are never re-wrapped. Leaving out the new spans of this note, the highlighted nodes after the pass are those before it, in order. |

## Left out

- DOM work is not modelled: `TreeWalker`, `Range`, `surroundContents`, `deleteContents`/`insertNode`, span creation, the side panel (220-223) and the list built by `renderNotes` (197-214). It is browser-defined behaviour. Text nodes are strings in a sequence, and the node split is the `Pieces` function.
- The highlight the `mouseup` handler inserts at once (243-249) is left out as DOM work. It replaces the whole selected range by a span holding the trimmed text, and it happens before the work id is checked, so it also happens on pages where nothing is saved.
- `localStorage` and JSON (33-38) are left out as I/O. `Load` receives the parsed dictionary, or `None` when nothing is stored. A stored empty string also yields the default, because of `||`. Unparseable JSON makes the script throw. Neither case is modelled.
- `saveData` is the assignment to `works`; serialising it is left out as I/O.
- The outside calls are parameters, because they are foreign or nondeterministic: `prompt`, `crypto.randomUUID`, `Date.now`, `window.getSelection`, `selection.toString`, `location.pathname` and the page queries behind the metadata getters.
- Event wiring and timing are left out: the `mouseup` and `load` listeners and the `setTimeout` of 500 ms (229, 290-295).
- The commented-out first-match variants (46-136) are dead code and are left out.
- Highlight.FindAll: requires a non-empty text. With an empty text the source's loop never advances and does not terminate. The handler never stores an empty text (236).
- Highlight.HighlightAll: requires a non-empty text, for the same reason.
- Notes.HighlightEach: requires a non-empty text, for the same reason.
- Notes.NotesStore.RestoreHighlights: requires the store to be well formed, so that every stored text is non-empty. The source has no such guard, but a store written only by this script always satisfies it. A hand-edited store with an empty text would make the source hang.
- The store keeps the `works` map and not the whole `{works: …}` object, which has no other field.
- Strings are sequences of Unicode scalar values, whereas JavaScript offsets and lengths count UTF-16 code units. Outside the Basic Multilingual Plane the two differ: `"😀ab".indexOf("a")` is 2 in JavaScript and 1 here. So the offsets of `IndexOf`, `Occurrences` and `OccurrencesSound` are in other units than the source's. In strings without lone surrogates no match can start or end inside a surrogate pair, so the matches and the resulting nodes correspond and only the offsets differ. Lone surrogates, which a JavaScript string may hold, cannot be represented.
- Highlight.Pieces: a function with no contract of its own; `PiecesText`, `PiecesMarks`, `PiecesCount`, `PiecesFree`, `PiecesOtherMarks` and `DomSplitIsPieces` state what it promises.
- Highlight.HighlightSpec: a function with no contract of its own; `HighlightText`, `HighlightFree`, `HighlightUnmatched`, `HighlightKeepsMarks` and `HighlightIdempotent` state what it promises.
- Highlight.Block, Highlight.AnyMatch and Highlight.DomSplit: definitions with no contract of their own; `HighlightSpec`'s lemmas, `HighlightAll` and `DomSplitIsPieces` state what they promise.
- Notes.PageMeta and Notes.NotesFor: definitions with no contract of their own; `MetadataOr`, `AddNote`, `WithNote` and `RestoreHighlights` state what they promise.
- `time` is an unbounded integer. `Date.now()` is a floating-point millisecond count, and nothing here depends on its range.

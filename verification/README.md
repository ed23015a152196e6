# Personal notes manager — a Dafny model of its note store and views

The notes manager is a single React component, `App`, with a modal editor,
`NoteEditorModal`. This project models the logic of both as pure Dafny
functions over immutable values and proves what they promise:

- the `filteredNotes` memo: the tag filter (the `"All"` sentinel keeps
  everything), then the case-insensitive search, then the sort by
  `updatedAt || 0`, most recent first. The search applies only when the
  search string does not trim to nothing, and the term it looks for is the
  lowercased but untrimmed search string;
- the `tags` memo: `"All"` followed by every tag of every note once, in
  order of first appearance;
- the state mutations `handleSaveNote` (edit branch and create branch,
  with id `"n" + now`), `handleDeleteNote`, `handleTagClick`,
  `handleSelectNote` and the `mainNote` lookup;
- the editor: its initial draft, `handleSubmit`, `handleTagAdd`,
  `handleTagRemove`, `handleTagClickPreset`, and the filter that picks at
  most three preset suggestions.

Modules:

- `Seqs`: the generic sequence vocabulary.
  - `Filter` models `Array.prototype.filter`. `SelectsExactly` is an
    independent description of a filter's result, and `FilterUnique`
    proves that it determines the result.
  - `Dedup` models the `Set` that collects tags in insertion order.
  - `FirstIndex` gives the position of a value's first occurrence.
- `Text`: string operations.
  - `toLowerCase` (ASCII letters only).
  - `trim`, with the ECMAScript whitespace set.
  - `includes` and `startsWith`.
  - The decimal rendering of the clock used in new ids, with its
    round trip.
- `Notes`: the note record, its sort key, the tag sequence the tag memo
  walks, and `find` by id.
- `Views`: `filteredNotes` and `tags`.
- `Store`: the component state and its mutations.
- `Editor`: the modal's draft and its controls.
- `Session`: editor and store together, plus worked examples: a note that
  "flight" finds by its body, a "Work" filter, creating a note in an
  empty store, and a delete repeated twice.

Four behaviours of the code are worth knowing, because a reader might
expect otherwise. The model follows the code in each case.

- **Ids are not unique.** A new note's id is `"n"` followed by the clock in
  milliseconds. Two notes created at the same reading share an id, and
  deleting that id removes both (`Session.SameClockSharesId`).
- **Saving an edit whose id is not stored changes nothing but the
  selection.** The selection then names no note, so the view pane is
  empty (`Store.SaveEditOfMissingId`).
- **A whitespace-padded search matches literally.** The blank test trims
  the search string. The term itself is not trimmed, so `" flight"`
  searches for the leading space too (`Views.SearchFilter`).
- **The stored collection is parsed without a guard.** A corrupt value in
  storage makes `JSON.parse` throw at mount. The code does not fall back
  to an empty collection. This is outside the model; see "Left out".

## Model

| member | source | states |
|---|---|---|
| Seqs.FilterSelectsExactly | notes_frontend/src/App.js:41-43 | `filter` keeps, in order, exactly the elements that pass the predicate, each as often as it occurs |
| Seqs.FilterUnique | notes_frontend/src/App.js:46-50 | any subsequence that keeps exactly the passing elements with their multiplicities is the filter's result, so the filter is fully characterised |
| Seqs.FilterMembership | notes_frontend/src/App.js:102 | a value is in a filter's result iff it is in the input and passes the predicate |
| Seqs.FilterKeepsAll | notes_frontend/src/App.js:102 | a filter that every element passes returns its input unchanged |
| Seqs.FilterIdempotent | notes_frontend/src/App.js:102 | filtering twice with the same predicate is filtering once |
| Seqs.FilterConcat | notes_frontend/src/App.js:41-43 | filtering distributes over concatenation |
| Seqs.FilterNoDuplicates | notes_frontend/src/App.js:360 | filtering a duplicate-free sequence keeps it duplicate-free |
| Seqs.FirstIndex | notes_frontend/src/App.js:58-61 | the first position of a value: it holds the value and no earlier position does |
| Seqs.Dedup | notes_frontend/src/App.js:58-62 | the `Set` of tags has the same members as the tag sequence |
| Seqs.DedupDistinctInOrder | notes_frontend/src/App.js:58-62 | the `Set`'s iteration order holds each value once, ordered by first insertion |
| Seqs.DedupOfDistinct | notes_frontend/src/App.js:58-62 | a sequence without repeats passes through the `Set` unchanged |
| Text.Lower | notes_frontend/src/App.js:45 | `toLowerCase` keeps the length and lowers every character in place |
| Text.LowerIdempotent | notes_frontend/src/App.js:45 | no upper-case letter survives lowering, and lowering twice is lowering once |
| Text.Trim | notes_frontend/src/App.js:44 | `trim` returns the slice of the string that has only whitespace before and after it, and that slice neither starts nor ends with whitespace; the result is `""` iff the string is all whitespace |
| Text.TrimIdempotent | notes_frontend/src/App.js:353 | trimming a trimmed string changes nothing |
| Text.Contains | notes_frontend/src/App.js:48-49 | `includes` is true iff the needle occurs at some position of the haystack |
| Text.ContainsSelfAndEmpty | notes_frontend/src/App.js:48-49 | every string contains itself and the empty string |
| Text.StartsWith | notes_frontend/src/App.js:439 | `startsWith` holds iff the prefix is no longer than the string and matches its first characters |
| Text.DecimalString | notes_frontend/src/App.js:88 | the clock renders as a non-empty digit string without a leading zero |
| Text.DecimalRoundTrip | notes_frontend/src/App.js:88 | the rendered clock reads back as the same number |
| Text.DecimalInjective | notes_frontend/src/App.js:88 | different clock readings render differently |
| Notes.AllTags | notes_frontend/src/App.js:59-61 | the tags visited are exactly the tags some note carries |
| Notes.FindById | notes_frontend/src/App.js:123 | `find` returns nothing iff no note has the id, and otherwise the first note that has it |
| Views.TagFilter | notes_frontend/src/App.js:39-43 | the sentinel keeps the collection as is; any other tag keeps exactly the notes carrying it, in order |
| Views.SearchFilter | notes_frontend/src/App.js:44-51 | a search that is blank after trimming keeps every note; otherwise exactly the notes whose lowercased title or body contains the lowercased search string are kept, in order |
| Views.LowerKeepsBlankness | notes_frontend/src/App.js:44-45 | lowering the search string does not change whether it is blank |
| Views.SearchCaseInsensitive | notes_frontend/src/App.js:44-51 | a search and its lowercased form select the same notes |
| Views.InsertByRecency | notes_frontend/src/App.js:53 | inserting into a sorted list keeps it sorted and adds exactly one note |
| Views.SortByRecency | notes_frontend/src/App.js:53 | the sort returns a permutation of its input ordered by non-increasing `updatedAt \|\| 0` |
| Views.InsertStable | notes_frontend/src/App.js:53 | insertion places a note before the notes with an equal key, leaving their order alone |
| Views.SortStable | notes_frontend/src/App.js:53 | the sort is stable: the notes sharing a key keep their relative order |
| Views.FilteredNotes | notes_frontend/src/App.js:38-54 | the listed notes are sorted most recent first, and each note appears as often as it is stored if it is visible under the tag and the search, and not at all otherwise |
| Views.FilteredUnfiltered | notes_frontend/src/App.js:39-53 | with the sentinel and a blank search, the list is the whole collection sorted |
| Views.TagList | notes_frontend/src/App.js:57-63 | the list starts with `"All"`, then holds every tag of every note once, ordered by first appearance |
| Views.TagListSentinelRepeat | notes_frontend/src/App.js:62 | `"All"` reappears after the sentinel iff some note carries a tag spelled `"All"` |
| Views.ListedTagSelectsNotes | notes_frontend/src/App.js:39-62 | every tag listed after the sentinel selects at least one note |
| Store.Initial | notes_frontend/src/App.js:22-31 | the mounted state holds the stored collection, no selection, the `"All"` filter and an empty search, and lists every stored note sorted |
| Store.NewId | notes_frontend/src/App.js:88 | a new id is `"n"` followed by digits that read back as the clock |
| Store.ReplaceById | notes_frontend/src/App.js:82-84 | the edit map keeps length and ids, replaces every note with the draft's id by the stamped draft, and keeps the rest |
| Store.Save | notes_frontend/src/App.js:78-96 | an edit rewrites the notes with the draft's id in place and selects it; a create prepends the stamped draft with id `"n" + now` and selects it; tag and search are untouched |
| Store.Delete | notes_frontend/src/App.js:101-103 | delete keeps exactly the notes with another id, in order, and clears the selection iff it was that id |
| Store.TagClick | notes_frontend/src/App.js:118-121 | clicking a tag selects it and clears the note selection, nothing else |
| Store.Select | notes_frontend/src/App.js:108-110 | selecting an id sets the selection to it and changes nothing else, so the view pane shows the first note with that id, if any |
| Store.MainNote | notes_frontend/src/App.js:123 | with no selection nothing is shown; otherwise nothing is shown iff no note has the selected id, and anything shown is the first stored note with that id |
| Store.SaveEditShowsDraft | notes_frontend/src/App.js:80-85 | after an edit of a stored id, the view pane shows the stamped draft |
| Store.SaveEditOfMissingId | notes_frontend/src/App.js:80-85 | an edit of an id no note has leaves the collection unchanged and the view pane empty |
| Store.SaveCreateShowsNewNote | notes_frontend/src/App.js:86-95 | after a create, the view pane shows the new note |
| Store.SaveCreateListsTags | notes_frontend/src/App.js:94 | every tag of a created note is listed in the tag list afterwards |
| Store.MostRecentSortsFirst | notes_frontend/src/App.js:53 | the first note, when at least as recent as all others, heads the sorted list |
| Store.CreatedNoteListedFirst | notes_frontend/src/App.js:86-94 | with a clock not behind any stamp, the created note heads the unfiltered list |
| Store.DeleteIdempotent | notes_frontend/src/App.js:101-103 | deleting an id twice is deleting it once |
| Store.DeleteMissingId | notes_frontend/src/App.js:102 | deleting an id no note has keeps the collection |
| Store.DeleteLeavesNothingToShow | notes_frontend/src/App.js:101-103 | after a delete, no note with the id can be found or shown |
| Store.TagClickListsTagged | notes_frontend/src/App.js:39-43 | after clicking a tag other than the sentinel, every listed note carries it |
| Editor.Open | notes_frontend/src/App.js:318-326 | the draft starts with the note's title, body and tags (empty ones for a new note) and an empty tag input |
| Editor.OpenSubmitRoundTrip | notes_frontend/src/App.js:318-339 | opening a stored note with a title or body and submitting it unedited hands back the same note without its empty tags |
| Editor.TagAdd | notes_frontend/src/App.js:351-358 | a non-blank trimmed input not yet a tag is appended and the input cleared; otherwise the draft is unchanged; no duplicate is ever introduced |
| Editor.TagAddIsTrimmed | notes_frontend/src/App.js:353-355 | an added tag is non-empty and has no whitespace at either end |
| Editor.TagRemove | notes_frontend/src/App.js:359-361 | removing a tag drops every occurrence of it and keeps the other tags in order |
| Editor.TagPreset | notes_frontend/src/App.js:362-364 | a preset is appended iff it is not yet a tag; afterwards it is one |
| Editor.Submit | notes_frontend/src/App.js:329-339 | a note is handed over iff the title or body is non-empty; it carries the draft's text, exactly the non-empty draft tags, and the edited note's id and stamp (none for a new note) |
| Editor.Suggestions | notes_frontend/src/App.js:434-442 | at most three suggestions, each a non-sentinel, unchosen option extending the input case-insensitively without equalling it, taken in order from the front, and exactly the first three of them (all of them when there are fewer) |
| Editor.SuggestionAlwaysAdds | notes_frontend/src/App.js:443-449 | clicking a suggestion always appends it as a new tag |
| Session.SubmitNewNote | notes_frontend/src/App.js:86-96 | submitting and saving a new draft prepends a note with the fresh id, the draft's text and its non-empty tags, and shows it |
| Session.SubmitEdit | notes_frontend/src/App.js:80-85 | submitting and saving an edit rewrites the note in place under its id, with the draft's text and a fresh stamp, and shows it |
| Session.EditAdvancesStamp | notes_frontend/src/App.js:83 | an edit with a later clock moves the note's stamp forward |
| Session.SameClockSharesId | notes_frontend/src/App.js:88 | two creates at the same clock reading share an id, and deleting it removes both |
| Session.CreateInEmptyStore | notes_frontend/src/App.js:86-96 | creating a "Personal" note in an empty store yields just that note and the tag list `["All", "Personal"]` |
| Session.FilterByWork | notes_frontend/src/App.js:39-43 | of a "Work" note and a "Personal" note, the "Work" filter lists only the first |
| Session.BookFlightsMatches | notes_frontend/src/App.js:47-49 | a body "Book flights" matches the term "flight" |
| Session.SearchFindsBody | notes_frontend/src/App.js:38-54 | the search "flight" lists a note whose body is "Book flights" |
| Session.DeleteTwice | notes_frontend/src/App.js:101-103 | after deleting "n1" no note has that id, and deleting it again changes nothing |

## Left out

- Loading from and persisting to `localStorage` (lines 22-26 and 33-35) is
  left out, and so is the JSON round trip. The model starts from the
  collection that was read: `Store.Initial` takes it as a parameter. An
  unparsable stored value throws in the source; the model has no
  counterpart.
- `Date.now()` is the parameter `now`, one reading per save. The create
  branch reads the clock twice (lines 88 and 92). The model uses one
  reading for both the id and the stamp, which is what happens unless
  the millisecond ticks between the two calls.
- Store.ReplaceById: stamps every note that has the draft's id with the
  same `now`. The edit branch calls `Date.now()` once per matching note
  (line 83), so when several notes share an id (see
  `Session.SameClockSharesId`) their stamps can differ by the
  milliseconds that pass during the `map`.
- Store.NewId: takes the clock as a natural number. A clock before the
  epoch would give an id such as `"n-5"`, which the model does not
  produce.
- Strings are sequences of Unicode scalar values. JavaScript strings are
  sequences of UTF-16 code units, so a lone surrogate has no counterpart
  in the model, and lengths and indices differ for characters outside the
  Basic Multilingual Plane.
- Text.Lower: lowers ASCII letters only. JavaScript's `toLowerCase` also
  maps non-ASCII letters, which the model leaves as they are.
- Text.DecimalString: renders every natural number as plain digits.
  JavaScript switches to exponent notation from 1e21 on, which no clock
  reading reaches.
- Notes: values that are not strings, arrays or numbers are not modelled.
  This covers a title that is not a string, a `tags` value that is not an
  array, and a NaN stamp. A missing `tags` array is modelled as `[]`,
  which is how every modelled operation treats it. A missing or falsy id
  is modelled as `""`.
- React itself is left out: hooks, memoisation, re-rendering and JSX
  rendering. The model includes the date shown in the view pane only as
  the stored number; its locale formatting is not modelled.
- The editor's open/close state (`openEditor`, `closeEditor`,
  `editorOpen`, `editorNote`) is not modelled. Neither is the Escape-key
  listener, nor the `window.confirm` prompt before a delete from the list.
  These steps are user-interface sequencing; the model takes their
  outcome as the call it makes.
- `handleSearchChange` and `handleTagInput` only store the text typed.
  The model takes the search string and the tag input as given values.
- The modal's `handleDelete` (lines 341-345) forwards the edited note's id
  to `handleDeleteNote`, which `Store.Delete` models.
- The `maxLength` limits on the input fields (100, 4096 and 16) are
  enforced by the browser. The model places no limit on lengths.

/** The mutations of `App`'s state: saving a draft (edit or create),
    deleting a note, switching the tag filter, and the note the view pane
    shows. The clock is the parameter `now` (milliseconds since the epoch). */
module Store {
  import opened Seqs
  import opened Text
  import opened Notes
  import opened Views

  /** The component state the mutations touch: the note collection, the
      selected note id (`null` is `None`), the selected tag and the search
      string. */
  datatype AppState = AppState(
    notes: seq<Note>,
    selected: Option<string>,
    selectedTag: string,
    search: string)

  /** The state right after mounting, given the collection read from
      storage. */
  function Initial(stored: seq<Note>): (s: AppState)
    ensures s.notes == stored && s.selected.None?
    ensures s.selectedTag == AllTag && s.search == ""
    ensures FilteredNotes(s.notes, s.selectedTag, s.search) == SortByRecency(stored)
  {
    var s := AppState(stored, None, AllTag, "");
    assert IsBlank("");
    FilteredUnfiltered(stored, "");
    s
  }

  /** The id the create branch gives a new note: `"n" + now`. */
  function NewId(now: nat): (id: string)
    ensures |id| > 1 && id[0] == 'n'
    ensures forall i :: 1 <= i < |id| ==> '0' <= id[i] <= '9'
    ensures |id| > 2 ==> id[1] != '0'
    ensures DecimalValue(id[1..]) == now
  {
    var id := "n" + DecimalString(now);
    assert id[1..] == DecimalString(now);
    DecimalRoundTrip(now);
    id
  }

  /** `{ ...note, updatedAt: now }`. */
  function Stamp(draft: Note, now: nat): Note
  {
    draft.(updatedAt := Some(now))
  }

  /** The edit branch's `prev.map(...)`: every note whose id is the draft's
      becomes the stamped draft; the others stay as and where they were. */
  function ReplaceById(notes: seq<Note>, draft: Note, now: nat): (r: seq<Note>)
    ensures |r| == |notes|
    ensures forall i :: 0 <= i < |notes| ==> r[i].id == notes[i].id
    ensures forall i :: 0 <= i < |notes| && notes[i].id == draft.id ==>
      r[i] == Stamp(draft, now) && Recency(r[i]) == now
    ensures forall i :: 0 <= i < |notes| && notes[i].id != draft.id ==> r[i] == notes[i]
  {
    if |notes| == 0 then []
    else
      var head := if notes[0].id == draft.id then Stamp(draft, now) else notes[0];
      var rest := ReplaceById(notes[1..], draft, now);
      assert forall i :: 1 <= i < |notes| ==> ([head] + rest)[i] == rest[i - 1] && notes[i] == notes[1..][i - 1];
      [head] + rest
  }

  /** `handleSaveNote`: a draft with a (truthy) id replaces the notes with
      that id and selects it; a draft without one is prepended as a new
      note with id `"n" + now`, which becomes the selection. The clock
      stamps the saved note either way. */
  function Save(s: AppState, draft: Note, now: nat): (r: AppState)
    ensures r.selectedTag == s.selectedTag && r.search == s.search
    ensures draft.id != "" ==>
      && r.selected == Some(draft.id)
      && |r.notes| == |s.notes|
      && (forall i :: 0 <= i < |s.notes| ==> r.notes[i].id == s.notes[i].id)
      && (forall i :: 0 <= i < |s.notes| && s.notes[i].id == draft.id ==> r.notes[i] == Stamp(draft, now))
      && (forall i :: 0 <= i < |s.notes| && s.notes[i].id != draft.id ==> r.notes[i] == s.notes[i])
    ensures draft.id == "" ==>
      && r.selected == Some(NewId(now))
      && |r.notes| == |s.notes| + 1
      && r.notes[0] == Note(NewId(now), draft.title, draft.body, draft.tags, Some(now))
      && r.notes[1..] == s.notes
  {
    if draft.id != "" then
      s.(notes := ReplaceById(s.notes, draft, now), selected := Some(draft.id))
    else
      var nid := NewId(now);
      var created := Stamp(draft.(id := nid), now);
      var notes := [created] + s.notes;
      assert notes[1..] == s.notes;
      s.(notes := notes, selected := Some(nid))
  }

  /** The filter `n => n.id !== id`. */
  function IdIsNot(id: string): Note -> bool
  {
    (n: Note) => n.id != id
  }

  /** `handleDeleteNote`: removes every note with the id, keeping the rest
      in order, and clears the selection exactly when it was that id. */
  function Delete(s: AppState, id: string): (r: AppState)
    ensures SelectsExactly(r.notes, s.notes, IdIsNot(id))
    ensures forall i :: 0 <= i < |r.notes| ==> r.notes[i].id != id
    ensures r.selected.None? <==> (s.selected.None? || s.selected == Some(id))
    ensures r.selected.Some? ==> r.selected == s.selected
    ensures r.selectedTag == s.selectedTag && r.search == s.search
  {
    FilterSelectsExactly(s.notes, IdIsNot(id));
    s.(notes := Filter(s.notes, IdIsNot(id)),
       selected := if s.selected == Some(id) then None else s.selected)
  }

  /** `handleTagClick`: selects the tag and clears the note selection. */
  function TagClick(s: AppState, tag: string): (r: AppState)
    ensures r.selected.None? && r.selectedTag == tag
    ensures r.notes == s.notes && r.search == s.search
  {
    s.(selectedTag := tag, selected := None)
  }

  /** `handleSelectNote`. */
  function Select(s: AppState, id: string): (r: AppState)
    ensures MainNote(r) == FindById(s.notes, id)
    ensures r.selected == Some(id)
    ensures r.notes == s.notes && r.selectedTag == s.selectedTag && r.search == s.search
  {
    s.(selected := Some(id))
  }

  /** `mainNote`: the first note whose id is the selection, if any. */
  function MainNote(s: AppState): (r: Option<Note>)
    ensures s.selected.None? ==> r.None?
    ensures s.selected.Some? ==> (r.None? <==> forall i :: 0 <= i < |s.notes| ==> s.notes[i].id != s.selected.value)
    ensures r.Some? ==> s.selected.Some? && r.value.id == s.selected.value && r.value in s.notes
    ensures r.Some? ==> exists i :: FirstWithId(s.notes, s.selected.value, i) && s.notes[i] == r.value
  {
    match s.selected
    case None => None
    case Some(id) => FindById(s.notes, id)
  }

  /** Saving an edit whose id is stored puts the stamped draft in the view
      pane. */
  lemma SaveEditShowsDraft(s: AppState, draft: Note, now: nat, k: nat)
    requires draft.id != "" && k < |s.notes| && s.notes[k].id == draft.id
    ensures MainNote(Save(s, draft, now)) == Some(Stamp(draft, now))
  {
    var r := Save(s, draft, now);
    var found := FindById(r.notes, draft.id);
    assert r.notes[k].id == draft.id;
    var i :| FirstWithId(r.notes, draft.id, i) && r.notes[i] == found.value;
    assert s.notes[i].id == draft.id;
  }

  /** Saving an edit whose id is not stored leaves the collection as it was,
      yet selects that id, so the view pane shows nothing. */
  lemma {:induction false} SaveEditOfMissingId(s: AppState, draft: Note, now: nat)
    requires draft.id != ""
    requires forall i :: 0 <= i < |s.notes| ==> s.notes[i].id != draft.id
    ensures Save(s, draft, now).notes == s.notes
    ensures MainNote(Save(s, draft, now)).None?
  {
    var r := Save(s, draft, now);
    assert forall i :: 0 <= i < |s.notes| ==> r.notes[i] == s.notes[i];
  }

  /** A created note is what the view pane shows next. */
  lemma SaveCreateShowsNewNote(s: AppState, draft: Note, now: nat)
    requires draft.id == ""
    ensures MainNote(Save(s, draft, now)) == Some(Note(NewId(now), draft.title, draft.body, draft.tags, Some(now)))
  {
  }

  /** A created note's tags all appear in the tag list afterwards. */
  lemma SaveCreateListsTags(s: AppState, draft: Note, now: nat, t: string)
    requires draft.id == "" && t in draft.tags
    ensures t in TagList(Save(s, draft, now).notes)[1..]
  {
    var r := Save(s, draft, now);
    assert t in r.notes[0].tags;
  }

  /** A note at least as recent as every other one is sorted to the front. */
  lemma {:induction false} MostRecentSortsFirst(s: seq<Note>)
    requires |s| > 0
    requires forall i :: 0 <= i < |s| ==> Recency(s[i]) <= Recency(s[0])
    ensures SortByRecency(s)[0] == s[0]
  {
    var t := SortByRecency(s[1..]);
    if |t| > 0 {
      assert t[0] in multiset(s[1..]);
    }
  }

  /** With a clock that does not run backwards, a created note heads the
      unfiltered list. */
  lemma CreatedNoteListedFirst(s: AppState, draft: Note, now: nat)
    requires draft.id == ""
    requires forall i :: 0 <= i < |s.notes| ==> Recency(s.notes[i]) <= now
    ensures FilteredNotes(Save(s, draft, now).notes, AllTag, "")[0] ==
      Note(NewId(now), draft.title, draft.body, draft.tags, Some(now))
  {
    var created := Note(NewId(now), draft.title, draft.body, draft.tags, Some(now));
    var notes := [created] + s.notes;
    assert Save(s, draft, now).notes == notes;
    assert FilteredNotes(notes, AllTag, "") == SortByRecency(notes) by {
      assert IsBlank("");
      FilteredUnfiltered(notes, "");
    }
    assert forall i :: 0 <= i < |notes| ==> Recency(notes[i]) <= Recency(notes[0]) by {
      assert forall i :: 0 < i < |notes| ==> notes[i] == s.notes[i - 1];
    }
    MostRecentSortsFirst(notes);
  }

  /** Deleting the same id twice is deleting it once. */
  lemma DeleteIdempotent(s: AppState, id: string)
    ensures Delete(Delete(s, id), id) == Delete(s, id)
  {
    FilterIdempotent(s.notes, IdIsNot(id));
  }

  /** Deleting an id no note has changes no note. */
  lemma DeleteMissingId(s: AppState, id: string)
    requires forall i :: 0 <= i < |s.notes| ==> s.notes[i].id != id
    ensures Delete(s, id).notes == s.notes
  {
    FilterKeepsAll(s.notes, IdIsNot(id));
  }

  /** After a delete, nothing with that id can be shown or found. */
  lemma DeleteLeavesNothingToShow(s: AppState, id: string)
    ensures FindById(Delete(s, id).notes, id).None?
    ensures MainNote(Delete(s, id)).Some? ==> MainNote(Delete(s, id)).value.id != id
  {
    var r := Delete(s, id);
    if MainNote(r).Some? {
      var i :| FirstWithId(r.notes, r.selected.value, i) && r.notes[i] == MainNote(r).value;
    }
  }

  /** After clicking a tag other than the sentinel, every listed note
      carries it. */
  lemma TagClickListsTagged(s: AppState, tag: string)
    requires tag != AllTag
    ensures var r := TagClick(s, tag);
      forall i :: 0 <= i < |FilteredNotes(r.notes, tag, r.search)| ==>
        tag in FilteredNotes(r.notes, tag, r.search)[i].tags
  {
    var listed := FilteredNotes(s.notes, tag, s.search);
    forall i | 0 <= i < |listed|
      ensures tag in listed[i].tags
    {
      assert multiset(listed)[listed[i]] > 0;
    }
  }
}

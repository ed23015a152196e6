/** The draft rules of `NoteEditorModal`: the draft's initial fields, the
    tag controls (add from the input box, remove, add a preset), the preset
    suggestions, and the submit guard that turns a draft into the note
    handed to `handleSaveNote`. */
module Editor {
  import opened Seqs
  import opened Text
  import opened Notes

  /** The modal's state: the note being edited (`None` for a new note),
      the draft title, body and tags, and the tag input box. */
  datatype Draft = Draft(
    base: Option<Note>,
    title: string,
    body: string,
    tags: seq<string>,
    tagInput: string)

  /** The modal's initial state for `note`: its fields, or empty ones for a
      new note. */
  function Open(note: Option<Note>): (d: Draft)
    ensures d.base == note && d.tagInput == ""
    ensures note.None? ==> d.title == "" && d.body == "" && d.tags == []
    ensures note.Some? ==>
      d.title == note.value.title && d.body == note.value.body && d.tags == note.value.tags
  {
    match note
    case None => Draft(None, "", "", [], "")
    case Some(n) =>
      var tags := if |n.tags| > 0 then n.tags else [];
      Draft(note, n.title, n.body, tags, "")
  }

  /** `handleTagAdd`: appends the trimmed input when it is non-empty and not
      yet a draft tag, and only then clears the input. */
  function TagAdd(d: Draft): (r: Draft)
    ensures r.base == d.base && r.title == d.title && r.body == d.body
    ensures (Trim(d.tagInput) != "" && Trim(d.tagInput) !in d.tags) ==>
      r.tags == d.tags + [Trim(d.tagInput)] && r.tagInput == ""
    ensures !(Trim(d.tagInput) != "" && Trim(d.tagInput) !in d.tags) ==> r == d
    ensures NoDuplicates(d.tags) ==> NoDuplicates(r.tags)
  {
    var v := Trim(d.tagInput);
    if v != "" && v !in d.tags then d.(tags := d.tags + [v], tagInput := "") else d
  }

  /** An added tag is never blank and never begins or ends with whitespace. */
  lemma TagAddIsTrimmed(d: Draft)
    requires |TagAdd(d).tags| > |d.tags|
    ensures var t := TagAdd(d).tags[|d.tags|];
      t != "" && !IsWhitespace(t[0]) && !IsWhitespace(t[|t| - 1])
  {
  }

  /** `t => t !== tag`. */
  function TagIsNot(tag: string): string -> bool
  {
    (t: string) => t != tag
  }

  /** `handleTagRemove`: drops every occurrence of the tag and keeps the
      other tags in order. */
  function TagRemove(d: Draft, tag: string): (r: Draft)
    ensures r.base == d.base && r.title == d.title && r.body == d.body && r.tagInput == d.tagInput
    ensures tag !in r.tags
    ensures SelectsExactly(r.tags, d.tags, TagIsNot(tag))
    ensures NoDuplicates(d.tags) ==> NoDuplicates(r.tags)
  {
    FilterSelectsExactly(d.tags, TagIsNot(tag));
    FilterMembership(d.tags, TagIsNot(tag), tag);
    FilterNoDuplicates(d.tags, TagIsNot(tag));
    d.(tags := Filter(d.tags, TagIsNot(tag)))
  }

  /** `handleTagClickPreset`: appends the preset unless it is already a
      draft tag. */
  function TagPreset(d: Draft, preset: string): (r: Draft)
    ensures r.base == d.base && r.title == d.title && r.body == d.body && r.tagInput == d.tagInput
    ensures preset in r.tags
    ensures preset !in d.tags ==> r.tags == d.tags + [preset]
    ensures preset in d.tags ==> r.tags == d.tags
    ensures NoDuplicates(d.tags) ==> NoDuplicates(r.tags)
  {
    if preset !in d.tags then d.(tags := d.tags + [preset]) else d
  }

  /** The predicate `Boolean` applied to a string tag. */
  function NonEmpty(t: string): bool
  {
    t != ""
  }

  /** `handleSubmit`: nothing is saved unless the title or the body is
      non-empty; otherwise the saved note is the edited note (or a fresh
      one without id or timestamp) with the draft's title, body and
      non-empty tags. */
  function Submit(d: Draft): (r: Option<Note>)
    ensures r.Some? <==> d.title != "" || d.body != ""
    ensures r.Some? ==> r.value.title == d.title && r.value.body == d.body
    ensures r.Some? ==> SelectsExactly(r.value.tags, d.tags, NonEmpty) && "" !in r.value.tags
    ensures r.Some? && d.base.Some? ==>
      r.value.id == d.base.value.id && r.value.updatedAt == d.base.value.updatedAt
    ensures r.Some? && d.base.None? ==> r.value.id == "" && r.value.updatedAt.None?
  {
    if d.title != "" || d.body != "" then
      var tags := Filter(d.tags, NonEmpty);
      FilterSelectsExactly(d.tags, NonEmpty);
      FilterMembership(d.tags, NonEmpty, "");
      var base := match d.base
        case Some(n) => n
        case None => Note("", "", "", [], None);
      Some(base.(title := d.title, body := d.body, tags := tags))
    else None
  }

  /** Opening a stored note and submitting it unedited hands back the same
      note with its empty tags dropped. */
  lemma OpenSubmitRoundTrip(n: Note)
    requires n.title != "" || n.body != ""
    ensures Submit(Open(Some(n))) == Some(n.(tags := Filter(n.tags, NonEmpty)))
  {
  }

  /** A stored tag is offered as a suggestion for the current draft. */
  predicate Suggestible(chosen: seq<string>, input: string, preset: string)
  {
    && preset != AllTag
    && preset !in chosen
    && StartsWith(Lower(preset), Lower(input))
    && Lower(preset) != Lower(input)
  }

  function SuggestiblePredicate(chosen: seq<string>, input: string): string -> bool
  {
    (preset: string) => Suggestible(chosen, input, preset)
  }

  /** The preset suggestions: the first three options that are not the
      sentinel, not already chosen, and extend the input (ignoring case)
      without equalling it. */
  function Suggestions(options: seq<string>, chosen: seq<string>, input: string): (r: seq<string>)
    ensures |r| <= 3
    ensures forall i :: 0 <= i < |r| ==> Suggestible(chosen, input, r[i])
    ensures r <= Filter(options, SuggestiblePredicate(chosen, input))
    ensures var all := Filter(options, SuggestiblePredicate(chosen, input));
      |r| == if |all| < 3 then |all| else 3
    ensures |r| < 3 ==> forall o :: o in options && Suggestible(chosen, input, o) ==> o in r
  {
    var all := Filter(options, SuggestiblePredicate(chosen, input));
    FilterSelectsExactly(options, SuggestiblePredicate(chosen, input));
    forall o | o in options && Suggestible(chosen, input, o)
      ensures o in all
    {
      FilterMembership(options, SuggestiblePredicate(chosen, input), o);
    }
    if |all| <= 3 then all else all[..3]
  }

  /** Clicking a suggestion always adds it as a new draft tag. */
  lemma SuggestionAlwaysAdds(options: seq<string>, d: Draft, preset: string)
    requires preset in Suggestions(options, d.tags, d.tagInput)
    ensures TagPreset(d, preset).tags == d.tags + [preset]
  {
  }
}

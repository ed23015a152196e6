/** How the editor and the store work together: what submitting a draft
    and saving it does to the collection, and worked examples, stated as
    lemmas. */
module Session {
  import opened Seqs
  import opened Text
  import opened Notes
  import opened Views
  import opened Store
  import opened Editor

  /** Submitting a new-note draft with a title or body and saving it puts
      one new note in front of the collection, carrying the draft's text and
      its non-empty tags, and selects it. */
  lemma SubmitNewNote(s: AppState, d: Draft, now: nat)
    requires d.base.None? && (d.title != "" || d.body != "")
    ensures var r := Save(s, Submit(d).value, now);
      && r.notes == [Note(NewId(now), d.title, d.body, Filter(d.tags, NonEmpty), Some(now))] + s.notes
      && MainNote(r) == Some(r.notes[0])
  {
    var n := Submit(d).value;
    FilterUnique(n.tags, d.tags, NonEmpty);
    var r := Save(s, n, now);
    assert r.notes == [r.notes[0]] + r.notes[1..];
  }

  /** Submitting an edit of a stored note and saving it rewrites that note
      in place, keeping its id, with the draft's text and a fresh stamp;
      the collection keeps its length and order of ids. */
  lemma SubmitEdit(s: AppState, d: Draft, now: nat, k: nat)
    requires d.title != "" || d.body != ""
    requires k < |s.notes| && d.base == Some(s.notes[k]) && s.notes[k].id != ""
    ensures var r := Save(s, Submit(d).value, now);
      && |r.notes| == |s.notes|
      && r.notes[k] == Note(s.notes[k].id, d.title, d.body, Filter(d.tags, NonEmpty), Some(now))
      && MainNote(r) == Some(r.notes[k])
  {
    var n := Submit(d).value;
    FilterUnique(n.tags, d.tags, NonEmpty);
    SaveEditShowsDraft(s, n, now, k);
  }

  /** Saving an edit with a clock later than the note's stamp moves its
      stamp strictly forward. */
  lemma EditAdvancesStamp(s: AppState, draft: Note, now: nat, k: nat)
    requires draft.id != "" && k < |s.notes| && s.notes[k].id == draft.id
    requires Recency(s.notes[k]) < now
    ensures Recency(Save(s, draft, now).notes[k]) > Recency(s.notes[k])
  {
  }

  /** `"n" + Date.now()` does not make ids unique: two notes created at the
      same clock reading share an id, and deleting it removes both. */
  lemma SameClockSharesId(s: AppState, a: Note, b: Note, now: nat)
    requires a.id == "" && b.id == ""
    ensures var r := Save(Save(s, a, now), b, now);
      && r.notes[0].id == r.notes[1].id
      && |Delete(r, r.notes[0].id).notes| <= |s.notes|
  {
    var r := Save(Save(s, a, now), b, now);
    var id := NewId(now);
    assert r.notes == [r.notes[0], r.notes[1]] + s.notes;
    FilterConcat([r.notes[0], r.notes[1]], s.notes, IdIsNot(id));
    assert [r.notes[0], r.notes[1]] == [r.notes[0]] + [r.notes[1]];
    FilterConcat([r.notes[0]], [r.notes[1]], IdIsNot(id));
    FilterSingleton(r.notes[0], IdIsNot(id));
    FilterSingleton(r.notes[1], IdIsNot(id));
    FilterSelectsExactly(s.notes, IdIsNot(id));
  }

  /** Creating a note tagged "Personal" in an empty store yields exactly
      that note, and the tag list becomes ["All", "Personal"]. */
  lemma CreateInEmptyStore(s: AppState, now: nat)
    requires s.notes == []
    ensures var r := Save(s, Note("", "Groceries", "Milk, eggs", ["Personal"], None), now);
      && r.notes == [Note(NewId(now), "Groceries", "Milk, eggs", ["Personal"], Some(now))]
      && TagList(r.notes) == [AllTag, "Personal"]
  {
    var created := Note(NewId(now), "Groceries", "Milk, eggs", ["Personal"], Some(now));
    assert Save(s, Note("", "Groceries", "Milk, eggs", ["Personal"], None), now).notes == [created];
    assert AllTags([created]) == ["Personal"] by {
      assert [created][1..] == [];
    }
    DedupOfDistinct(["Personal"]);
  }

  /** Of a "Work" note and a "Personal" note, the "Work" filter lists only
      the first. */
  lemma FilterByWork(a: Note, b: Note)
    requires a.tags == ["Work"] && b.tags == ["Personal"]
    ensures FilteredNotes([a, b], "Work", "") == [a]
  {
    var byTag := TagFilter([a, b], "Work");
    assert byTag == [a] by {
      var p := TagPredicate("Work");
      assert [a, b] == [a] + [b];
      FilterConcat([a], [b], p);
      FilterSingleton(a, p);
      FilterSingleton(b, p);
    }
    assert SearchFilter(byTag, "") == [a] by {
      assert IsBlank("");
    }
    assert SortByRecency([a]) == [a];
  }

  /** "flight" is not a blank search. */
  lemma FlightIsNotBlank()
    ensures !IsBlank("flight")
  {
    assert !IsWhitespace("flight"[0]);
  }

  /** "flight" is its own lowercase form. */
  lemma FlightIsLowercase()
    ensures Lower("flight") == "flight"
  {
  }

  /** A body "Book flights" contains "flight" once lowercased. */
  lemma BookFlightsMatches(n: Note)
    requires n.body == "Book flights"
    ensures SearchMatches("flight", n)
  {
    assert Lower(n.body) == "book flights";
    assert OccursAt(Lower(n.body), "flight", 5);
  }

  /** "flight" finds a note whose body is "Book flights". */
  lemma SearchFindsBody(n: Note)
    requires n.title == "Trip Plan" && n.body == "Book flights"
    ensures FilteredNotes([n], AllTag, "flight") == [n]
  {
    FlightIsNotBlank();
    FlightIsLowercase();
    BookFlightsMatches(n);
    FilterSingleton(n, SearchPredicate("flight"));
    assert SearchFilter(TagFilter([n], AllTag), "flight") == [n];
    assert SortByRecency([n]) == [n];
  }

  /** Deleting "n1" leaves no note with that id, and a second delete
      changes nothing. */
  lemma DeleteTwice(s: AppState)
    ensures forall i :: 0 <= i < |Delete(s, "n1").notes| ==> Delete(s, "n1").notes[i].id != "n1"
    ensures Delete(Delete(s, "n1"), "n1") == Delete(s, "n1")
  {
    DeleteIdempotent(s, "n1");
  }
}

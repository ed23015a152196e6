/** The two derived views of `App`: the filtered, recency-sorted note list
    (`filteredNotes`) and the sidebar's tag list (`tags`). */
module Views {
  import opened Seqs
  import opened Text
  import opened Notes

  /** The tag filter keeps `n`: the sentinel keeps everything, any other
      tag keeps the notes whose tags include it. */
  predicate TagMatches(tag: string, n: Note)
  {
    tag == AllTag || tag in n.tags
  }

  function TagPredicate(tag: string): Note -> bool
  {
    (n: Note) => TagMatches(tag, n)
  }

  /** The first stage of `filteredNotes`. */
  function TagFilter(notes: seq<Note>, tag: string): (r: seq<Note>)
    ensures tag == AllTag ==> r == notes
    ensures SelectsExactly(r, notes, TagPredicate(tag))
  {
    if tag == AllTag then
      SubsequenceRefl(notes);
      notes
    else
      FilterSelectsExactly(notes, TagPredicate(tag));
      Filter(notes, TagPredicate(tag))
  }

  /** The search keeps `n` when its lowercased title or lowercased body
      contains `term`. */
  predicate SearchMatches(term: string, n: Note)
  {
    Contains(Lower(n.title), term) || Contains(Lower(n.body), term)
  }

  function SearchPredicate(term: string): Note -> bool
  {
    (n: Note) => SearchMatches(term, n)
  }

  /** A search string that trims to nothing does not filter. */
  predicate IsBlank(search: string)
  {
    Trim(search) == ""
  }

  /** The second stage of `filteredNotes`: a blank search keeps every note,
      any other search keeps the notes matching the lowercased, untrimmed
      search string. */
  function SearchFilter(notes: seq<Note>, search: string): (r: seq<Note>)
    ensures IsBlank(search) <==> AllWhitespace(search)
    ensures IsBlank(search) ==> r == notes
    ensures !IsBlank(search) ==> SelectsExactly(r, notes, SearchPredicate(Lower(search)))
  {
    if !IsBlank(search) then
      FilterSelectsExactly(notes, SearchPredicate(Lower(search)));
      Filter(notes, SearchPredicate(Lower(search)))
    else notes
  }

  /** Lowering a character never changes whether it is whitespace. */
  lemma LowerKeepsBlankness(search: string)
    ensures IsBlank(Lower(search)) <==> IsBlank(search)
  {
    assert forall i :: 0 <= i < |search| ==> (IsWhitespace(Lower(search)[i]) <==> IsWhitespace(search[i]));
  }

  /** The search ignores the case of the search string: searching for its
      lowercased form keeps the same notes. */
  lemma SearchCaseInsensitive(notes: seq<Note>, search: string)
    ensures SearchFilter(notes, Lower(search)) == SearchFilter(notes, search)
  {
    LowerKeepsBlankness(search);
    LowerIdempotent(search);
  }

  /** Notes are ordered by non-increasing `updatedAt || 0`. */
  predicate SortedByRecency(s: seq<Note>)
  {
    forall i, j :: 0 <= i < j < |s| ==> Recency(s[i]) >= Recency(s[j])
  }

  /** A note at least as recent as the head of a sorted list can go in
      front of it. */
  lemma SortedCons(h: Note, t: seq<Note>)
    requires SortedByRecency(t)
    requires |t| > 0 ==> Recency(t[0]) <= Recency(h)
    ensures SortedByRecency([h] + t)
  {
    var r := [h] + t;
    forall i, j | 0 <= i < j < |r|
      ensures Recency(r[i]) >= Recency(r[j])
    {
      assert r[j] == t[j - 1];
      if i == 0 && j > 1 {
        assert Recency(t[0]) >= Recency(t[j - 1]);
      }
    }
  }

  /** Places `x` in front of the first note that is not more recent than it. */
  function InsertByRecency(x: Note, t: seq<Note>): (r: seq<Note>)
    requires SortedByRecency(t)
    ensures SortedByRecency(r)
    ensures multiset(r) == multiset(t) + multiset{x}
    ensures |r| == |t| + 1 && (r[0] == x || (|t| > 0 && r[0] == t[0]))
  {
    if |t| == 0 || Recency(x) >= Recency(t[0]) then
      SortedCons(x, t);
      [x] + t
    else
      var t' := t[1..];
      assert t == [t[0]] + t';
      var rest := InsertByRecency(x, t');
      SortedCons(t[0], rest);
      [t[0]] + rest
  }

  /** `slice().sort((a, b) => (b.updatedAt || 0) - (a.updatedAt || 0))`:
      a sorted permutation of its input (which it does not alter). */
  function SortByRecency(s: seq<Note>): (r: seq<Note>)
    ensures SortedByRecency(r)
    ensures multiset(r) == multiset(s)
  {
    if |s| == 0 then []
    else
      assert s == [s[0]] + s[1..];
      InsertByRecency(s[0], SortByRecency(s[1..]))
  }

  /** Selects the notes whose sort key is `k`. */
  function AtRecency(k: int): Note -> bool
  {
    (n: Note) => Recency(n) == k
  }

  /** Inserting `x` puts it before every note with the same key. */
  lemma {:induction false} InsertStable(x: Note, t: seq<Note>, k: int)
    requires SortedByRecency(t)
    ensures Filter(InsertByRecency(x, t), AtRecency(k)) ==
      (if Recency(x) == k then [x] else []) + Filter(t, AtRecency(k))
  {
    var p := AtRecency(k);
    FilterSingleton(x, p);
    if |t| == 0 || Recency(x) >= Recency(t[0]) {
      FilterConcat([x], t, p);
    } else {
      var t' := t[1..];
      assert SortedByRecency(t');
      var rest := InsertByRecency(x, t');
      assert InsertByRecency(x, t) == [t[0]] + rest;
      InsertStable(x, t', k);
      assert Filter(rest, p) == Filter([x], p) + Filter(t', p);
      FilterSingleton(t[0], p);
      FilterConcat([t[0]], rest, p);
      assert Filter([t[0]] + rest, p) == Filter([t[0]], p) + Filter(rest, p);
      FilterConcat([t[0]], t', p);
      assert t == [t[0]] + t';
      assert Filter(t, p) == Filter([t[0]], p) + Filter(t', p);
    }
  }

  /** The sort is stable: notes with equal keys keep their relative order,
      as `Array.prototype.sort` guarantees. */
  lemma {:induction false} SortStable(s: seq<Note>, k: int)
    ensures Filter(SortByRecency(s), AtRecency(k)) == Filter(s, AtRecency(k))
  {
    if |s| > 0 {
      var p := AtRecency(k);
      SortStable(s[1..], k);
      InsertStable(s[0], SortByRecency(s[1..]), k);
      FilterSingleton(s[0], p);
      FilterConcat([s[0]], s[1..], p);
      assert s == [s[0]] + s[1..];
    }
  }

  /** A note is listed under the selected tag and search. */
  predicate Visible(n: Note, tag: string, search: string)
  {
    TagMatches(tag, n) && (IsBlank(search) || SearchMatches(Lower(search), n))
  }

  /** `filteredNotes`: the visible notes, each as often as it is stored,
      most recent first. */
  function FilteredNotes(notes: seq<Note>, tag: string, search: string): (r: seq<Note>)
    ensures SortedByRecency(r)
    ensures forall n :: multiset(r)[n] == if Visible(n, tag, search) then multiset(notes)[n] else 0
  {
    var byTag := TagFilter(notes, tag);
    var bySearch := SearchFilter(byTag, search);
    var r := SortByRecency(bySearch);
    forall n
      ensures multiset(r)[n] == if Visible(n, tag, search) then multiset(notes)[n] else 0
    {
      if n !in notes {
        assert multiset(notes)[n] == 0;
      } else if !TagMatches(tag, n) {
        assert n !in byTag;
      } else if !Visible(n, tag, search) {
        assert n !in bySearch;
      }
    }
    r
  }

  /** With the sentinel tag and a blank search, every stored note is listed:
      the view is just the sorted collection. */
  lemma FilteredUnfiltered(notes: seq<Note>, search: string)
    requires AllWhitespace(search)
    ensures FilteredNotes(notes, AllTag, search) == SortByRecency(notes)
    ensures multiset(FilteredNotes(notes, AllTag, search)) == multiset(notes)
  {
  }

  /** `tags`: the sentinel first, then every tag of every note exactly once,
      in order of first appearance. */
  function TagList(notes: seq<Note>): (r: seq<string>)
    ensures |r| >= 1 && r[0] == AllTag
    ensures forall t :: t in r[1..] <==> t in AllTags(notes)
    ensures NoDuplicates(r[1..])
    ensures forall i, j :: 1 <= i < j < |r| ==>
      FirstIndex(AllTags(notes), r[i]) < FirstIndex(AllTags(notes), r[j])
  {
    var d := Dedup(AllTags(notes));
    DedupDistinctInOrder(AllTags(notes));
    assert ([AllTag] + d)[1..] == d;
    [AllTag] + d
  }

  /** The sentinel reappears in the tail of the tag list exactly when some
      note carries a tag spelled "All". */
  lemma TagListSentinelRepeat(notes: seq<Note>)
    ensures AllTag in TagList(notes)[1..] <==> exists i :: 0 <= i < |notes| && AllTag in notes[i].tags
  {
  }

  /** Every tag listed after the sentinel selects at least one note. */
  lemma ListedTagSelectsNotes(notes: seq<Note>, t: string)
    requires t in TagList(notes)[1..]
    ensures |TagFilter(notes, t)| > 0
  {
    var i :| 0 <= i < |notes| && t in notes[i].tags;
    if t != AllTag {
      FilterMembership(notes, TagPredicate(t), notes[i]);
    }
  }
}

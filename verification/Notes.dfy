/** The note record of `notes_frontend/src/App.js` and the facts every
    derived view reads off it. */
module Notes {
  datatype Option<T> = None | Some(value: T)

  /** One note. `id == ""` stands for a missing or empty id, which the
      store treats as falsy; `updatedAt == None` is a note stored without
      a timestamp. A note stored without a `tags` array behaves like one
      with an empty array in every operation modelled here. */
  datatype Note = Note(
    id: string,
    title: string,
    body: string,
    tags: seq<string>,
    updatedAt: Option<int>)

  /** The tag sentinel that means "no tag filter". */
  const AllTag: string := "All"

  /** The sort key `note.updatedAt || 0`. */
  function Recency(n: Note): int
  {
    match n.updatedAt
    case Some(t) => t
    case None => 0
  }

  /** The tags of all notes, note after note, each note's tags in order:
      the sequence in which the tag-list memo visits them. */
  function AllTags(notes: seq<Note>): (r: seq<string>)
    ensures forall t :: t in r <==> exists i :: 0 <= i < |notes| && t in notes[i].tags
  {
    if |notes| == 0 then []
    else
      var rest := AllTags(notes[1..]);
      forall t | t in rest
        ensures exists i :: 0 <= i < |notes| && t in notes[i].tags
      {
        var j :| 0 <= j < |notes[1..]| && t in notes[1..][j].tags;
        assert notes[j + 1] == notes[1..][j];
      }
      forall t, i | 0 < i < |notes| && t in notes[i].tags
        ensures t in rest
      {
        assert notes[1..][i - 1] == notes[i];
      }
      notes[0].tags + rest
  }

  /** Index `i` holds the first note whose id is `id`. */
  ghost predicate FirstWithId(notes: seq<Note>, id: string, i: int)
  {
    0 <= i < |notes| && notes[i].id == id && forall j :: 0 <= j < i ==> notes[j].id != id
  }

  /** The first note with the given id, as `notes.find(n => n.id === id)`. */
  function FindById(notes: seq<Note>, id: string): (r: Option<Note>)
    ensures r.None? <==> forall i :: 0 <= i < |notes| ==> notes[i].id != id
    ensures r.Some? ==> exists i :: FirstWithId(notes, id, i) && notes[i] == r.value
  {
    if |notes| == 0 then None
    else if notes[0].id == id then Some(notes[0])
    else
      var r := FindById(notes[1..], id);
      assert r.Some? ==> exists i :: FirstWithId(notes, id, i) && notes[i] == r.value by {
        if r.Some? {
          var i :| FirstWithId(notes[1..], id, i) && notes[1..][i] == r.value;
          assert FirstWithId(notes, id, i + 1);
        }
      }
      r
  }
}

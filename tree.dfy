/** The read-only walks over the notebook tree: `findNotebookById` and
    `getNoteById`, the pre-order sequences they are specified by, and the
    identifiers the tree holds. */
module Tree {
  import opened Errors
  import opened Models
  import opened Seqs

  // ---------------------------------------------------------------------
  // Reference sequences

  /** Every notebook of the tree in pre-order: a node, then its children's
      subtrees left to right. */
  function Preorder(t: NotebookData): (r: seq<NotebookData>)
    ensures |r| >= 1 && r[0] == t
    decreases t
  {
    [t] + PreorderIn(t.children)
  }

  /** The pre-order sequences of a row of subtrees, concatenated. */
  function PreorderIn(ts: seq<NotebookData>): seq<NotebookData>
    decreases ts
  {
    if ts == [] then [] else Preorder(ts[0]) + PreorderIn(ts[1..])
  }

  /** Every note of the tree in the order the repository visits them: a
      notebook's own notes in insertion order, then its children's. */
  function AllNotes(t: NotebookData): seq<NoteData>
    decreases t
  {
    t.notes + AllNotesIn(t.children)
  }

  /** The notes of a row of subtrees, concatenated. */
  function AllNotesIn(ts: seq<NotebookData>): seq<NoteData>
    decreases ts
  {
    if ts == [] then [] else AllNotes(ts[0]) + AllNotesIn(ts[1..])
  }

  /** The first notebook of `s` with identity `id`, if any. */
  function FirstNotebook(s: seq<NotebookData>, id: string): (r: Option<NotebookData>)
    ensures r.Some? <==> exists i | 0 <= i < |s| :: s[i].id == id
    ensures r.Some? ==> exists i | 0 <= i < |s| :: s[i] == r.value && s[i].id == id
                                                && forall j | 0 <= j < i :: s[j].id != id
    decreases |s|
  {
    if s == [] then None
    else if s[0].id == id then Some(s[0])
    else
      var r := FirstNotebook(s[1..], id);
      assert forall i | 1 <= i < |s| :: s[i] == s[1..][i - 1];
      r
  }

  /** The first note of `s` with identity `id`, if any. */
  function FirstNote(s: seq<NoteData>, id: string): (r: Option<NoteData>)
    ensures r.Some? <==> exists i | 0 <= i < |s| :: s[i].id == id
    ensures r.Some? ==> exists i | 0 <= i < |s| :: s[i] == r.value && s[i].id == id
                                                && forall j | 0 <= j < i :: s[j].id != id
    decreases |s|
  {
    if s == [] then None
    else if s[0].id == id then Some(s[0])
    else
      var r := FirstNote(s[1..], id);
      assert forall i | 1 <= i < |s| :: s[i] == s[1..][i - 1];
      r
  }

  lemma {:induction false} FirstNotebookAppend(a: seq<NotebookData>, b: seq<NotebookData>, id: string)
    ensures FirstNotebook(a + b, id) == if FirstNotebook(a, id).Some? then FirstNotebook(a, id) else FirstNotebook(b, id)
    decreases |a|
  {
    if a == [] {
      assert a + b == b;
    } else {
      AppendCons(a, b);
      FirstNotebookAppend(a[1..], b, id);
    }
  }

  lemma {:induction false} FirstNoteAppend(a: seq<NoteData>, b: seq<NoteData>, id: string)
    ensures FirstNote(a + b, id) == if FirstNote(a, id).Some? then FirstNote(a, id) else FirstNote(b, id)
    decreases |a|
  {
    if a == [] {
      assert a + b == b;
    } else {
      AppendCons(a, b);
      FirstNoteAppend(a[1..], b, id);
    }
  }

  // ---------------------------------------------------------------------
  // findNotebookById

  /** `findNotebookById(id, t)`: the node itself when its id matches, else the
      first hit among its children searched left to right. */
  function FindNotebook(t: NotebookData, id: string): (r: Option<NotebookData>)
    ensures r.Some? ==> r.value.id == id
    ensures t.id == id ==> r == Some(t)
    decreases t
  {
    if t.id == id then Some(t) else FindIn(t.children, id)
  }

  /** The `for (const child of current.children)` loop of `findNotebookById`. */
  function FindIn(ts: seq<NotebookData>, id: string): (r: Option<NotebookData>)
    ensures r.Some? ==> r.value.id == id
    decreases ts
  {
    if ts == [] then None
    else match FindNotebook(ts[0], id)
      case Some(nb) => Some(nb)
      case None => FindIn(ts[1..], id)
  }

  /** `findNotebookById` returns the first notebook in pre-order whose id is
      the query. */
  lemma {:induction false} FindIsFirstInPreorder(t: NotebookData, id: string)
    ensures FindNotebook(t, id) == FirstNotebook(Preorder(t), id)
    decreases t
  {
    FirstNotebookAppend([t], PreorderIn(t.children), id);
    FindInIsFirstInPreorder(t.children, id);
  }

  lemma {:induction false} FindInIsFirstInPreorder(ts: seq<NotebookData>, id: string)
    ensures FindIn(ts, id) == FirstNotebook(PreorderIn(ts), id)
    decreases ts
  {
    if ts != [] {
      FindIsFirstInPreorder(ts[0], id);
      FindInIsFirstInPreorder(ts[1..], id);
      FirstNotebookAppend(Preorder(ts[0]), PreorderIn(ts[1..]), id);
    }
  }

  /** `findNotebookById` finds something iff some notebook of the tree has the
      id, and what it finds is the first such notebook in pre-order. */
  lemma FindNotebookSpec(t: NotebookData, id: string)
    ensures FindNotebook(t, id).Some? <==> exists i | 0 <= i < |Preorder(t)| :: Preorder(t)[i].id == id
    ensures FindNotebook(t, id).Some? ==>
      exists i | 0 <= i < |Preorder(t)| ::
        && Preorder(t)[i] == FindNotebook(t, id).value
        && forall j | 0 <= j < i :: Preorder(t)[j].id != id
  {
    FindIsFirstInPreorder(t, id);
  }

  // ---------------------------------------------------------------------
  // getNoteById

  /** `getNoteById(id, t)`: the node's own notes in insertion order first,
      then the first hit among its children left to right. */
  function GetNote(t: NotebookData, id: string): (r: Option<NoteData>)
    ensures r.Some? ==> r.value.id == id
    decreases t
  {
    match FirstNote(t.notes, id)
    case Some(n) => Some(n)
    case None => GetNoteIn(t.children, id)
  }

  /** The `for (const child of current.children)` loop of `getNoteById`. */
  function GetNoteIn(ts: seq<NotebookData>, id: string): (r: Option<NoteData>)
    ensures r.Some? ==> r.value.id == id
    decreases ts
  {
    if ts == [] then None
    else match GetNote(ts[0], id)
      case Some(n) => Some(n)
      case None => GetNoteIn(ts[1..], id)
  }

  /** `getNoteById` returns the first note with the id in the order of `AllNotes`. */
  lemma {:induction false} GetNoteIsFirst(t: NotebookData, id: string)
    ensures GetNote(t, id) == FirstNote(AllNotes(t), id)
    decreases t
  {
    FirstNoteAppend(t.notes, AllNotesIn(t.children), id);
    GetNoteInIsFirst(t.children, id);
  }

  lemma {:induction false} GetNoteInIsFirst(ts: seq<NotebookData>, id: string)
    ensures GetNoteIn(ts, id) == FirstNote(AllNotesIn(ts), id)
    decreases ts
  {
    if ts != [] {
      GetNoteIsFirst(ts[0], id);
      GetNoteInIsFirst(ts[1..], id);
      FirstNoteAppend(AllNotes(ts[0]), AllNotesIn(ts[1..]), id);
    }
  }

  /** `getNoteById` finds something iff some note of the tree has the id, and
      what it finds is the first such note, own notes before children's. */
  lemma GetNoteSpec(t: NotebookData, id: string)
    ensures GetNote(t, id).Some? <==> exists i | 0 <= i < |AllNotes(t)| :: AllNotes(t)[i].id == id
    ensures GetNote(t, id).Some? ==>
      exists i | 0 <= i < |AllNotes(t)| ::
        && AllNotes(t)[i] == GetNote(t, id).value
        && forall j | 0 <= j < i :: AllNotes(t)[j].id != id
  {
    GetNoteIsFirst(t, id);
  }

  // ---------------------------------------------------------------------
  // Identifiers

  /** The identifiers of a row of notes, with repetitions. */
  function NoteIds(ns: seq<NoteData>): multiset<string>
    decreases |ns|
  {
    if ns == [] then multiset{} else multiset{ns[0].id} + NoteIds(ns[1..])
  }

  /** Every notebook and note identifier of the tree, with repetitions. */
  function IdBag(t: NotebookData): multiset<string>
    decreases t
  {
    multiset{t.id} + NoteIds(t.notes) + IdBagIn(t.children)
  }

  function IdBagIn(ts: seq<NotebookData>): multiset<string>
    decreases ts
  {
    if ts == [] then multiset{} else IdBag(ts[0]) + IdBagIn(ts[1..])
  }

  /** No identifier, of a notebook or of a note, occurs twice in the tree. */
  ghost predicate UniqueIds(t: NotebookData)
  {
    forall x :: IdBag(t)[x] <= 1
  }

  lemma {:induction false} NoteIdsAppend(a: seq<NoteData>, b: seq<NoteData>)
    ensures NoteIds(a + b) == NoteIds(a) + NoteIds(b)
    decreases |a|
  {
    if a == [] {
      assert a + b == b;
    } else {
      AppendCons(a, b);
      NoteIdsAppend(a[1..], b);
    }
  }

  lemma {:induction false} IdBagInAppend(a: seq<NotebookData>, b: seq<NotebookData>)
    ensures IdBagIn(a + b) == IdBagIn(a) + IdBagIn(b)
    decreases |a|
  {
    if a == [] {
      assert a + b == b;
    } else {
      AppendCons(a, b);
      IdBagInAppend(a[1..], b);
    }
  }

  /** Every notebook and every note the walks can find contributes its id. */
  lemma {:induction false} FoundIdsInBag(t: NotebookData, id: string)
    ensures FindNotebook(t, id).Some? ==> id in IdBag(t)
    ensures GetNote(t, id).Some? ==> id in IdBag(t)
    decreases t
  {
    FoundIdsInBagIn(t.children, id);
    if FirstNote(t.notes, id).Some? {
      FirstNoteInIds(t.notes, id);
    }
  }

  lemma {:induction false} FoundIdsInBagIn(ts: seq<NotebookData>, id: string)
    ensures FindIn(ts, id).Some? ==> id in IdBagIn(ts)
    ensures GetNoteIn(ts, id).Some? ==> id in IdBagIn(ts)
    decreases ts
  {
    if ts != [] {
      FoundIdsInBag(ts[0], id);
      FoundIdsInBagIn(ts[1..], id);
    }
  }

  lemma {:induction false} FirstNoteInIds(ns: seq<NoteData>, id: string)
    requires FirstNote(ns, id).Some?
    ensures id in NoteIds(ns)
    decreases |ns|
  {
    if ns[0].id != id {
      FirstNoteInIds(ns[1..], id);
    }
  }
}

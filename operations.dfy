/** The repository's three mutations with their validation, as functions from
    the current tree to either the new tree and what was created, or the
    typed error. The fresh identifier and the clock reading are parameters. */
module Operations {
  import opened Text
  import opened Errors
  import opened Models
  import opened Tree
  import opened Edits

  /** A successful mutation: the new root and the entity it made. */
  datatype Change<T> = Change(root: NotebookData, made: T)

  /** `createNotebook(parentId, name)` with `newId` as the generated id: a blank
      name is rejected before the parent is looked up; the new notebook,
      named `name.trim()`, becomes the parent's last child. */
  function CreateNotebook(root: NotebookData, parentId: string, name: string, newId: string): (r: Result<Change<NotebookData>>)
    ensures IsBlank(name) ==> r == Err(InvalidInput)
    ensures !IsBlank(name) && FindNotebook(root, parentId).None? ==> r == Err(NotebookNotFound)
    ensures r.Ok? <==> !IsBlank(name) && FindNotebook(root, parentId).Some?
  {
    if IsBlank(name) then Err(InvalidInput)
    else if FindNotebook(root, parentId).None? then Err(NotebookNotFound)
    else
      var nb := NewNotebook(newId, Trim(name));
      Ok(Change(EditAt(root, parentId, AppendChild(nb)), nb))
  }

  /** `createNote(notebookId, title, content)` with `newId` as the generated id
      and `now` as the clock: a blank title is rejected before the notebook is
      looked up; the note, titled `title.trim()` with `content` untouched,
      becomes the notebook's last note. */
  function CreateNote(root: NotebookData, notebookId: string, title: string, content: string, newId: string, now: nat)
    : (r: Result<Change<NoteData>>)
    ensures IsBlank(title) ==> r == Err(InvalidInput)
    ensures !IsBlank(title) && FindNotebook(root, notebookId).None? ==> r == Err(NotebookNotFound)
    ensures r.Ok? <==> !IsBlank(title) && FindNotebook(root, notebookId).Some?
  {
    if IsBlank(title) then Err(InvalidInput)
    else if FindNotebook(root, notebookId).None? then Err(NotebookNotFound)
    else
      var n := NewNote(newId, Trim(title), content, now);
      Ok(Change(EditAt(root, notebookId, AppendNote(n)), n))
  }

  /** `updateNote(noteId, newContent)` at time `now`: an unknown id is
      rejected; otherwise the note `getNoteById` finds gets the new content. */
  function UpdateNote(root: NotebookData, noteId: string, newContent: string, now: nat): (r: Result<NotebookData>)
    ensures r.Err? <==> GetNote(root, noteId).None?
    ensures r.Err? ==> r.error == NoteNotFound
  {
    if GetNote(root, noteId).None? then Err(NoteNotFound)
    else Ok(UpdateNoteAt(root, noteId, newContent, now))
  }

  // ---------------------------------------------------------------------
  // What a successful mutation changes

  /** A successful `createNotebook` makes one change: the parent found by
      `findNotebookById` gains the new notebook, with the given id, the
      trimmed name and nothing in it, as its last child; the rest of the tree
      is as it was, and the tree's identifiers grow by exactly `newId`. */
  lemma CreateNotebookEffect(root: NotebookData, parentId: string, name: string, newId: string)
    returns (path: seq<Frame>)
    requires CreateNotebook(root, parentId, name, newId).Ok?
    ensures var c := CreateNotebook(root, parentId, name, newId).value;
            var parent := FindNotebook(root, parentId).value;
            && c.made == NotebookData(newId, Trim(name), [], [])
            && root == Plug(path, parent)
            && c.root == Plug(path, parent.(children := parent.children + [c.made]))
            && FindNotebook(c.root, parentId) == Some(parent.(children := parent.children + [c.made]))
            && IdBag(c.root) == IdBag(root) + multiset{newId}
  {
    var made := NewNotebook(newId, Trim(name));
    path := EditAtPath(root, parentId, AppendChild(made));
    FindAfterEdit(root, parentId, AppendChild(made));
    EditAtIds(root, parentId, AppendChild(made));
    assert NoteIds([]) == multiset{} && IdBagIn([]) == multiset{};
  }

  /** A successful `createNote` makes one change: the notebook found by
      `findNotebookById` gains the new note as its last note; the rest of the
      tree is as it was, and the identifiers grow by exactly `newId`. */
  lemma CreateNoteEffect(root: NotebookData, notebookId: string, title: string, content: string, newId: string, now: nat)
    returns (path: seq<Frame>)
    requires CreateNote(root, notebookId, title, content, newId, now).Ok?
    ensures var c := CreateNote(root, notebookId, title, content, newId, now).value;
            var nb := FindNotebook(root, notebookId).value;
            && c.made == NoteData(newId, Trim(title), content, now, now)
            && root == Plug(path, nb)
            && c.root == Plug(path, nb.(notes := nb.notes + [c.made]))
            && FindNotebook(c.root, notebookId) == Some(nb.(notes := nb.notes + [c.made]))
            && IdBag(c.root) == IdBag(root) + multiset{newId}
  {
    var made := NewNote(newId, Trim(title), content, now);
    path := EditAtPath(root, notebookId, AppendNote(made));
    FindAfterEdit(root, notebookId, AppendNote(made));
    EditAtIds(root, notebookId, AppendNote(made));
  }

  /** A successful `updateNote` changes one note of one notebook and nothing
      else: that note, the first with the id in the order `getNoteById`
      searches, keeps its id, title and creation time and gets the new content
      and update time; afterwards `getNoteById` returns it. */
  lemma UpdateNoteEffect(root: NotebookData, noteId: string, newContent: string, now: nat)
    returns (path: seq<Frame>, nb: NotebookData, i: nat)
    requires UpdateNote(root, noteId, newContent, now).Ok?
    ensures var old_ := GetNote(root, noteId).value;
            var new_ := NoteData(old_.id, old_.title, newContent, old_.createdAt, now);
            && i < |nb.notes| && nb.notes[i] == old_
            && root == Plug(path, nb)
            && UpdateNote(root, noteId, newContent, now).value == Plug(path, nb.(notes := nb.notes[i := new_]))
            && GetNote(UpdateNote(root, noteId, newContent, now).value, noteId) == Some(new_)
            && AllNotes(UpdateNote(root, noteId, newContent, now).value) == UpdateFirstNote(AllNotes(root), noteId, newContent, now)
            && IdBag(UpdateNote(root, noteId, newContent, now).value) == IdBag(root)
  {
    path, nb, i := UpdateNotePath(root, noteId, newContent, now);
    GetNoteAfterUpdate(root, noteId, newContent, now);
    UpdateNoteAllNotes(root, noteId, newContent, now);
    UpdateNoteIds(root, noteId, newContent, now);
  }

  // ---------------------------------------------------------------------
  // Identifier uniqueness

  /** With a fresh id, `createNotebook` keeps every identifier unique. */
  lemma CreateNotebookKeepsIdsUnique(root: NotebookData, parentId: string, name: string, newId: string)
    requires UniqueIds(root) && newId !in IdBag(root)
    requires CreateNotebook(root, parentId, name, newId).Ok?
    ensures UniqueIds(CreateNotebook(root, parentId, name, newId).value.root)
  {
    var _ := CreateNotebookEffect(root, parentId, name, newId);
  }

  /** With a fresh id, `createNote` keeps every identifier unique. */
  lemma CreateNoteKeepsIdsUnique(root: NotebookData, notebookId: string, title: string, content: string, newId: string, now: nat)
    requires UniqueIds(root) && newId !in IdBag(root)
    requires CreateNote(root, notebookId, title, content, newId, now).Ok?
    ensures UniqueIds(CreateNote(root, notebookId, title, content, newId, now).value.root)
  {
    var _ := CreateNoteEffect(root, notebookId, title, content, newId, now);
  }

  /** `updateNote` keeps every identifier unique. */
  lemma UpdateNoteKeepsIdsUnique(root: NotebookData, noteId: string, newContent: string, now: nat)
    requires UniqueIds(root)
    requires UpdateNote(root, noteId, newContent, now).Ok?
    ensures UniqueIds(UpdateNote(root, noteId, newContent, now).value)
  {
    UpdateNoteIds(root, noteId, newContent, now);
  }
}

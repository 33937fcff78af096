/** The repository object: it owns the root notebook and changes the tree
    reachable from it. Persisting the tree after each change (`save`) is file
    I/O and is not part of this model. */
module Repository {
  import opened Text
  import opened Errors
  import opened Models
  import opened Tree
  import opened Edits
  import Operations
  import Search

  class NotesRepository {
    var rootNotebook: NotebookData

    constructor(rootNotebook: NotebookData)
      ensures this.rootNotebook == rootNotebook
    {
      this.rootNotebook := rootNotebook;
    }

    /** `createNotebook(parentId, name)` with `newId` as the generated id. On
        an error the tree is left as it was; with a fresh id the identifiers
        stay unique. */
    method CreateNotebook(parentId: string, name: string, newId: string) returns (r: Result<NotebookData>)
      modifies this
      ensures match Operations.CreateNotebook(old(rootNotebook), parentId, name, newId)
        case Err(e) => r == Err(e) && rootNotebook == old(rootNotebook)
        case Ok(c) => r == Ok(c.made) && rootNotebook == c.root
      ensures UniqueIds(old(rootNotebook)) && newId !in IdBag(old(rootNotebook)) ==> UniqueIds(rootNotebook)
    {
      match Operations.CreateNotebook(rootNotebook, parentId, name, newId)
      case Err(e) =>
        r := Err(e);
      case Ok(c) =>
        if UniqueIds(rootNotebook) && newId !in IdBag(rootNotebook) {
          Operations.CreateNotebookKeepsIdsUnique(rootNotebook, parentId, name, newId);
        }
        rootNotebook := c.root;
        r := Ok(c.made);
    }

    /** `createNote(notebookId, title, content)` with `newId` as the generated
        id and `now` as the clock. On an error the tree is left as it was;
        with a fresh id the identifiers stay unique. */
    method CreateNote(notebookId: string, title: string, content: string, newId: string, now: nat)
      returns (r: Result<NoteData>)
      modifies this
      ensures match Operations.CreateNote(old(rootNotebook), notebookId, title, content, newId, now)
        case Err(e) => r == Err(e) && rootNotebook == old(rootNotebook)
        case Ok(c) => r == Ok(c.made) && rootNotebook == c.root
      ensures UniqueIds(old(rootNotebook)) && newId !in IdBag(old(rootNotebook)) ==> UniqueIds(rootNotebook)
    {
      match Operations.CreateNote(rootNotebook, notebookId, title, content, newId, now)
      case Err(e) =>
        r := Err(e);
      case Ok(c) =>
        if UniqueIds(rootNotebook) && newId !in IdBag(rootNotebook) {
          Operations.CreateNoteKeepsIdsUnique(rootNotebook, notebookId, title, content, newId, now);
        }
        rootNotebook := c.root;
        r := Ok(c.made);
    }

    /** `updateNote(noteId, newContent)` at time `now`. On `NoteNotFound` the
        tree is left as it was; identifiers are never changed. */
    method UpdateNote(noteId: string, newContent: string, now: nat) returns (r: Result<()>)
      modifies this
      ensures match Operations.UpdateNote(old(rootNotebook), noteId, newContent, now)
        case Err(e) => r == Err(e) && rootNotebook == old(rootNotebook)
        case Ok(t) => r == Ok(()) && rootNotebook == t
      ensures IdBag(rootNotebook) == IdBag(old(rootNotebook))
    {
      match Operations.UpdateNote(rootNotebook, noteId, newContent, now)
      case Err(e) =>
        r := Err(e);
      case Ok(t) =>
        UpdateNoteIds(rootNotebook, noteId, newContent, now);
        rootNotebook := t;
        r := Ok(());
    }

    /** `searchNotes(keyword)`: the notes of the whole tree, in pre-order, whose
        lower-cased title or content includes the lower-cased keyword. The
        tree is only read. */
    method SearchNotes(keyword: string) returns (found: seq<NoteData>)
      ensures found == Search.Filter(AllNotes(rootNotebook), ToLower(keyword))
    {
      found := Search.SearchFrom(keyword, rootNotebook, []);
    }
  }
}

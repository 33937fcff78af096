/** The entity model: a note and a notebook, both as objects with in-place
    mutators (the classes) and as the values the repository's tree is made
    of (the datatypes). A clock reading is a natural number `now`. */
module Models {

  /** The state of a note: identity, title, content and its two time stamps. */
  datatype NoteData = NoteData(id: string, title: string, content: string, createdAt: nat, updatedAt: nat)
  {
    /** The note after `updateContent(c)` at time `now`. */
    function WithContent(c: string, now: nat): (r: NoteData)
      ensures r.content == c && r.updatedAt == now
      ensures r.id == id && r.title == title && r.createdAt == createdAt
    {
      this.(content := c, updatedAt := now)
    }

    /** The note after `updateTitle(t)` at time `now`. */
    function WithTitle(t: string, now: nat): (r: NoteData)
      ensures r.title == t && r.updatedAt == now
      ensures r.id == id && r.content == content && r.createdAt == createdAt
    {
      this.(title := t, updatedAt := now)
    }
  }

  /** A note built by `new Note(id, title, content)` at time `now`: its fields
      verbatim, both time stamps from that one clock reading. */
  function NewNote(id: string, title: string, content: string, now: nat): (r: NoteData)
    ensures r.id == id && r.title == title && r.content == content
    ensures r.createdAt == now && r.updatedAt == now
  {
    NoteData(id, title, content, now, now)
  }

  /** One call of a note's mutators. */
  datatype NoteUpdate = UpdateContent(content: string, at: nat) | UpdateTitle(title: string, at: nat)

  /** The note after one mutator call. */
  function ApplyUpdate(n: NoteData, u: NoteUpdate): NoteData
  {
    match u
    case UpdateContent(c, now) => n.WithContent(c, now)
    case UpdateTitle(t, now) => n.WithTitle(t, now)
  }

  /** The note after a history of mutator calls, oldest first. */
  function ApplyUpdates(n: NoteData, us: seq<NoteUpdate>): NoteData
    decreases |us|
  {
    if us == [] then n else ApplyUpdates(ApplyUpdate(n, us[0]), us[1..])
  }

  /** No history of updates changes a note's identity or its creation time,
      and after a non-empty history the update time is that of the last call. */
  lemma {:induction false} UpdatesKeepIdentity(n: NoteData, us: seq<NoteUpdate>)
    ensures ApplyUpdates(n, us).id == n.id
    ensures ApplyUpdates(n, us).createdAt == n.createdAt
    ensures us != [] ==> ApplyUpdates(n, us).updatedAt == us[|us| - 1].at
    ensures us == [] ==> ApplyUpdates(n, us) == n
    decreases |us|
  {
    if us != [] {
      UpdatesKeepIdentity(ApplyUpdate(n, us[0]), us[1..]);
      if |us| > 1 {
        assert us[1..][|us[1..]| - 1] == us[|us| - 1];
      }
    }
  }

  /** The content of a note is the one set by its last `updateContent`; with
      none, it is the content it was created with. */
  function LastContent(initial: string, us: seq<NoteUpdate>): string
    decreases |us|
  {
    if us == [] then initial
    else if us[|us| - 1].UpdateContent? then us[|us| - 1].content
    else LastContent(initial, us[..|us| - 1])
  }

  /** Updating a title never touches the content, and vice versa. */
  lemma {:induction false} ContentIsLastContentUpdate(n: NoteData, us: seq<NoteUpdate>)
    ensures ApplyUpdates(n, us).content == LastContent(n.content, us)
    decreases |us|
  {
    if us != [] {
      var init, last := us[..|us| - 1], us[|us| - 1];
      assert us == init + [last];
      UpdatesSplit(n, init, last);
      ContentIsLastContentUpdate(n, init);
    }
  }

  /** Applying one more update after a history. */
  lemma {:induction false} UpdatesSplit(n: NoteData, us: seq<NoteUpdate>, u: NoteUpdate)
    ensures ApplyUpdates(n, us + [u]) == ApplyUpdate(ApplyUpdates(n, us), u)
    decreases |us|
  {
    if us == [] {
      assert [u][1..] == [];
    } else {
      assert (us + [u])[1..] == us[1..] + [u];
      UpdatesSplit(ApplyUpdate(n, us[0]), us[1..], u);
    }
  }

  /** The state of a notebook: identity, name, its own notes and its child
      notebooks, both in insertion order. */
  datatype NotebookData = NotebookData(id: string, name: string, notes: seq<NoteData>, children: seq<NotebookData>)
  {
    /** The notebook after `addNote(n)`. */
    function WithNote(n: NoteData): (r: NotebookData)
      ensures r.notes == notes + [n] && r.children == children
      ensures r.id == id && r.name == name
    {
      this.(notes := notes + [n])
    }

    /** The notebook after `addChildNotebook(nb)`. */
    function WithChild(nb: NotebookData): (r: NotebookData)
      ensures r.children == children + [nb] && r.notes == notes
      ensures r.id == id && r.name == name
    {
      this.(children := children + [nb])
    }
  }

  /** A notebook built by `new Notebook(id, name)`: both fields verbatim, no
      notes and no children. */
  function NewNotebook(id: string, name: string): (r: NotebookData)
    ensures r.id == id && r.name == name && r.notes == [] && r.children == []
  {
    NotebookData(id, name, [], [])
  }

  /** A note object. */
  class Note {
    var id: string
    var title: string
    var content: string
    var createdAt: nat
    var updatedAt: nat

    /** The object's current state as a value. */
    function Data(): NoteData
      reads this
    {
      NoteData(id, title, content, createdAt, updatedAt)
    }

    constructor(id: string, title: string, content: string, now: nat)
      ensures Data() == NewNote(id, title, content, now)
    {
      this.id := id;
      this.title := title;
      this.content := content;
      this.createdAt := now;
      this.updatedAt := now;
    }

    /** Replaces the content, empty or not, and stamps the update time. */
    method UpdateContent(newContent: string, now: nat)
      modifies this
      ensures Data() == old(Data()).WithContent(newContent, now)
      ensures content == newContent && updatedAt == now
      ensures id == old(id) && title == old(title) && createdAt == old(createdAt)
    {
      content := newContent;
      updatedAt := now;
    }

    /** Replaces the title and stamps the update time. */
    method UpdateTitle(newTitle: string, now: nat)
      modifies this
      ensures Data() == old(Data()).WithTitle(newTitle, now)
      ensures title == newTitle && updatedAt == now
      ensures id == old(id) && content == old(content) && createdAt == old(createdAt)
    {
      title := newTitle;
      updatedAt := now;
    }
  }

  /** A notebook object owning arrays of note objects and child notebooks. */
  class Notebook {
    var id: string
    var name: string
    var notes: seq<Note>
    var children: seq<Notebook>

    constructor(id: string, name: string)
      ensures this.id == id && this.name == name
      ensures notes == [] && children == []
    {
      this.id := id;
      this.name := name;
      notes := [];
      children := [];
    }

    /** Appends a note; a note whose id is already present is accepted too. */
    method AddNote(note: Note)
      modifies this
      ensures notes == old(notes) + [note]
      ensures children == old(children) && id == old(id) && name == old(name)
    {
      notes := notes + [note];
    }

    /** Appends a child notebook; no check for a duplicate id. */
    method AddChildNotebook(notebook: Notebook)
      modifies this
      ensures children == old(children) + [notebook]
      ensures notes == old(notes) && id == old(id) && name == old(name)
    {
      children := children + [notebook];
    }
  }
}

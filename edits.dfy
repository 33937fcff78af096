/** The in-place mutations of the tree, as functions from the old tree to the
    new one: `parent.addChildNotebook(nb)` / `notebook.addNote(n)` on the node
    `findNotebookById` returns, and `note.updateContent(c)` on the note
    `getNoteById` returns. Each changes exactly that node and nothing else. */
module Edits {
  import opened Errors
  import opened Models
  import opened Tree
  import opened Seqs

  /** The two appends a notebook object supports. */
  datatype Edit = AppendChild(child: NotebookData) | AppendNote(note: NoteData)

  /** The notebook after one append. */
  function Apply(e: Edit, nb: NotebookData): (r: NotebookData)
    ensures r.id == nb.id && r.name == nb.name
  {
    match e
    case AppendChild(c) => nb.WithChild(c)
    case AppendNote(n) => nb.WithNote(n)
  }

  /** The identifiers an append adds to the tree. */
  function EditIds(e: Edit): multiset<string>
  {
    match e
    case AppendChild(c) => IdBag(c)
    case AppendNote(n) => multiset{n.id}
  }

  /** The tree after applying `e` to the first notebook in pre-order whose id
      is `id` (the one `FindNotebook` returns); no such notebook, no change. */
  function EditAt(t: NotebookData, id: string, e: Edit): (r: NotebookData)
    ensures r.id == t.id
    decreases t
  {
    if t.id == id then Apply(e, t) else t.(children := EditIn(t.children, id, e))
  }

  function EditIn(ts: seq<NotebookData>, id: string, e: Edit): (r: seq<NotebookData>)
    ensures |r| == |ts|
    decreases ts
  {
    if ts == [] then []
    else if FindNotebook(ts[0], id).Some? then [EditAt(ts[0], id, e)] + ts[1..]
    else [ts[0]] + EditIn(ts[1..], id, e)
  }

  // ---------------------------------------------------------------------
  // Paths into the tree

  /** One step down from a notebook into one of its children: the notebook's
      own fields and the siblings left and right of the chosen child. */
  datatype Frame = Frame(id: string, name: string, notes: seq<NoteData>, left: seq<NotebookData>, right: seq<NotebookData>)

  /** The tree that has `t` at the end of `path`, everything else as the
      frames say. Two trees `Plug(path, x)` and `Plug(path, y)` differ only
      in the one node `x` versus `y`. */
  function Plug(path: seq<Frame>, t: NotebookData): NotebookData
    decreases |path|
  {
    if path == [] then t
    else
      var f := path[0];
      NotebookData(f.id, f.name, f.notes, f.left + [Plug(path[1..], t)] + f.right)
  }

  /** `EditAt` changes exactly one node, the one `FindNotebook` locates: the
      old and new trees are that node and its edited form, plugged into the
      same path. */
  lemma {:induction false} EditAtPath(t: NotebookData, id: string, e: Edit) returns (path: seq<Frame>)
    requires FindNotebook(t, id).Some?
    ensures t == Plug(path, FindNotebook(t, id).value)
    ensures EditAt(t, id, e) == Plug(path, Apply(e, FindNotebook(t, id).value))
    decreases t
  {
    if t.id == id {
      path := [];
    } else {
      var cs := t.children;
      var k, sub := EditInPath(cs, id, e);
      path := [Frame(t.id, t.name, t.notes, cs[..k], cs[k + 1..])] + sub;
      assert path[1..] == sub;
      SpliceAt(cs, k);
    }
  }

  lemma {:induction false} EditInPath(ts: seq<NotebookData>, id: string, e: Edit) returns (k: nat, path: seq<Frame>)
    requires FindIn(ts, id).Some?
    ensures k < |ts| && ts[k] == Plug(path, FindIn(ts, id).value)
    ensures EditIn(ts, id, e) == ts[..k] + [Plug(path, Apply(e, FindIn(ts, id).value))] + ts[k + 1..]
    decreases ts
  {
    if FindNotebook(ts[0], id).Some? {
      k := 0;
      path := EditAtPath(ts[0], id, e);
    } else {
      var k', p' := EditInPath(ts[1..], id, e);
      k, path := k' + 1, p';
      assert ts[1..][..k'] == ts[1..k' + 1];
      assert ts[..k' + 1] == [ts[0]] + ts[1..k' + 1];
    }
  }

  /** After the edit, `FindNotebook` returns the edited node. */
  lemma {:induction false} FindAfterEdit(t: NotebookData, id: string, e: Edit)
    requires FindNotebook(t, id).Some?
    ensures FindNotebook(EditAt(t, id, e), id) == Some(Apply(e, FindNotebook(t, id).value))
    decreases t
  {
    if t.id != id {
      FindInAfterEdit(t.children, id, e);
    }
  }

  lemma {:induction false} FindInAfterEdit(ts: seq<NotebookData>, id: string, e: Edit)
    requires FindIn(ts, id).Some?
    ensures FindIn(EditIn(ts, id, e), id) == Some(Apply(e, FindIn(ts, id).value))
    decreases ts
  {
    var r := EditIn(ts, id, e);
    if FindNotebook(ts[0], id).Some? {
      FindAfterEdit(ts[0], id, e);
      assert r[0] == EditAt(ts[0], id, e);
    } else {
      FindInAfterEdit(ts[1..], id, e);
      assert r[0] == ts[0] && r[1..] == EditIn(ts[1..], id, e);
    }
  }

  /** An edit adds exactly the identifiers of what it appends. */
  lemma {:induction false} EditAtIds(t: NotebookData, id: string, e: Edit)
    requires FindNotebook(t, id).Some?
    ensures IdBag(EditAt(t, id, e)) == IdBag(t) + EditIds(e)
    decreases t
  {
    if t.id == id {
      ApplyIds(e, t);
    } else {
      EditInIds(t.children, id, e);
    }
  }

  /** One append adds exactly the identifiers of what it appends. */
  lemma ApplyIds(e: Edit, nb: NotebookData)
    ensures IdBag(Apply(e, nb)) == IdBag(nb) + EditIds(e)
  {
    match e
    case AppendChild(c) =>
      IdBagInSnoc(nb.children, c);
    case AppendNote(n) =>
      NoteIdsSnoc(nb.notes, n);
  }

  lemma IdBagInSnoc(ts: seq<NotebookData>, c: NotebookData)
    ensures IdBagIn(ts + [c]) == IdBagIn(ts) + IdBag(c)
  {
    IdBagInAppend(ts, [c]);
    assert [c][1..] == [];
  }

  lemma NoteIdsSnoc(ns: seq<NoteData>, n: NoteData)
    ensures NoteIds(ns + [n]) == NoteIds(ns) + multiset{n.id}
  {
    NoteIdsAppend(ns, [n]);
    assert [n][1..] == [];
  }

  lemma {:induction false} EditInIds(ts: seq<NotebookData>, id: string, e: Edit)
    requires FindIn(ts, id).Some?
    ensures IdBagIn(EditIn(ts, id, e)) == IdBagIn(ts) + EditIds(e)
    decreases ts
  {
    var r := EditIn(ts, id, e);
    if FindNotebook(ts[0], id).Some? {
      EditAtIds(ts[0], id, e);
      assert r[0] == EditAt(ts[0], id, e) && r[1..] == ts[1..];
    } else {
      EditInIds(ts[1..], id, e);
      assert r[0] == ts[0] && r[1..] == EditIn(ts[1..], id, e);
    }
  }

  // ---------------------------------------------------------------------
  // Updating one note's content

  /** The row of notes with the first note whose id is `id` updated by
      `updateContent(c)` at time `now`; without one, the row unchanged. */
  function UpdateFirstNote(ns: seq<NoteData>, id: string, c: string, now: nat): (r: seq<NoteData>)
    ensures |r| == |ns|
    ensures FirstNote(ns, id).None? ==> r == ns
    decreases |ns|
  {
    if ns == [] then []
    else if ns[0].id == id then [ns[0].WithContent(c, now)] + ns[1..]
    else [ns[0]] + UpdateFirstNote(ns[1..], id, c, now)
  }

  /** When the first note with the id sits at `k`, exactly that note is
      updated. */
  lemma {:induction false} UpdateFirstNoteAt(ns: seq<NoteData>, id: string, c: string, now: nat, k: nat)
    requires k < |ns| && ns[k].id == id && forall j | 0 <= j < k :: ns[j].id != id
    ensures UpdateFirstNote(ns, id, c, now) == ns[k := ns[k].WithContent(c, now)]
    decreases k
  {
    if k > 0 {
      UpdateFirstNoteAt(ns[1..], id, c, now, k - 1);
      assert ns[1..][k - 1 := ns[k].WithContent(c, now)] == ns[k := ns[k].WithContent(c, now)][1..];
    }
  }

  /** The tree after `updateContent(c)` at `now` on the note `GetNote` finds. */
  function UpdateNoteAt(t: NotebookData, id: string, c: string, now: nat): (r: NotebookData)
    ensures r.id == t.id && r.name == t.name
    ensures |r.notes| == |t.notes| && |r.children| == |t.children|
    ensures GetNote(t, id).None? ==> r == t
    decreases t
  {
    if FirstNote(t.notes, id).Some? then t.(notes := UpdateFirstNote(t.notes, id, c, now))
    else t.(children := UpdateNoteIn(t.children, id, c, now))
  }

  function UpdateNoteIn(ts: seq<NotebookData>, id: string, c: string, now: nat): (r: seq<NotebookData>)
    ensures |r| == |ts|
    ensures GetNoteIn(ts, id).None? ==> r == ts
    decreases ts
  {
    if ts == [] then []
    else if GetNote(ts[0], id).Some? then [UpdateNoteAt(ts[0], id, c, now)] + ts[1..]
    else [ts[0]] + UpdateNoteIn(ts[1..], id, c, now)
  }

  lemma UpdateFirstNoteAppend(a: seq<NoteData>, b: seq<NoteData>, id: string, c: string, now: nat)
    ensures UpdateFirstNote(a + b, id, c, now) ==
      if FirstNote(a, id).Some? then UpdateFirstNote(a, id, c, now) + b else a + UpdateFirstNote(b, id, c, now)
  {
    if FirstNote(a, id).Some? {
      UpdateFirstNoteHit(a, b, id, c, now);
    } else {
      UpdateFirstNoteMiss(a, b, id, c, now);
    }
  }

  /** When `a` holds the id, updating `a + b` updates inside `a`. */
  lemma {:induction false} UpdateFirstNoteHit(a: seq<NoteData>, b: seq<NoteData>, id: string, c: string, now: nat)
    requires FirstNote(a, id).Some?
    ensures UpdateFirstNote(a + b, id, c, now) == UpdateFirstNote(a, id, c, now) + b
    decreases |a|
  {
    var x, rest := a[0], a[1..];
    AppendCons(a, b);
    if x.id == id {
      assert UpdateFirstNote(a + b, id, c, now) == [x.WithContent(c, now)] + (rest + b);
      AppendAssoc([x.WithContent(c, now)], rest, b);
    } else {
      UpdateFirstNoteHit(rest, b, id, c, now);
      assert UpdateFirstNote(a + b, id, c, now) == [x] + (UpdateFirstNote(rest, id, c, now) + b);
      AppendAssoc([x], UpdateFirstNote(rest, id, c, now), b);
    }
  }

  /** When `a` does not hold the id, updating `a + b` updates inside `b`. */
  lemma {:induction false} UpdateFirstNoteMiss(a: seq<NoteData>, b: seq<NoteData>, id: string, c: string, now: nat)
    requires FirstNote(a, id).None?
    ensures UpdateFirstNote(a + b, id, c, now) == a + UpdateFirstNote(b, id, c, now)
    decreases |a|
  {
    if a == [] {
      assert a + b == b;
    } else {
      var x, rest := a[0], a[1..];
      AppendCons(a, b);
      UpdateFirstNoteMiss(rest, b, id, c, now);
      assert UpdateFirstNote(a + b, id, c, now) == [x] + (rest + UpdateFirstNote(b, id, c, now));
      ConsAppend(a, UpdateFirstNote(b, id, c, now));
    }
  }

  /** Seen as the pre-order sequence of notes, `updateNote` changes the first
      note with the id and nothing else. */
  lemma {:induction false} UpdateNoteAllNotes(t: NotebookData, id: string, c: string, now: nat)
    ensures AllNotes(UpdateNoteAt(t, id, c, now)) == UpdateFirstNote(AllNotes(t), id, c, now)
    decreases t
  {
    UpdateFirstNoteAppend(t.notes, AllNotesIn(t.children), id, c, now);
    if FirstNote(t.notes, id).None? {
      UpdateNoteInAllNotes(t.children, id, c, now);
    }
  }

  lemma {:induction false} UpdateNoteInAllNotes(ts: seq<NotebookData>, id: string, c: string, now: nat)
    ensures AllNotesIn(UpdateNoteIn(ts, id, c, now)) == UpdateFirstNote(AllNotesIn(ts), id, c, now)
    decreases ts
  {
    if ts != [] {
      var r := UpdateNoteIn(ts, id, c, now);
      GetNoteIsFirst(ts[0], id);
      UpdateFirstNoteAppend(AllNotes(ts[0]), AllNotesIn(ts[1..]), id, c, now);
      if GetNote(ts[0], id).Some? {
        UpdateNoteAllNotes(ts[0], id, c, now);
        assert r[0] == UpdateNoteAt(ts[0], id, c, now) && r[1..] == ts[1..];
      } else {
        UpdateNoteInAllNotes(ts[1..], id, c, now);
        assert r[0] == ts[0] && r[1..] == UpdateNoteIn(ts[1..], id, c, now);
      }
    }
  }

  /** `updateNote` changes exactly one note of one notebook: the old and new
      trees are that notebook and its form with note `i` updated, plugged into
      the same path, and note `i` is the first note with the id there. */
  lemma {:induction false} UpdateNotePath(t: NotebookData, id: string, c: string, now: nat)
    returns (path: seq<Frame>, nb: NotebookData, i: nat)
    requires GetNote(t, id).Some?
    ensures i < |nb.notes| && nb.notes[i] == GetNote(t, id).value
    ensures forall j | 0 <= j < i :: nb.notes[j].id != id
    ensures t == Plug(path, nb)
    ensures UpdateNoteAt(t, id, c, now) == Plug(path, nb.(notes := nb.notes[i := nb.notes[i].WithContent(c, now)]))
    decreases t
  {
    if FirstNote(t.notes, id).Some? {
      path, nb := [], t;
      i :| 0 <= i < |t.notes| && t.notes[i] == GetNote(t, id).value && t.notes[i].id == id
                                && forall j | 0 <= j < i :: t.notes[j].id != id;
      UpdateFirstNoteAt(t.notes, id, c, now, i);
    } else {
      var cs := t.children;
      var k, sub;
      k, sub, nb, i := UpdateNoteInPath(cs, id, c, now);
      path := [Frame(t.id, t.name, t.notes, cs[..k], cs[k + 1..])] + sub;
      assert path[1..] == sub;
      SpliceAt(cs, k);
    }
  }

  lemma {:induction false} UpdateNoteInPath(ts: seq<NotebookData>, id: string, c: string, now: nat)
    returns (k: nat, path: seq<Frame>, nb: NotebookData, i: nat)
    requires GetNoteIn(ts, id).Some?
    ensures i < |nb.notes| && nb.notes[i] == GetNoteIn(ts, id).value
    ensures forall j | 0 <= j < i :: nb.notes[j].id != id
    ensures k < |ts| && ts[k] == Plug(path, nb)
    ensures UpdateNoteIn(ts, id, c, now) ==
      ts[..k] + [Plug(path, nb.(notes := nb.notes[i := nb.notes[i].WithContent(c, now)]))] + ts[k + 1..]
    decreases ts
  {
    if GetNote(ts[0], id).Some? {
      k := 0;
      path, nb, i := UpdateNotePath(ts[0], id, c, now);
    } else {
      var k';
      k', path, nb, i := UpdateNoteInPath(ts[1..], id, c, now);
      k := k' + 1;
      ConsSplice(ts, k', Plug(path, nb.(notes := nb.notes[i := nb.notes[i].WithContent(c, now)])));
    }
  }

  /** After `updateNote`, `getNoteById` returns the updated note. */
  lemma GetNoteAfterUpdate(t: NotebookData, id: string, c: string, now: nat)
    requires GetNote(t, id).Some?
    ensures GetNote(UpdateNoteAt(t, id, c, now), id) == Some(GetNote(t, id).value.WithContent(c, now))
  {
    var ns := AllNotes(t);
    GetNoteIsFirst(t, id);
    GetNoteIsFirst(UpdateNoteAt(t, id, c, now), id);
    UpdateNoteAllNotes(t, id, c, now);
    var k :| 0 <= k < |ns| && ns[k] == GetNote(t, id).value && ns[k].id == id
                              && forall j | 0 <= j < k :: ns[j].id != id;
    var ns' := ns[k := ns[k].WithContent(c, now)];
    UpdateFirstNoteAt(ns, id, c, now, k);
    FirstNoteAt(ns', id, k);
  }

  /** A row whose first note with `id` sits at `k` yields that note. */
  lemma {:induction false} FirstNoteAt(ns: seq<NoteData>, id: string, k: nat)
    requires k < |ns| && ns[k].id == id && forall j | 0 <= j < k :: ns[j].id != id
    ensures FirstNote(ns, id) == Some(ns[k])
    decreases k
  {
    if k > 0 {
      FirstNoteAt(ns[1..], id, k - 1);
    }
  }

  /** `updateNote` keeps every identifier. */
  lemma {:induction false} UpdateNoteIds(t: NotebookData, id: string, c: string, now: nat)
    ensures IdBag(UpdateNoteAt(t, id, c, now)) == IdBag(t)
    decreases t
  {
    if FirstNote(t.notes, id).Some? {
      UpdateFirstNoteIds(t.notes, id, c, now);
    } else {
      UpdateNoteInIds(t.children, id, c, now);
    }
  }

  lemma {:induction false} UpdateNoteInIds(ts: seq<NotebookData>, id: string, c: string, now: nat)
    ensures IdBagIn(UpdateNoteIn(ts, id, c, now)) == IdBagIn(ts)
    decreases ts
  {
    if ts != [] {
      var r := UpdateNoteIn(ts, id, c, now);
      if GetNote(ts[0], id).Some? {
        UpdateNoteIds(ts[0], id, c, now);
        assert r[0] == UpdateNoteAt(ts[0], id, c, now) && r[1..] == ts[1..];
      } else {
        UpdateNoteInIds(ts[1..], id, c, now);
        assert r[0] == ts[0] && r[1..] == UpdateNoteIn(ts[1..], id, c, now);
      }
    }
  }

  lemma {:induction false} UpdateFirstNoteIds(ns: seq<NoteData>, id: string, c: string, now: nat)
    ensures NoteIds(UpdateFirstNote(ns, id, c, now)) == NoteIds(ns)
    decreases |ns|
  {
    if ns != [] && ns[0].id != id {
      var r := UpdateFirstNote(ns, id, c, now);
      UpdateFirstNoteIds(ns[1..], id, c, now);
      assert r[0] == ns[0] && r[1..] == UpdateFirstNote(ns[1..], id, c, now);
    } else if ns != [] {
      var r := UpdateFirstNote(ns, id, c, now);
      assert r[0].id == ns[0].id && r[1..] == ns[1..];
    }
  }
}

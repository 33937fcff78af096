/** `reviveNotebook`: rebuilding the tree from the parsed storage record, and
    the record the tree is stored as. JSON text itself is not modelled. */
module Revive {
  import opened Errors
  import opened Models
  import opened Tree

  /** A stored note, with the time stamps it was saved with. */
  datatype RawNote = RawNote(id: string, title: string, content: string, createdAt: nat, updatedAt: nat)

  /** A stored notebook; `notes` and `children` may be missing. */
  datatype RawNotebook = RawNotebook(id: string, name: string, notes: Option<seq<RawNote>>, children: RawChildren)

  /** The `children` field of a stored notebook: missing, or a list. It has
      its own datatype rather than `Option<seq<RawNotebook>>` because the
      revival recurses into each child, and Dafny's termination ordering
      sees a record's children as smaller only through a datatype that
      names `RawNotebook` itself, not through the generic `Option`. */
  datatype RawChildren = ChildrenMissing | Children(items: seq<RawNotebook>)

  /** `new Note(n.id, n.title, n.content)` at time `now`: the stored time
      stamps are not read. */
  function ReviveNote(n: RawNote, now: nat): (r: NoteData)
    ensures r.id == n.id && r.title == n.title && r.content == n.content
    ensures r.createdAt == now && r.updatedAt == now
  {
    NewNote(n.id, n.title, n.content, now)
  }

  /** `reviveNotebook(raw)` at time `now`: id and name verbatim, a missing list
      read as empty (`?? []`), every note rebuilt with fresh stamps, every
      child revived in order. */
  function ReviveNotebook(raw: RawNotebook, now: nat): (r: NotebookData)
    ensures r.id == raw.id && r.name == raw.name
    ensures raw.notes.None? ==> r.notes == []
    ensures raw.children.ChildrenMissing? ==> r.children == []
    ensures raw.notes.Some? ==> |r.notes| == |raw.notes.value|
    ensures raw.children.Children? ==> |r.children| == |raw.children.items|
    ensures raw.notes.Some? ==> forall i | 0 <= i < |r.notes| ::
      r.notes[i] == NewNote(raw.notes.value[i].id, raw.notes.value[i].title, raw.notes.value[i].content, now)
    decreases raw
  {
    var ns := raw.notes.GetOr([]);
    var children := match raw.children
      case ChildrenMissing => []
      case Children(cs) => seq(|cs|, i requires 0 <= i < |cs| => ReviveNotebook(cs[i], now));
    NotebookData(raw.id, raw.name, seq(|ns|, i requires 0 <= i < |ns| => ReviveNote(ns[i], now)), children)
  }

  /** The record `save` writes for a note. */
  function SaveNote(n: NoteData): (r: RawNote)
    ensures r.id == n.id && r.title == n.title && r.content == n.content
    ensures r.createdAt == n.createdAt && r.updatedAt == n.updatedAt
  {
    RawNote(n.id, n.title, n.content, n.createdAt, n.updatedAt)
  }

  /** The record `save` writes for a notebook: both lists present. */
  function SaveNotebook(t: NotebookData): (r: RawNotebook)
    ensures r.id == t.id && r.name == t.name
    ensures r.notes.Some? && |r.notes.value| == |t.notes|
    ensures forall i | 0 <= i < |t.notes| :: r.notes.value[i] == SaveNote(t.notes[i])
    ensures r.children.Children? && |r.children.items| == |t.children|
    decreases t
  {
    RawNotebook(t.id, t.name,
                Some(seq(|t.notes|, i requires 0 <= i < |t.notes| => SaveNote(t.notes[i]))),
                Children(seq(|t.children|, i requires 0 <= i < |t.children| => SaveNotebook(t.children[i]))))
  }

  /** Two trees with the same shape, ids, names, titles and contents; only
      note time stamps may differ. */
  ghost predicate SameButTimes(a: NotebookData, b: NotebookData)
    decreases a
  {
    && a.id == b.id && a.name == b.name
    && |a.notes| == |b.notes|
    && (forall i | 0 <= i < |a.notes| ::
          a.notes[i].id == b.notes[i].id && a.notes[i].title == b.notes[i].title && a.notes[i].content == b.notes[i].content)
    && |a.children| == |b.children|
    && (forall i | 0 <= i < |a.children| :: SameButTimes(a.children[i], b.children[i]))
  }

  /** Every note of the tree carries `now` as both time stamps. */
  ghost predicate StampedAt(t: NotebookData, now: nat)
    decreases t
  {
    && (forall i | 0 <= i < |t.notes| :: t.notes[i].createdAt == now && t.notes[i].updatedAt == now)
    && (forall i | 0 <= i < |t.children| :: StampedAt(t.children[i], now))
  }

  /** Saving and reloading keeps the tree's shape, ids, names, titles and
      contents; every note comes back stamped with the reload time. */
  lemma {:induction false} ReloadKeepsTree(t: NotebookData, now: nat)
    ensures SameButTimes(ReviveNotebook(SaveNotebook(t), now), t)
    ensures StampedAt(ReviveNotebook(SaveNotebook(t), now), now)
    decreases t
  {
    var r := ReviveNotebook(SaveNotebook(t), now);
    forall i | 0 <= i < |t.children|
      ensures SameButTimes(r.children[i], t.children[i]) && StampedAt(r.children[i], now)
    {
      ReloadKeepsTree(t.children[i], now);
    }
  }

  /** In a tree stamped at `now`, every note, at any depth, carries `now`. */
  lemma {:induction false} StampedAtAllNotes(t: NotebookData, now: nat)
    requires StampedAt(t, now)
    ensures forall n | n in AllNotes(t) :: n.createdAt == now && n.updatedAt == now
    decreases t
  {
    StampedAtAllNotesIn(t.children, now);
  }

  lemma {:induction false} StampedAtAllNotesIn(ts: seq<NotebookData>, now: nat)
    requires forall i | 0 <= i < |ts| :: StampedAt(ts[i], now)
    ensures forall n | n in AllNotesIn(ts) :: n.createdAt == now && n.updatedAt == now
    decreases ts
  {
    if ts != [] {
      StampedAtAllNotes(ts[0], now);
      StampedAtAllNotesIn(ts[1..], now);
    }
  }

  /** A reload does not give back the saved tree when any of its notes, at
      any depth, was created at another time than the reload: its stored
      creation stamp is replaced. */
  lemma ReloadChangesOlderStamps(t: NotebookData, now: nat, n: NoteData)
    requires n in AllNotes(t) && n.createdAt != now
    ensures ReviveNotebook(SaveNotebook(t), now) != t
  {
    ReloadKeepsTree(t, now);
    if ReviveNotebook(SaveNotebook(t), now) == t {
      StampedAtAllNotes(t, now);
    }
  }

  // ---------------------------------------------------------------------
  // Revival that keeps the stored time stamps

  /** A stored note rebuilt with the time stamps it was saved with. */
  function ReviveNoteKeepingStamps(n: RawNote): (r: NoteData)
    ensures SaveNote(r) == n
  {
    NoteData(n.id, n.title, n.content, n.createdAt, n.updatedAt)
  }

  /** `reviveNotebook` reading the stored stamps instead of the clock; like
      the original, a missing list is read as empty. */
  function ReviveNotebookKeepingStamps(raw: RawNotebook): (r: NotebookData)
    ensures r.id == raw.id && r.name == raw.name
    ensures raw.notes.None? ==> r.notes == []
    ensures raw.children.ChildrenMissing? ==> r.children == []
    ensures raw.notes.Some? ==> |r.notes| == |raw.notes.value|
    ensures raw.children.Children? ==> |r.children| == |raw.children.items|
    ensures raw.notes.Some? ==> forall i | 0 <= i < |r.notes| :: SaveNote(r.notes[i]) == raw.notes.value[i]
    decreases raw
  {
    var ns := raw.notes.GetOr([]);
    var children := match raw.children
      case ChildrenMissing => []
      case Children(cs) => seq(|cs|, i requires 0 <= i < |cs| => ReviveNotebookKeepingStamps(cs[i]));
    NotebookData(raw.id, raw.name, seq(|ns|, i requires 0 <= i < |ns| => ReviveNoteKeepingStamps(ns[i])), children)
  }

  /** With the stamps read back, saving and reloading gives back exactly the
      saved tree. */
  lemma {:induction false} ReloadKeepingStampsRoundTrip(t: NotebookData)
    ensures ReviveNotebookKeepingStamps(SaveNotebook(t)) == t
    decreases t
  {
    var r := ReviveNotebookKeepingStamps(SaveNotebook(t));
    forall i | 0 <= i < |t.children|
      ensures r.children[i] == t.children[i]
    {
      ReloadKeepingStampsRoundTrip(t.children[i]);
    }
    assert r.notes == t.notes;
    assert r.children == t.children;
  }

  /** A stored record with every missing list, at every depth, replaced by
      an empty one. */
  function Completed(raw: RawNotebook): (r: RawNotebook)
    ensures r.id == raw.id && r.name == raw.name && r.notes.Some? && r.children.Children?
    decreases raw
  {
    var children := match raw.children
      case ChildrenMissing => []
      case Children(cs) => seq(|cs|, i requires 0 <= i < |cs| => Completed(cs[i]));
    RawNotebook(raw.id, raw.name, Some(raw.notes.GetOr([])), Children(children))
  }

  /** The corrected revival reads every stored field back and treats a
      missing list at any depth as empty: saving what it builds gives the
      stored record with its missing lists filled in. */
  lemma {:induction false} ReviveKeepingStampsIsComplete(raw: RawNotebook)
    ensures SaveNotebook(ReviveNotebookKeepingStamps(raw)) == Completed(raw)
    decreases raw
  {
    var r := ReviveNotebookKeepingStamps(raw);
    var cs := match raw.children case ChildrenMissing => [] case Children(items) => items;
    forall i | 0 <= i < |cs|
      ensures SaveNotebook(r.children[i]) == Completed(cs[i])
    {
      ReviveKeepingStampsIsComplete(cs[i]);
    }
    assert SaveNotebook(r).children.items == Completed(raw).children.items;
    var ns := raw.notes.GetOr([]);
    assert r.notes == seq(|ns|, i requires 0 <= i < |ns| => ReviveNoteKeepingStamps(ns[i]));
    assert SaveNotebook(r).notes.value == ns;
  }

  /** On every stored record, not only saved ones, the original revival and
      the corrected one agree on everything but the time stamps, and the
      original stamps every note, at every depth, with the load time. */
  lemma {:induction false} ReviveAgrees(raw: RawNotebook, now: nat)
    ensures SameButTimes(ReviveNotebook(raw, now), ReviveNotebookKeepingStamps(raw))
    ensures StampedAt(ReviveNotebook(raw, now), now)
    decreases raw
  {
    var a, b := ReviveNotebook(raw, now), ReviveNotebookKeepingStamps(raw);
    var cs := match raw.children case ChildrenMissing => [] case Children(items) => items;
    forall i | 0 <= i < |cs|
      ensures SameButTimes(a.children[i], b.children[i]) && StampedAt(a.children[i], now)
    {
      ReviveAgrees(cs[i], now);
    }
  }
}

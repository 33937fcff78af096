/** `searchNotes`: a case-insensitive substring search over titles and
    contents, collecting hits in pre-order into an accumulator. */
module Search {
  import opened Text
  import opened Models
  import opened Tree
  import opened Seqs

  /** A note matches an already lower-cased keyword when the keyword occurs in
      its lower-cased title or its lower-cased content. */
  predicate Matches(n: NoteData, lower: string)
    ensures Matches(n, lower) <==>
      (exists i :: OccursAt(ToLower(n.title), lower, i)) || (exists i :: OccursAt(ToLower(n.content), lower, i))
  {
    IncludesIff(ToLower(n.title), lower);
    IncludesIff(ToLower(n.content), lower);
    Includes(ToLower(n.title), lower) || Includes(ToLower(n.content), lower)
  }

  /** The notes of `ns` that match, in their order. */
  function Filter(ns: seq<NoteData>, lower: string): (r: seq<NoteData>)
    decreases |ns|
  {
    if ns == [] then []
    else (if Matches(ns[0], lower) then [ns[0]] else []) + Filter(ns[1..], lower)
  }

  /** What `Filter` keeps: exactly the notes that match. */
  lemma {:induction false} FilterMembers(ns: seq<NoteData>, lower: string)
    ensures |Filter(ns, lower)| <= |ns|
    ensures forall n | n in Filter(ns, lower) :: n in ns && Matches(n, lower)
    ensures forall n | n in ns && Matches(n, lower) :: n in Filter(ns, lower)
    decreases |ns|
  {
    if ns != [] {
      FilterMembers(ns[1..], lower);
      assert ns == [ns[0]] + ns[1..];
    }
  }

  lemma {:induction false} FilterAppend(a: seq<NoteData>, b: seq<NoteData>, lower: string)
    ensures Filter(a + b, lower) == Filter(a, lower) + Filter(b, lower)
    decreases |a|
  {
    if a == [] {
      assert a + b == b;
    } else {
      AppendCons(a, b);
      FilterAppend(a[1..], b, lower);
      AppendAssoc(if Matches(a[0], lower) then [a[0]] else [], Filter(a[1..], lower), Filter(b, lower));
    }
  }

  lemma {:induction false} AllNotesInSnoc(ts: seq<NotebookData>, t: NotebookData)
    ensures AllNotesIn(ts + [t]) == AllNotesIn(ts) + AllNotes(t)
    decreases |ts|
  {
    if ts == [] {
      assert [t][1..] == [];
      assert ts + [t] == [t];
    } else {
      AppendCons(ts, [t]);
      AllNotesInSnoc(ts[1..], t);
    }
  }

  lemma FilterSnoc(ns: seq<NoteData>, n: NoteData, lower: string)
    ensures Filter(ns + [n], lower) == Filter(ns, lower) + if Matches(n, lower) then [n] else []
  {
    FilterAppend(ns, [n], lower);
    assert [n][1..] == [];
  }

  /** `searchNotes(keyword, current, results)`: appends to `results` every note
      of the subtree at `current` that matches, in pre-order. The keyword is
      lower-cased on entry and passed on lower-cased to the children. */
  method SearchFrom(keyword: string, current: NotebookData, results: seq<NoteData>) returns (found: seq<NoteData>)
    ensures found == results + Filter(AllNotes(current), ToLower(keyword))
    decreases current
  {
    var lower := ToLower(keyword);
    found := results;
    var notes := current.notes;
    for i := 0 to |notes|
      invariant found == results + Filter(notes[..i], lower)
    {
      var note := notes[i];
      FilterSnoc(notes[..i], note, lower);
      TakeSnoc(notes, i);
      AppendAssoc(results, Filter(notes[..i], lower), if Matches(note, lower) then [note] else []);
      if Includes(ToLower(note.title), lower) || Includes(ToLower(note.content), lower) {
        found := found + [note];
      }
    }
    assert notes[..|notes|] == notes;
    ghost var own := found;
    var children := current.children;
    ToLowerIdempotent(keyword);
    for j := 0 to |children|
      invariant found == own + Filter(AllNotesIn(children[..j]), lower)
    {
      TakeSnoc(children, j);
      AllNotesInSnoc(children[..j], children[j]);
      FilterAppend(AllNotesIn(children[..j]), AllNotes(children[j]), lower);
      AppendAssoc(own, Filter(AllNotesIn(children[..j]), lower), Filter(AllNotes(children[j]), lower));
      found := SearchFrom(lower, children[j], found);
    }
    assert children[..|children|] == children;
    FilterAppend(notes, AllNotesIn(children), lower);
    AppendAssoc(results, Filter(notes, lower), Filter(AllNotesIn(children), lower));
  }

  /** The empty keyword matches every note, so it returns every note. */
  lemma {:induction false} FilterEmptyKeyword(ns: seq<NoteData>)
    ensures Filter(ns, ToLower("")) == ns
    decreases |ns|
  {
    if ns != [] {
      assert ToLower("") == "";
      IncludesEmpty(ToLower(ns[0].title));
      FilterEmptyKeyword(ns[1..]);
    }
  }

  /** `searchNotes("")` returns every note of the tree in pre-order. */
  lemma SearchEmptyKeywordReturnsAll(t: NotebookData)
    ensures Filter(AllNotes(t), ToLower("")) == AllNotes(t)
  {
    FilterEmptyKeyword(AllNotes(t));
  }

  /** Keywords that differ only in letter case give the same results; in
      particular `searchNotes(k)` equals `searchNotes(k.toLowerCase())`. */
  lemma SearchIgnoresCase(t: NotebookData, k1: string, k2: string)
    requires ToLower(k1) == ToLower(k2)
    ensures Filter(AllNotes(t), ToLower(k1)) == Filter(AllNotes(t), ToLower(k2))
    ensures Filter(AllNotes(t), ToLower(k1)) == Filter(AllNotes(t), ToLower(ToLower(k1)))
  {
    ToLowerIdempotent(k1);
  }
}

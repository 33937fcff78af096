/** The two text renderings: `printNotebookTree` and `openNotebook`, as the
    sequences of strings they hand to `console.log` / `console.error`, one
    element per call (an element starting with a newline prints two lines). */
module Render {
  import opened Text
  import opened Models
  import opened Tree
  import opened Seqs

  /** `"  ".repeat(level)`. */
  function Indent(level: nat): (r: string)
    ensures |r| == 2 * level
    ensures forall i | 0 <= i < |r| :: r[i] == ' '
    decreases level
  {
    if level == 0 then "" else "  " + Indent(level - 1)
  }

  /** The line of a notebook at depth `level`. */
  function NotebookLine(nb: NotebookData, level: nat): (r: string)
    ensures IsPrefix(Indent(level), r)
    ensures r[2 * level..] == "- [Notebook] " + nb.name + " (" + nb.id + ")"
  {
    Indent(level) + "- [Notebook] " + nb.name + " (" + nb.id + ")"
  }

  /** The line of a note held by a notebook at depth `level`. */
  function NoteLine(n: NoteData, level: nat): (r: string)
    ensures IsPrefix(Indent(level), r)
    ensures r[2 * level..] == "  * [Note] " + n.title + " (" + n.id + ")"
  {
    Indent(level) + "  * [Note] " + n.title + " (" + n.id + ")"
  }

  /** What one notebook at a depth prints itself: its line, then one line
      per own note. */
  function Block(p: (NotebookData, nat)): (r: seq<string>)
    ensures |r| == 1 + |p.0.notes| && r[0] == NotebookLine(p.0, p.1)
    ensures forall i | 0 <= i < |p.0.notes| :: r[1 + i] == NoteLine(p.0.notes[i], p.1)
  {
    [NotebookLine(p.0, p.1)]
    + seq(|p.0.notes|, i requires 0 <= i < |p.0.notes| => NoteLine(p.0.notes[i], p.1))
  }

  /** `printNotebookTree(t, level)`: the notebook's line, one line per own
      note, then each child's subtree one level deeper. */
  function PrintNotebookTree(t: NotebookData, level: nat): (r: seq<string>)
    ensures |r| >= 1 + |t.notes| && r[0] == NotebookLine(t, level)
    ensures forall i | 0 <= i < |t.notes| :: r[1 + i] == NoteLine(t.notes[i], level)
    decreases t
  {
    Block((t, level)) + PrintChildren(t.children, level + 1)
  }

  function PrintChildren(ts: seq<NotebookData>, level: nat): (r: seq<string>)
    ensures |r| >= |ts|
    ensures ts != [] ==> r[0] == NotebookLine(ts[0], level)
    decreases ts
  {
    if ts == [] then [] else PrintNotebookTree(ts[0], level) + PrintChildren(ts[1..], level)
  }

  /** The tree prints one line per notebook and one per note. */
  lemma {:induction false} PrintLineCount(t: NotebookData, level: nat)
    ensures |PrintNotebookTree(t, level)| == |Preorder(t)| + |AllNotes(t)|
    decreases t
  {
    PrintChildrenLineCount(t.children, level + 1);
  }

  lemma {:induction false} PrintChildrenLineCount(ts: seq<NotebookData>, level: nat)
    ensures |PrintChildren(ts, level)| == |PreorderIn(ts)| + |AllNotesIn(ts)|
    decreases ts
  {
    if ts != [] {
      PrintLineCount(ts[0], level);
      PrintChildrenLineCount(ts[1..], level);
    }
  }

  /** Every line of a subtree printed at depth `level` starts with that
      depth's indentation, so a child's lines sit under its parent's. */
  lemma {:induction false} PrintIndented(t: NotebookData, level: nat)
    ensures forall line | line in PrintNotebookTree(t, level) :: IsPrefix(Indent(level), line)
    decreases t
  {
    PrintChildrenIndented(t.children, level + 1);
    IndentGrows(level);
    forall line | line in PrintChildren(t.children, level + 1)
      ensures IsPrefix(Indent(level), line)
    {
      assert line[..|Indent(level)|] == line[..|Indent(level + 1)|][..|Indent(level)|];
    }
    forall line | line in PrintNotebookTree(t, level)
      ensures IsPrefix(Indent(level), line)
    {
      if line != NotebookLine(t, level) && line !in PrintChildren(t.children, level + 1) {
        var i :| 0 <= i < |t.notes| && line == NoteLine(t.notes[i], level);
      }
    }
  }

  lemma {:induction false} PrintChildrenIndented(ts: seq<NotebookData>, level: nat)
    ensures forall line | line in PrintChildren(ts, level) :: IsPrefix(Indent(level), line)
    decreases ts
  {
    if ts != [] {
      PrintIndented(ts[0], level);
      PrintChildrenIndented(ts[1..], level);
    }
  }

  lemma IndentGrows(level: nat)
    ensures Indent(level + 1)[..|Indent(level)|] == Indent(level)
  {
  }

  /** The notebooks of the tree in pre-order, each with its depth, the root
      at `level`. */
  function Levels(t: NotebookData, level: nat): (r: seq<(NotebookData, nat)>)
    ensures r != [] && r[0] == (t, level)
    decreases t
  {
    [(t, level)] + LevelsIn(t.children, level + 1)
  }

  function LevelsIn(ts: seq<NotebookData>, level: nat): seq<(NotebookData, nat)>
    decreases ts
  {
    if ts == [] then [] else Levels(ts[0], level) + LevelsIn(ts[1..], level)
  }

  /** The blocks of a row of notebooks with depths, one after another. */
  function Lines(s: seq<(NotebookData, nat)>): seq<string>
    decreases s
  {
    if s == [] then [] else Block(s[0]) + Lines(s[1..])
  }

  lemma {:induction false} LinesAppend(a: seq<(NotebookData, nat)>, b: seq<(NotebookData, nat)>)
    ensures Lines(a + b) == Lines(a) + Lines(b)
    decreases a
  {
    if a == [] {
      assert a + b == b;
    } else {
      AppendCons(a, b);
      assert a + b != [];
      LinesAppend(a[1..], b);
      AppendAssoc(Block(a[0]), Lines(a[1..]), Lines(b));
    }
  }

  /** The printed tree is exactly the blocks of its notebooks in pre-order,
      each at its depth: a notebook's line and its notes' lines come right
      before the subtrees of its children, left to right. */
  lemma {:induction false} PrintIsPreorder(t: NotebookData, level: nat)
    ensures PrintNotebookTree(t, level) == Lines(Levels(t, level))
    decreases t
  {
    PrintChildrenIsPreorder(t.children, level + 1);
    LinesAppend([(t, level)], LevelsIn(t.children, level + 1));
    assert Lines([(t, level)]) == Block((t, level));
  }

  lemma {:induction false} PrintChildrenIsPreorder(ts: seq<NotebookData>, level: nat)
    ensures PrintChildren(ts, level) == Lines(LevelsIn(ts, level))
    decreases ts
  {
    if ts != [] {
      PrintIsPreorder(ts[0], level);
      PrintChildrenIsPreorder(ts[1..], level);
      LinesAppend(Levels(ts[0], level), LevelsIn(ts[1..], level));
    }
  }

  /** The notebooks `Levels` lists are those of `Preorder`, in the same order. */
  lemma {:induction false} LevelsArePreorder(t: NotebookData, level: nat)
    ensures |Levels(t, level)| == |Preorder(t)|
    ensures forall i | 0 <= i < |Preorder(t)| :: Levels(t, level)[i].0 == Preorder(t)[i]
    decreases t
  {
    LevelsInArePreorder(t.children, level + 1);
    SameFirsts([(t, level)], LevelsIn(t.children, level + 1), [t], PreorderIn(t.children));
  }

  lemma {:induction false} LevelsInArePreorder(ts: seq<NotebookData>, level: nat)
    ensures |LevelsIn(ts, level)| == |PreorderIn(ts)|
    ensures forall i | 0 <= i < |PreorderIn(ts)| :: LevelsIn(ts, level)[i].0 == PreorderIn(ts)[i]
    decreases ts
  {
    if ts != [] {
      LevelsArePreorder(ts[0], level);
      LevelsInArePreorder(ts[1..], level);
      SameFirsts(Levels(ts[0], level), LevelsIn(ts[1..], level), Preorder(ts[0]), PreorderIn(ts[1..]));
    }
  }

  /** Pairs whose first components match two sequences still do after both
      are extended by matching parts. */
  lemma SameFirsts<A, B>(a: seq<(A, B)>, b: seq<(A, B)>, x: seq<A>, y: seq<A>)
    requires |a| == |x| && forall i | 0 <= i < |a| :: a[i].0 == x[i]
    requires |b| == |y| && forall i | 0 <= i < |b| :: b[i].0 == y[i]
    ensures |a + b| == |x + y| && forall i | 0 <= i < |a + b| :: (a + b)[i].0 == (x + y)[i]
  {
    forall i | 0 <= i < |a + b|
      ensures (a + b)[i].0 == (x + y)[i]
    {
      if i >= |a| {
        assert (a + b)[i] == b[i - |a|];
      }
    }
  }

  // ---------------------------------------------------------------------
  // openNotebook

  /** What a call writes to standard output and to standard error. */
  datatype Console = Console(out: seq<string>, err: seq<string>)

  /** The "Notes:" section: one line per own note, or the placeholder. */
  function NotesSection(nb: NotebookData): (r: seq<string>)
    ensures |r| == if nb.notes == [] then 1 else |nb.notes|
    ensures nb.notes == [] ==> r == ["  (no notes)"]
    ensures nb.notes != [] ==>
      forall i | 0 <= i < |nb.notes| :: r[i] == "  * " + nb.notes[i].title + " (" + nb.notes[i].id + ")"
  {
    if |nb.notes| == 0 then ["  (no notes)"]
    else seq(|nb.notes|, i requires 0 <= i < |nb.notes| => "  * " + nb.notes[i].title + " (" + nb.notes[i].id + ")")
  }

  /** The "Child notebooks:" section: one line per direct child, or the
      placeholder; grandchildren are not listed. */
  function ChildrenSection(nb: NotebookData): (r: seq<string>)
    ensures |r| == if nb.children == [] then 1 else |nb.children|
    ensures nb.children == [] ==> r == ["  (no sub-notebooks)"]
    ensures nb.children != [] ==>
      forall i | 0 <= i < |nb.children| :: r[i] == "  - " + nb.children[i].name + " (" + nb.children[i].id + ")"
  {
    if |nb.children| == 0 then ["  (no sub-notebooks)"]
    else seq(|nb.children|, i requires 0 <= i < |nb.children| => "  - " + nb.children[i].name + " (" + nb.children[i].id + ")")
  }

  /** `openNotebook(id)`: an error line when the notebook is unknown, else a
      header, its notes and its direct children. */
  function OpenNotebook(root: NotebookData, id: string): (r: Console)
    ensures FindNotebook(root, id).None? ==> r == Console([], ["Notebook with id " + id + " not found."])
    ensures FindNotebook(root, id).Some? ==>
      var nb := FindNotebook(root, id).value;
      && r.err == []
      && |r.out| == 4 + (if nb.notes == [] then 1 else |nb.notes|) + (if nb.children == [] then 1 else |nb.children|)
      && r.out == ["\n[Notebook] " + nb.name + " (" + nb.id + ")", "Notes:"]
                  + NotesSection(nb) + ["\nChild notebooks:"] + ChildrenSection(nb) + [""]
  {
    match FindNotebook(root, id)
    case None => Console([], ["Notebook with id " + id + " not found."])
    case Some(nb) => Console(OpenedLines(nb), [])
  }

  /** The output of `openNotebook` for a found notebook `nb`. */
  function OpenedLines(nb: NotebookData): (r: seq<string>)
    ensures |r| == 4 + |NotesSection(nb)| + |ChildrenSection(nb)|
    ensures r[0] == "\n[Notebook] " + nb.name + " (" + nb.id + ")" && r[1] == "Notes:"
    ensures r[2 + |NotesSection(nb)|] == "\nChild notebooks:" && r[|r| - 1] == ""
  {
    ["\n[Notebook] " + nb.name + " (" + nb.id + ")", "Notes:"]
    + NotesSection(nb) + ["\nChild notebooks:"] + ChildrenSection(nb) + [""]
  }

  /** Where the notes and the direct children sit in that output. */
  lemma OpenedLinesLayout(nb: NotebookData)
    ensures |OpenedLines(nb)| == 4 + |NotesSection(nb)| + |ChildrenSection(nb)|
    ensures forall i | 0 <= i < |nb.notes| ::
      OpenedLines(nb)[2 + i] == "  * " + nb.notes[i].title + " (" + nb.notes[i].id + ")"
    ensures forall j | 0 <= j < |nb.children| ::
      OpenedLines(nb)[3 + |NotesSection(nb)| + j] == "  - " + nb.children[j].name + " (" + nb.children[j].id + ")"
  {
    var head := ["\n[Notebook] " + nb.name + " (" + nb.id + ")", "Notes:"];
    var mid := head + NotesSection(nb) + ["\nChild notebooks:"];
    assert OpenedLines(nb) == mid + ChildrenSection(nb) + [""];
    forall i | 0 <= i < |nb.notes|
      ensures OpenedLines(nb)[2 + i] == NotesSection(nb)[i]
    {
      assert mid[2 + i] == NotesSection(nb)[i];
    }
    forall j | 0 <= j < |nb.children|
      ensures OpenedLines(nb)[3 + |NotesSection(nb)| + j] == ChildrenSection(nb)[j]
    {
    }
  }

  /** `openNotebook` reports an error exactly when no notebook in the tree has
      the id; otherwise it shows the first one with that id in pre-order,
      with its own notes and its direct children at fixed positions. */
  lemma OpenNotebookShowsFirstMatch(root: NotebookData, id: string)
    ensures OpenNotebook(root, id).err == [] <==> exists i | 0 <= i < |Preorder(root)| :: Preorder(root)[i].id == id
    ensures OpenNotebook(root, id).err == [] ==>
      && FindNotebook(root, id) == FirstNotebook(Preorder(root), id)
      && var nb := FirstNotebook(Preorder(root), id).value;
      var out := OpenNotebook(root, id).out;
      && out[0] == "\n[Notebook] " + nb.name + " (" + nb.id + ")"
      && (forall i | 0 <= i < |nb.notes| :: out[2 + i] == "  * " + nb.notes[i].title + " (" + nb.notes[i].id + ")")
      && (forall j | 0 <= j < |nb.children| ::
            out[3 + |NotesSection(nb)| + j] == "  - " + nb.children[j].name + " (" + nb.children[j].id + ")")
  {
    FindNotebookSpec(root, id);
    FindIsFirstInPreorder(root, id);
    if FindNotebook(root, id).Some? {
      OpenedLinesLayout(FindNotebook(root, id).value);
    }
  }
}

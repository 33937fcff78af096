/** Identifiers as the repository generates them: `notebook-${Date.now()}` and
    `note-${Date.now()}`, from a millisecond clock. Two creations within one
    millisecond get the same identifier. */
module Findings {
  import opened Text
  import opened Errors
  import opened Models
  import opened Tree
  import Operations

  /** The character of a decimal digit. */
  function DigitChar(d: nat): (c: char)
    requires d < 10
    ensures '0' <= c <= '9' && c as int - '0' as int == d
  {
    ('0' as int + d) as char
  }

  /** The decimal digits of `n`, most significant first, as `${n}` prints
      them: the last digit is `n % 10`, after the digits of `n / 10`. */
  function Decimal(n: nat): (r: string)
    ensures |r| >= 1
    ensures forall k | 0 <= k < |r| :: '0' <= r[k] <= '9'
    ensures r[|r| - 1] == DigitChar(n % 10)
    ensures n < 10 <==> |r| == 1
    ensures n >= 10 ==> r[..|r| - 1] == Decimal(n / 10)
    decreases n
  {
    if n < 10 then [DigitChar(n)] else Decimal(n / 10) + [DigitChar(n % 10)]
  }

  /** Distinct clock readings give distinct decimal strings, so identifiers
      made at different milliseconds never collide. */
  lemma {:induction false} DecimalInjective(m: nat, n: nat)
    requires Decimal(m) == Decimal(n)
    ensures m == n
    decreases m
  {
    var r := Decimal(m);
    assert DigitChar(m % 10) == r[|r| - 1] == DigitChar(n % 10);
    if m < 10 {
      assert n < 10;
    } else {
      assert n >= 10;
      assert Decimal(m / 10) == r[..|r| - 1] == Decimal(n / 10);
      DecimalInjective(m / 10, n / 10);
    }
    SameDigits(m, n);
  }

  /** Two numbers with the same last digit and the same leading digits are
      equal. */
  lemma SameDigits(m: nat, n: nat)
    requires m % 10 == n % 10 && (m >= 10 || n >= 10 ==> m / 10 == n / 10)
    requires m < 10 <==> n < 10
    ensures m == n
  {
  }

  /** The id `createNotebook` generates at clock reading `clock`. */
  function ClockNotebookId(clock: nat): (r: string)
    ensures |r| > 9 && r[..9] == "notebook-" && r[9..] == Decimal(clock)
  {
    "notebook-" + Decimal(clock)
  }

  /** `createNotebook` as written: the id comes from the clock. */
  function CreateNotebookAsWritten(root: NotebookData, parentId: string, name: string, clock: nat)
    : (r: Result<Operations.Change<NotebookData>>)
    ensures r.Ok? ==> r.value.made.id == ClockNotebookId(clock)
  {
    Operations.CreateNotebook(root, parentId, name, ClockNotebookId(clock))
  }

  /** The id `createNote` generates at clock reading `clock`. */
  function ClockNoteId(clock: nat): (r: string)
    ensures |r| > 5 && r[..5] == "note-" && r[5..] == Decimal(clock)
  {
    "note-" + Decimal(clock)
  }

  /** `createNote` as written: the id comes from the clock. */
  function CreateNoteAsWritten(root: NotebookData, notebookId: string, title: string, content: string, clock: nat)
    : (r: Result<Operations.Change<NoteData>>)
    ensures r.Ok? ==> r.value.made.id == ClockNoteId(clock) && r.value.made.createdAt == clock
  {
    Operations.CreateNote(root, notebookId, title, content, ClockNoteId(clock), clock)
  }

  /** Two notebooks created under one parent within one millisecond both
      succeed and share an id, so a tree whose identifiers were unique no
      longer is. */
  lemma SameTickNotebooksCollide(root: NotebookData, parentId: string, name1: string, name2: string, clock: nat)
    requires FindNotebook(root, parentId).Some? && !IsBlank(name1) && !IsBlank(name2)
    ensures var first := CreateNotebookAsWritten(root, parentId, name1, clock);
            && first.Ok?
            && var second := CreateNotebookAsWritten(first.value.root, parentId, name2, clock);
            && second.Ok?
            && second.value.made.id == first.value.made.id
            && IdBag(second.value.root)[first.value.made.id] >= 2
            && !UniqueIds(second.value.root)
  {
    var id := ClockNotebookId(clock);
    var first := CreateNotebookAsWritten(root, parentId, name1, clock);
    var _ := Operations.CreateNotebookEffect(root, parentId, name1, id);
    var _ := Operations.CreateNotebookEffect(first.value.root, parentId, name2, id);
  }

  /** Two notes created in one notebook within one millisecond both succeed
      and share an id, so a tree whose identifiers were unique no longer is. */
  lemma SameTickNotesCollide(root: NotebookData, notebookId: string, title1: string, title2: string,
                             content1: string, content2: string, clock: nat)
    requires FindNotebook(root, notebookId).Some? && !IsBlank(title1) && !IsBlank(title2)
    ensures var first := CreateNoteAsWritten(root, notebookId, title1, content1, clock);
            && first.Ok?
            && var second := CreateNoteAsWritten(first.value.root, notebookId, title2, content2, clock);
            && second.Ok?
            && second.value.made.id == first.value.made.id
            && IdBag(second.value.root)[first.value.made.id] >= 2
            && !UniqueIds(second.value.root)
  {
    var id := ClockNoteId(clock);
    var first := CreateNoteAsWritten(root, notebookId, title1, content1, clock);
    var _ := Operations.CreateNoteEffect(root, notebookId, title1, content1, id, clock);
    var _ := Operations.CreateNoteEffect(first.value.root, notebookId, title2, content2, id, clock);
  }

  /** Identifiers from different clock readings differ: the collision needs
      two creations within one millisecond. */
  lemma DistinctTicksDistinctIds(c1: nat, c2: nat)
    requires c1 != c2
    ensures ClockNotebookId(c1) != ClockNotebookId(c2)
    ensures ClockNoteId(c1) != ClockNoteId(c2)
  {
    if ClockNotebookId(c1) == ClockNotebookId(c2) {
      DecimalInjective(c1, c2);
    }
    if ClockNoteId(c1) == ClockNoteId(c2) {
      DecimalInjective(c1, c2);
    }
  }
}

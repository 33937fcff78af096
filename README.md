# Note-taking app: the notes repository in Dafny

This project models the core of a command-line note-taking application.
Notes live in notebooks. Notebooks nest into one tree under a root notebook.
A repository object owns that tree. It can:

- find a notebook by id, depth first;
- create a child notebook, or a note inside a notebook, after validating the name or title;
- find a note by id and replace its content;
- search every note for a keyword, ignoring case;
- print the tree, or one notebook's contents;
- rebuild the tree from its stored record.

Modules, following the program's structure:

- `Text`: the JavaScript string operations the repository relies on (`trim`, `toLowerCase`, `includes`).
- `Errors`: the three error kinds (`InvalidInputError`, `NotebookNotFoundError`, `NoteNotFoundError`) and the `Result`/`Option` wrappers.
- `Models`: the `Note` and `Notebook` classes, with their in-place mutators. Also the values (`NoteData`, `NotebookData`) that record their state.
- `Tree`: the tree as a value, with its pre-order traversal and identifier multiset. Also `findNotebookById` and `getNoteById`, each proved to return the first match in pre-order.
- `Edits`: what "change the one notebook or note the lookup found" means. The change is stated with a zipper (`Frame`, `Plug`), so "the rest of the tree is as it was" is an equation.
- `Operations`: `createNotebook`, `createNote` and `updateNote` as functions from the old tree, with their error ordering, their effect and identifier uniqueness.
- `Search`: `searchNotes` as a recursive method over the tree, threading the result list. It is proved equal to a filter over all notes in pre-order.
- `Render`: `printNotebookTree` and `openNotebook` as the lists of strings they log, one per call. `"  ".repeat(level)` is `Render.Indent`.
- `Revive`: `reviveNotebook` and the stored record.
- `Repository`: the `NotesRepository` class, whose methods change its root and are proved against `Operations` and `Search`.
- `Findings`: identifiers drawn from a millisecond clock, as written.
- `Seqs`: regrouping facts about sequences of any element type, used by the proofs.

Parameters stand in for the environment:

- `Date.now()`, as used for identifiers, is the parameter `newId`.
- `new Date()` is a clock reading `now: nat`.

## Model

| member | source | states |
|---|---|---|
| Text.TrimStart | src/repository/NotesRepository.ts:87 | result is a suffix of the input; every dropped character is whitespace; a non-empty result does not start with whitespace |
| Text.TrimEnd | src/repository/NotesRepository.ts:87 | result is a prefix of the input; every dropped character is whitespace; a non-empty result does not end with whitespace |
| Text.Trim | src/repository/NotesRepository.ts:87-97 | `trim()` gives a contiguous slice of the input with only whitespace removed at both ends; a non-empty result starts and ends with non-whitespace |
| Text.TrimEncloses | src/repository/NotesRepository.ts:87-97 | what is left after trimming both ends is the slice of the input starting after the leading whitespace, with only whitespace before and after it |
| Text.EnclosedTwice | src/repository/NotesRepository.ts:87-97 | cutting a whitespace prefix and then a whitespace suffix off a string leaves a slice of it enclosed by whitespace |
| Text.TrimEnds | src/repository/NotesRepository.ts:87-97 | a non-empty trimmed string does not start with whitespace |
| Text.TrimBlank | src/repository/NotesRepository.ts:87-97 | trimming leaves the empty string iff every character of the input is whitespace |
| Text.IsBlank | src/repository/NotesRepository.ts:87-88 | `!name.trim()` (and `!title.trim()` at line 108) holds iff the string is empty or every character is whitespace |
| Text.LowerChar | src/repository/NotesRepository.ts:202 | an upper-case ASCII letter maps to its lower-case letter; every other character is kept; no result is upper case |
| Text.ToLower | src/repository/NotesRepository.ts:202-206 | `toLowerCase()` keeps the length and lower-cases character by character |
| Text.ToLowerIdempotent | src/repository/NotesRepository.ts:202-212 | lower-casing twice equals lower-casing once, so re-lowering the keyword passed to the children changes nothing |
| Text.Includes | src/repository/NotesRepository.ts:205-206 | an included string is no longer than the string; a prefix is included; `Text.IncludesIff` gives the exact meaning, occurrence at some index |
| Text.IncludesIff | src/repository/NotesRepository.ts:205-206 | `includes` holds iff the keyword occurs at some index of the string |
| Text.IncludesEmpty | src/repository/NotesRepository.ts:205-206 | every string includes the empty string |
| Models.NewNote | src/models/Note.ts:9-15 | a new note has its id, title and content verbatim, and both time stamps from one clock reading |
| Models.NoteData.WithContent | src/models/Note.ts:17-20 | `updateContent` sets the content and the update time; id, title and creation time are kept |
| Models.NoteData.WithTitle | src/models/Note.ts:22-25 | `updateTitle` sets the title and the update time; id, content and creation time are kept |
| Models.UpdatesKeepIdentity | src/models/Note.ts:17-25 | over any history of mutator calls, id and creation time are kept; the update time is that of the last call; an empty history changes nothing |
| Models.ContentIsLastContentUpdate | src/models/Note.ts:17-25 | after any history, the content is the one set by the last `updateContent` (or the original), so title updates never touch it |
| Models.UpdatesSplit | src/models/Note.ts:17-25 | one more mutator call applies after the history |
| Models.NewNotebook | src/models/Notebook.ts:10-15 | a new notebook has its id and name verbatim, and no notes and no children |
| Models.NotebookData.WithNote | src/models/Notebook.ts:17-19 | `addNote` appends the note at the end; children, id and name are kept |
| Models.NotebookData.WithChild | src/models/Notebook.ts:21-23 | `addChildNotebook` appends the notebook at the end; notes, id and name are kept |
| Models.Note.constructor | src/models/Note.ts:9-15 | the object's state is `NewNote(id, title, content, now)` |
| Models.Note.UpdateContent | src/models/Note.ts:17-20 | the object's new state is the old one with the new content and update time; the other fields are unchanged |
| Models.Note.UpdateTitle | src/models/Note.ts:22-25 | the object's new state is the old one with the new title and update time; the other fields are unchanged |
| Models.Notebook.constructor | src/models/Notebook.ts:10-15 | id and name as given; empty note and child arrays |
| Models.Notebook.AddNote | src/models/Notebook.ts:17-19 | the note array is the old one plus the note at the end; nothing else changes |
| Models.Notebook.AddChildNotebook | src/models/Notebook.ts:21-23 | the child array is the old one plus the notebook at the end; nothing else changes |
| Tree.Preorder | src/repository/NotesRepository.ts:70-84 | the order in which `findNotebookById` visits notebooks starts with the current notebook |
| Tree.FirstNotebook | src/repository/NotesRepository.ts:70-84 | the first notebook with the id in a sequence exists iff some element has that id, and it is such an element |
| Tree.FirstNote | src/repository/NotesRepository.ts:127-131 | the first note with the id in a sequence exists iff some element has that id, and it is such an element |
| Tree.FirstNotebookAppend | src/repository/NotesRepository.ts:77-83 | the first match in `a + b` is the first in `a` if there is one, else the first in `b` |
| Tree.FirstNoteAppend | src/repository/NotesRepository.ts:127-137 | the first match in `a + b` is the first in `a` if there is one, else the first in `b` |
| Tree.FindNotebook | src/repository/NotesRepository.ts:70-84 | a found notebook has the requested id; the current notebook is returned when it matches |
| Tree.FindIn | src/repository/NotesRepository.ts:77-83 | a notebook found among the children has the requested id |
| Tree.FindIsFirstInPreorder | src/repository/NotesRepository.ts:70-84 | `findNotebookById` returns the first notebook with the id in pre-order |
| Tree.FindInIsFirstInPreorder | src/repository/NotesRepository.ts:77-83 | searching the children returns the first match in their concatenated pre-orders |
| Tree.FindNotebookSpec | src/repository/NotesRepository.ts:70-84 | found iff a notebook with the id is in the tree; the result is the first in pre-order with that id |
| Tree.GetNote | src/repository/NotesRepository.ts:123-139 | a found note has the requested id |
| Tree.GetNoteIn | src/repository/NotesRepository.ts:132-137 | a note found among the children has the requested id |
| Tree.GetNoteIsFirst | src/repository/NotesRepository.ts:123-139 | `getNoteById` returns the first note with the id in the order own notes, then each child's subtree |
| Tree.GetNoteInIsFirst | src/repository/NotesRepository.ts:132-137 | searching the children returns the first match among all their notes |
| Tree.GetNoteSpec | src/repository/NotesRepository.ts:123-139 | found iff a note with the id is in the tree; the result is the first such note |
| Tree.NoteIdsAppend | src/models/Notebook.ts:17-19 | the ids of concatenated note lists add up |
| Tree.IdBagInAppend | src/models/Notebook.ts:21-23 | the ids of concatenated subtree lists add up |
| Tree.FoundIdsInBag | src/repository/NotesRepository.ts:70-139 | an id either lookup finds is one of the tree's ids |
| Tree.FoundIdsInBagIn | src/repository/NotesRepository.ts:77-83 | the same, for a list of children |
| Tree.FirstNoteInIds | src/repository/NotesRepository.ts:127-131 | a found note's id is among the list's ids |
| Edits.Apply | src/repository/NotesRepository.ts:98 | appending a child or a note keeps the notebook's id and name |
| Edits.EditAt | src/repository/NotesRepository.ts:90-98 | editing inside a tree keeps the root's id |
| Edits.EditIn | src/repository/NotesRepository.ts:77-83 | editing inside a list of children keeps its length |
| Edits.EditAtPath | src/repository/NotesRepository.ts:90-98 | the tree is the found notebook plugged into a path, and the edited tree is the edited notebook plugged into the same path |
| Edits.EditInPath | src/repository/NotesRepository.ts:77-83 | among children, exactly the child holding the first match is replaced, by its edited version |
| Edits.FindAfterEdit | src/repository/NotesRepository.ts:90-98 | after the edit, `findNotebookById` returns the edited notebook |
| Edits.FindInAfterEdit | src/repository/NotesRepository.ts:77-83 | the same, among children |
| Edits.EditAtIds | src/repository/NotesRepository.ts:94-98 | an edit adds exactly the inserted entity's ids to the tree's ids |
| Edits.ApplyIds | src/models/Notebook.ts:17-23 | appending to one notebook adds exactly the inserted entity's ids |
| Edits.IdBagInSnoc | src/models/Notebook.ts:21-23 | appending one child adds exactly that child's subtree ids |
| Edits.NoteIdsSnoc | src/models/Notebook.ts:17-19 | appending one note adds exactly that note's id |
| Edits.EditInIds | src/repository/NotesRepository.ts:77-83 | the same, among children |
| Edits.UpdateFirstNote | src/repository/NotesRepository.ts:127-146 | updating the first note with the id keeps the list's length; no match leaves the list unchanged |
| Edits.UpdateFirstNoteAt | src/repository/NotesRepository.ts:127-146 | when index `k` holds the first match, exactly that note gets the new content and update time |
| Edits.FirstNoteAt | src/repository/NotesRepository.ts:127-131 | when index `k` holds the first match, that note is the one found |
| Edits.UpdateNoteAt | src/repository/NotesRepository.ts:141-148 | the tree after `note.updateContent` on the note `getNoteById` finds: the root keeps its id, name and list lengths, and a tree without the id is unchanged; `UpdateNotePath`, `UpdateNoteAllNotes` and `GetNoteAfterUpdate` show that exactly the first match changes |
| Edits.UpdateNoteIn | src/repository/NotesRepository.ts:132-137 | updating among children keeps their number; children without the id are left as they were |
| Edits.UpdateFirstNoteAppend | src/repository/NotesRepository.ts:127-137 | updating the first match in `a + b` updates in `a` if it matches there, else in `b` |
| Edits.UpdateFirstNoteHit | src/repository/NotesRepository.ts:127-131 | when `a` holds the id, updating `a + b` updates inside `a` and keeps `b` |
| Edits.UpdateFirstNoteMiss | src/repository/NotesRepository.ts:127-137 | when `a` lacks the id, updating `a + b` keeps `a` and updates inside `b` |
| Edits.UpdateNoteAllNotes | src/repository/NotesRepository.ts:141-148 | the updated tree's notes, in pre-order, are the old ones with exactly the first match updated |
| Edits.UpdateNoteInAllNotes | src/repository/NotesRepository.ts:132-137 | the same, among children |
| Edits.UpdateNotePath | src/repository/NotesRepository.ts:141-148 | the found note is the first match at index `i` of one notebook at a path; the updated tree replaces only that note, in that notebook, at that path |
| Edits.UpdateNoteInPath | src/repository/NotesRepository.ts:132-137 | the same, among children, in exactly one child |
| Edits.GetNoteAfterUpdate | src/repository/NotesRepository.ts:141-148 | after the update, `getNoteById` returns the note with the new content and update time |
| Edits.UpdateNoteIds | src/repository/NotesRepository.ts:141-148 | updating a note leaves the tree's ids unchanged |
| Edits.UpdateNoteInIds | src/repository/NotesRepository.ts:132-137 | the same, among children |
| Edits.UpdateFirstNoteIds | src/repository/NotesRepository.ts:127-131 | the same, for a note list |
| Operations.CreateNotebook | src/repository/NotesRepository.ts:86-101 | a blank name gives `InvalidInput`, even for an unknown parent; otherwise an unknown parent gives `NotebookNotFound`; success iff neither |
| Operations.CreateNote | src/repository/NotesRepository.ts:103-121 | a blank title gives `InvalidInput`, even for an unknown notebook; otherwise an unknown notebook gives `NotebookNotFound`; success iff neither |
| Operations.UpdateNote | src/repository/NotesRepository.ts:141-148 | fails iff `getNoteById` finds nothing, and then with `NoteNotFound` |
| Operations.CreateNotebookEffect | src/repository/NotesRepository.ts:94-100 | the new notebook has the given id, the trimmed name and no contents; it becomes the parent's last child; the rest of the tree is unchanged; the parent is found again with the child; the ids grow by exactly the new id |
| Operations.CreateNoteEffect | src/repository/NotesRepository.ts:117-120 | the new note has the given id, the trimmed title, the content verbatim and both stamps `now`; it becomes the notebook's last note; the rest is unchanged; the ids grow by exactly the new id |
| Operations.UpdateNoteEffect | src/repository/NotesRepository.ts:141-148 | only the first match changes: it keeps its id, title and creation time and gets the new content and update time; `getNoteById` then returns it; the ids are unchanged |
| Operations.CreateNotebookKeepsIdsUnique | src/repository/NotesRepository.ts:94-98 | with unique ids and a fresh new id, the ids stay unique |
| Operations.CreateNoteKeepsIdsUnique | src/repository/NotesRepository.ts:117-118 | with unique ids and a fresh new id, the ids stay unique |
| Operations.UpdateNoteKeepsIdsUnique | src/repository/NotesRepository.ts:141-148 | updating a note keeps unique ids unique |
| Search.FilterMembers | src/repository/NotesRepository.ts:203-210 | the kept notes are exactly the listed notes whose lower-cased title or content includes the keyword, and no more than were given |
| Search.Matches | src/repository/NotesRepository.ts:204-207 | a note matches iff the lower-cased keyword occurs at some index of its lower-cased title or of its lower-cased content |
| Search.Filter | src/repository/NotesRepository.ts:203-210 | the reference filter: `Search.FilterMembers`, `Search.FilterAppend` and `Search.FilterSnoc` state what it keeps, and `Search.SearchFrom` is proved equal to it |
| Search.FilterAppend | src/repository/NotesRepository.ts:203-213 | filtering a concatenation concatenates the filtered parts |
| Search.AllNotesInSnoc | src/repository/NotesRepository.ts:211-213 | the notes of children plus one more child are the old notes plus that child's notes |
| Search.FilterSnoc | src/repository/NotesRepository.ts:203-210 | filtering one more note appends it iff it matches |
| Search.SearchFrom | src/repository/NotesRepository.ts:197-215 | the result is the given accumulator followed by every matching note of the subtree, in pre-order |
| Search.FilterEmptyKeyword | src/repository/NotesRepository.ts:202-210 | the empty keyword keeps every note |
| Search.SearchEmptyKeywordReturnsAll | src/repository/NotesRepository.ts:197-215 | searching for the empty keyword returns every note of the tree in pre-order |
| Search.SearchIgnoresCase | src/repository/NotesRepository.ts:202-206 | keywords equal after lower-casing give the same results |
| Render.Indent | src/repository/NotesRepository.ts:155 | the indentation for a level is `2 * level` spaces |
| Render.NotebookLine | src/repository/NotesRepository.ts:156 | a notebook's string at a level is that level's indentation, then `- [Notebook] `, the name and its id in parentheses |
| Render.NoteLine | src/repository/NotesRepository.ts:159 | a note's string at a level is that level's indentation, then `  * [Note] `, the title and its id in parentheses |
| Render.PrintNotebookTree | src/repository/NotesRepository.ts:151-165 | the first string is the notebook's line, then one line per own note in order; `PrintIsPreorder` pins the whole output, `PrintLineCount` the count and `PrintIndented` the indentation |
| Render.Block | src/repository/NotesRepository.ts:155-160 | what one notebook prints itself: its line at its depth, then line i is its note i's line, one per own note |
| Render.Levels | src/repository/NotesRepository.ts:151-165 | the pre-order list of (notebook, depth) pairs begins with the root at the given level; `LevelsArePreorder` proves its notebooks are `Preorder`'s, in order |
| Render.LinesAppend | src/repository/NotesRepository.ts:162-164 | the blocks of two consecutive runs of notebooks are the first run's blocks followed by the second's |
| Render.PrintIsPreorder | src/repository/NotesRepository.ts:151-165 | the whole printed tree is exactly the blocks of its notebooks in pre-order, each at its depth: a notebook's line and its notes' lines, then each child's subtree in order |
| Render.PrintChildrenIsPreorder | src/repository/NotesRepository.ts:162-164 | the printed children are exactly the blocks of their subtrees' notebooks in pre-order, child after child |
| Render.LevelsArePreorder | src/repository/NotesRepository.ts:151-165 | the notebooks `Levels` lists are exactly `Preorder`'s, same length and same order |
| Render.LevelsInArePreorder | src/repository/NotesRepository.ts:162-164 | the same, for a list of children |
| Render.PrintChildren | src/repository/NotesRepository.ts:162-164 | at least one string per child, the first being the first child's notebook line at the deeper level; `PrintChildrenIsPreorder` pins every child's subtree in order |
| Render.PrintLineCount | src/repository/NotesRepository.ts:151-165 | the tree makes one `console.log` call per notebook and one per note |
| Render.PrintChildrenLineCount | src/repository/NotesRepository.ts:162-164 | the same, for a list of children |
| Render.PrintIndented | src/repository/NotesRepository.ts:151-165 | every string logged for a subtree printed at a level starts with that level's indentation |
| Render.PrintChildrenIndented | src/repository/NotesRepository.ts:162-164 | the same, for a list of children |
| Render.IndentGrows | src/repository/NotesRepository.ts:155-163 | a deeper indentation starts with the shallower one |
| Render.NotesSection | src/repository/NotesRepository.ts:175-182 | with no notes, exactly `"  (no notes)"`; otherwise one string per own note, string i being `"  * "`, note i's title, and its id in parentheses |
| Render.ChildrenSection | src/repository/NotesRepository.ts:184-191 | with no children, exactly `"  (no sub-notebooks)"`; otherwise one string per direct child only, string i being `"  - "`, child i's name, and its id in parentheses |
| Render.OpenNotebook | src/repository/NotesRepository.ts:167-193 | an unknown id logs only the not-found error; otherwise nothing goes to standard error, and the output is the header, `"Notes:"`, the notes section, `"\nChild notebooks:"`, the children section and `""`, in that order |
| Render.OpenedLines | src/repository/NotesRepository.ts:174-192 | a found notebook's output has 4 strings plus its two sections; it starts with the header and `"Notes:"`, has `"\nChild notebooks:"` right after the notes section and ends with `""` |
| Render.OpenedLinesLayout | src/repository/NotesRepository.ts:174-192 | in a found notebook's output, note i's string is at position 2 + i and direct child j's at position 3 + (size of the notes section) + j |
| Render.OpenNotebookShowsFirstMatch | src/repository/NotesRepository.ts:167-193 | no error iff some notebook in the tree has the id; then the header names the first such notebook in pre-order, and its notes and direct children appear at fixed positions |
| Revive.ReviveNotebook | src/repository/NotesRepository.ts:48-57 | id and name are kept; a missing note or child list becomes empty; the lists keep their lengths; note i is a new note with the stored id, title and content, stamped `now` |
| Revive.ReviveNote | src/repository/NotesRepository.ts:51 | `new Note(n.id, n.title, n.content)` keeps the stored id, title and content and stamps both times with the load time |
| Revive.SaveNote | src/repository/NotesRepository.ts:59-63 | the stored record of a note holds its id, title, content and both stamps |
| Revive.SaveNotebook | src/repository/NotesRepository.ts:59-63 | the stored record of a notebook holds its id and name, and both lists, present, with note i stored as `SaveNote` of note i |
| Revive.StampedAtAllNotes | src/repository/NotesRepository.ts:48-57 | in a tree stamped at a time, every note anywhere in it has both stamps equal to that time |
| Revive.StampedAtAllNotesIn | src/repository/NotesRepository.ts:53-55 | the same, for a list of children |
| Revive.ReloadKeepsTree | src/repository/NotesRepository.ts:48-63 | saving and reviving keeps shape, ids, names, titles and contents, and stamps every note with the reload time |
| Revive.ReloadChangesOlderStamps | src/repository/NotesRepository.ts:48-57 | a tree with a note, anywhere in it, created at a time other than the reload time does not come back equal |
| Revive.ReviveNoteKeepingStamps | src/repository/NotesRepository.ts:51 | a note rebuilt with its stored stamps saves back to the same record |
| Revive.ReviveNotebookKeepingStamps | src/repository/NotesRepository.ts:48-57 | id and name are kept; missing lists become empty; the lists keep their lengths; note i saves back to stored record i |
| Revive.ReloadKeepingStampsRoundTrip | src/repository/NotesRepository.ts:48-63 | with stored stamps read back, saving and reviving gives back exactly the saved tree |
| Revive.Completed | src/repository/NotesRepository.ts:50-53 | a stored record with every list present; id and name are kept |
| Revive.ReviveKeepingStampsIsComplete | src/repository/NotesRepository.ts:48-57 | for every stored record, saving what the corrected revival builds gives the record with missing lists at any depth read as empty, with all other fields intact |
| Revive.ReviveAgrees | src/repository/NotesRepository.ts:48-57 | for every stored record, the original revival matches the corrected one in shape, ids, names, titles and contents at every depth, and stamps every note with the load time |
| Repository.NotesRepository.constructor | src/repository/NotesRepository.ts:22-24 | the repository holds the given root |
| Repository.NotesRepository.CreateNotebook | src/repository/NotesRepository.ts:86-101 | on an error, returns it and leaves the root unchanged; on success, returns the new notebook and holds `Operations.CreateNotebook`'s new root; with a fresh id, unique ids stay unique |
| Repository.NotesRepository.CreateNote | src/repository/NotesRepository.ts:103-121 | on an error, returns it and leaves the root unchanged; on success, returns the new note and holds `Operations.CreateNote`'s new root; with a fresh id, unique ids stay unique |
| Repository.NotesRepository.UpdateNote | src/repository/NotesRepository.ts:141-148 | on `NoteNotFound`, leaves the root unchanged; on success, holds `Operations.UpdateNote`'s tree; the ids are never changed |
| Repository.NotesRepository.SearchNotes | src/repository/NotesRepository.ts:197-215 | returns every note of the tree, in pre-order, whose lower-cased title or content includes the lower-cased keyword |
| Findings.Decimal | src/repository/NotesRepository.ts:95 | `${n}` is n's decimal digits: at least one, all digits, the last one n's last decimal digit, a single digit iff n < 10, and otherwise the digits of n / 10 before it |
| Findings.DigitChar | src/repository/NotesRepository.ts:95 | the digit character for d < 10 is `'0'` plus d |
| Findings.DecimalInjective | src/repository/NotesRepository.ts:95 | different clock readings have different decimal renderings |
| Findings.ClockNotebookId | src/repository/NotesRepository.ts:95 | the notebook id is `notebook-` followed by the decimal digits of the clock reading |
| Findings.CreateNotebookAsWritten | src/repository/NotesRepository.ts:94-97 | a created notebook's id is `notebook-` followed by the clock reading |
| Findings.ClockNoteId | src/repository/NotesRepository.ts:117 | the note id is `note-` followed by the decimal digits of the clock reading |
| Findings.CreateNoteAsWritten | src/repository/NotesRepository.ts:117 | a created note's id is `note-` followed by the clock reading, and, under the model's single clock reading, its creation stamp is that reading |
| Findings.SameTickNotebooksCollide | src/repository/NotesRepository.ts:94-98 | two valid creations under one parent at one clock reading both succeed with the same id, so the tree's ids are no longer unique |
| Findings.SameTickNotesCollide | src/repository/NotesRepository.ts:117-118 | two valid note creations in one notebook at one clock reading both succeed with the same id, so the tree's ids are no longer unique |
| Findings.DistinctTicksDistinctIds | src/repository/NotesRepository.ts:94-117 | ids made at different clock readings differ, so the collisions above need two creations within one millisecond |

## Left out

- `load` and `save`: reading and writing `data/notes.json`, creating the data directory, the default root `("root", "Root")` when the file is missing, and rethrowing other errors. These are file I/O. `Revive` models the record they exchange, but not the JSON text.
- Asynchrony: every operation is modelled as running to completion. Interleaved calls are not modelled.
- `getRootNotebook` returns the object itself. Callers that mutate it through that alias are not modelled.
- Object identity and aliasing. The repository's tree is a value (`NotebookData`), while the `Note` and `Notebook` classes are modelled on their own. A `Note` object shared by two notebooks, and mutation through that sharing, is not modelled.
- `Date.now()` for identifiers is the parameter `newId`, outside `Findings`.
- Each `new Date()` call is the single clock reading `now`. `createdAt` and `updatedAt` of a new note can in fact differ by a millisecond. In `Findings.CreateNoteAsWritten` the one `clock` also stands for the `Date.now()` that builds the id (src/repository/NotesRepository.ts:117) and for the constructor's `new Date()` calls (src/models/Note.ts:13-14); these are separate readings, so "the creation stamp is the id's reading" holds of the model and not necessarily of the program.
- `Models.Note.UpdateContent` does not promise that the update time is strictly later than before. It only sets it to `now`, because the clock is a parameter.
- `Text.ToLower` lower-cases ASCII letters only. JavaScript's `toLowerCase` also maps non-ASCII letters by full Unicode case mapping.
- Strings are sequences of characters. UTF-16 code units, surrogate pairs and normalisation are not modelled.
- `Render`: the console is modelled as the list of strings passed to `console.log` / `console.error`, one per call. A string starting with `"\n"` (the `openNotebook` header and `"\nChild notebooks:"`) prints two lines, so counts are counts of calls. The actual writes to standard output and standard error are not modelled.
- Error messages: `Result` carries the error kind, not the message text that the command-line front end prints for a thrown error. The only message the repository itself prints, in `openNotebook`, is modelled in full.
- `src/cli.ts` and `src/index.ts` (argument parsing, process exit codes) are not part of this model.

## Findings

| source | as written | input that shows it | evidently intended | confidence | as-written member | corrected member |
|---|---|---|---|---|---|---|
| src/repository/NotesRepository.ts:94-117 | ids are `notebook-${Date.now()}` / `note-${Date.now()}`, with no uniqueness check | two `createNotebook(p, "a")`, `createNotebook(p, "b")` calls within one millisecond both succeed and give both notebooks the same id; `findNotebookById` can then reach only the first | every notebook and note id in the tree is unique | not executed | Findings.SameTickNotebooksCollide | Operations.CreateNotebookKeepsIdsUnique |
| src/repository/NotesRepository.ts:51 | `reviveNotebook` rebuilds notes with `new Note(id, title, content)`, which stamps the current time | save a tree with a note created at time 5, reload at time 6: that note comes back with `createdAt` 6 | a reload gives back the saved tree, time stamps included | not executed | Revive.ReloadChangesOlderStamps | Revive.ReloadKeepingStampsRoundTrip |

# NotesApp note store in Dafny

NotesApp is an Android notes application. Its persistence layer,
`DatabaseHelper`, keeps notes, tags and the links between them in three SQLite
tables:

- `notes(id INTEGER PRIMARY KEY, title, text, date)`
- `tags(tag_id INTEGER PRIMARY KEY, tag_name TEXT UNIQUE)`
- `note_tags(note_id, tag_id)`, which has no key. Its foreign keys are declared
  but SQLite does not enforce them.

This project models that helper.

- `wrappers.dfy` holds `Option`, for the helper's nullable results, and
  `Outcome`, for a write that may fail.
- `tables.dfy` (module `Tables`) holds the three tables as values. The notes
  table and the tags table are maps keyed by their integer primary key. The link
  table is a sequence in scan order. Each SQL statement the helper issues is a
  function on these values:
  - lookups by id and by name;
  - the inner join behind `getTagsForNoteId`;
  - the two `DELETE`s and the `UPDATE` on `note_tags`;
  - the link rows `saveNote`/`updateNote` insert;
  - the `UPDATE` that renames a tag.
- `table_lemmas.dfy` (module `TableLemmas`) proves what these statements do to a
  note's link rows and tag names, and when the UNIQUE constraint on tag names
  rejects a write.
- `database_helper.dfy` (module `DatabaseHelper`) holds the helper itself. The
  class `NoteStore` has the three tables as fields, and one method per operation
  updates them in place.
  - Each method's postcondition states the new tables in terms of the `Tables`
    functions and the old tables.
  - `Valid()` is the invariant every operation keeps:
    - each note row sits under its own id;
    - ids are positive;
    - tag names are unique;
    - every link names an existing tag.
  - Links to missing notes remain possible, as in the application.

A new row's id follows SQLite's rule for an `INTEGER PRIMARY KEY` inserted
without one: one more than the largest id in use, or 1 in an empty table. A
tag insert whose name is already taken breaks the UNIQUE constraint. SQLite then
rejects it, `saveTag` only logs the failure, and no table changes. A rename that
breaks the constraint raises inside `updateTagName`'s transaction. The
transaction then rolls back and the failure reaches the caller, which the model
returns as `Fail(ConstraintViolation)`.

## Model

| member | source | states |
|---|---|---|
| Tables.NoteOf | app/src/main/java/com/example/notesapp/DatabaseHelper.kt:233-254 | `getNoteById` finds a note exactly when a row has the id, and the note it returns carries that id and is a stored row |
| Tables.TagIdOf | app/src/main/java/com/example/notesapp/DatabaseHelper.kt:103-119 | `getTagIdByName` returns an id exactly when some tag has the name, and then it is the id of the row carrying that name |
| Tables.TagNameOf | app/src/main/java/com/example/notesapp/DatabaseHelper.kt:135-151 | `getTagNameById` returns a name exactly for an existing id, and looking that name up again gives back the id |
| TableLemmas.TagLookupsInverse | app/src/main/java/com/example/notesapp/DatabaseHelper.kt:103-151 | the two tag lookups are inverse to each other in both directions: name→id succeeds with `id` iff id→name succeeds with `name` |
| Tables.DeleteLinks | app/src/main/java/com/example/notesapp/DatabaseHelper.kt:178-195 | `DELETE FROM note_tags WHERE note_id = ?` (line 178) and `… WHERE tag_id = ?` (line 195): the rows kept are exactly those whose tested column holds another value, and no row is added |
| Tables.RetargetLinks | app/src/main/java/com/example/notesapp/DatabaseHelper.kt:276-279 | re-pointing the links of one tag id to another keeps the number and order of rows; each row on the old id becomes a row of the same note on the new id, every other row is unchanged, and no row is left on the old id unless both ids are the same |
| Tables.RenameRows | app/src/main/java/com/example/notesapp/DatabaseHelper.kt:267-270 | renaming by name keeps every tag id. The old name disappears unless it equals the new one. The new name is present whenever the old one was. Rows with other names are unchanged |
| TableLemmas.LinkedRows | app/src/main/java/com/example/notesapp/DatabaseHelper.kt:74-79 | the i-th link row inserted for a note belongs to that note and points at the tag row named by the i-th requested name |
| TableLemmas.LinksOfMembers | app/src/main/java/com/example/notesapp/DatabaseHelper.kt:156-159 | selecting a note's link rows yields exactly the rows of `note_tags` whose `note_id` is that note |
| TableLemmas.TagNamesExist | app/src/main/java/com/example/notesapp/DatabaseHelper.kt:156-159 | the inner join only reports names that some tag row carries |
| TableLemmas.TagNamesCount | app/src/main/java/com/example/notesapp/DatabaseHelper.kt:152-173 | when every link names an existing tag, the join reports one name per link row of the note |
| TableLemmas.NoLinksNoNames | app/src/main/java/com/example/notesapp/DatabaseHelper.kt:152-173 | a note with no link rows has no tag names |
| TableLemmas.InsertCollision | app/src/main/java/com/example/notesapp/DatabaseHelper.kt:89-101 | inserting a tag under a fresh id breaks the UNIQUE constraint on `tag_name` if and only if the name is already taken |
| TableLemmas.RenameCollision | app/src/main/java/com/example/notesapp/DatabaseHelper.kt:263-288 | the rename breaks the UNIQUE constraint if and only if both names are taken and they differ |
| TableLemmas.RenameKeepsId | app/src/main/java/com/example/notesapp/DatabaseHelper.kt:270-275 | after a rename that keeps names unique, the new name resolves to the id the old name had, and the old name (if different) resolves to nothing |
| TableLemmas.RetargetSelf | app/src/main/java/com/example/notesapp/DatabaseHelper.kt:272-280 | re-pointing links from a tag id to itself changes no row. `updateTagName` reaches the link update after a committed rename only when the two names are equal (for different names the old name no longer resolves and the update is skipped), and then it re-points the tag to itself |
| TableLemmas.RenamedTagNames | app/src/main/java/com/example/notesapp/DatabaseHelper.kt:263-288 | after the rename every note reports the new name wherever it reported the old one, and all other names as before, in the same order |
| TableLemmas.DeletedTagNames | app/src/main/java/com/example/notesapp/DatabaseHelper.kt:185-202 | deleting a tag's links and then its row removes exactly that name from every note's tag names and keeps the rest in order |
| TableLemmas.RemoveNameCounts | app/src/main/java/com/example/notesapp/DatabaseHelper.kt:185-202 | the names left after deleting a tag hold no occurrence of it, and every other name as often as before |
| TableLemmas.RemoveAbsentName | app/src/main/java/com/example/notesapp/DatabaseHelper.kt:189-190 | removing a name that no note reports changes no note's tag names |
| TableLemmas.LinkedStable | app/src/main/java/com/example/notesapp/DatabaseHelper.kt:68-72 | creating further tags keeps every existing name on its id, so the link rows built for names that already existed do not change |
| TableLemmas.TagNamesStable | app/src/main/java/com/example/notesapp/DatabaseHelper.kt:68-72 | creating further tags does not change the names any note reports while every link names an existing tag |
| TableLemmas.LookupOrCreateStep | app/src/main/java/com/example/notesapp/DatabaseHelper.kt:68-72 | one lookup-or-create step keeps the old tag rows and adds at most a row carrying a new requested name, and every name looked up so far then has a row |
| TableLemmas.LinkedStep | app/src/main/java/com/example/notesapp/DatabaseHelper.kt:68-79 | after that step the rows for the names so far are the earlier rows followed by one row to the tag found |
| TableLemmas.DeleteNoteLinksEffect | app/src/main/java/com/example/notesapp/DatabaseHelper.kt:178 | after deleting a note's links the note has none and every other note keeps exactly its links |
| TableLemmas.DeleteAbsentNoteLinks | app/src/main/java/com/example/notesapp/DatabaseHelper.kt:178 | deleting the links of a note that has none leaves `note_tags` unchanged |
| TableLemmas.DeleteLinksCounts | app/src/main/java/com/example/notesapp/DatabaseHelper.kt:178-195 | `note_tags` has no key, so a row may occur several times; either `DELETE` keeps every copy of a row it does not match and no copy of a row it matches |
| TableLemmas.DeleteNoteLinksIdempotent | app/src/main/java/com/example/notesapp/DatabaseHelper.kt:174-184 | deleting a note's links twice is the same as deleting them once |
| TableLemmas.LinkedLinksOf | app/src/main/java/com/example/notesapp/DatabaseHelper.kt:74-79 | the rows inserted for a note are all that note's and none of any other note's |
| TableLemmas.InsertEffect | app/src/main/java/com/example/notesapp/DatabaseHelper.kt:68-83 | appending a note's new rows extends that note's links by exactly those rows and leaves every other note's links as they were, and a note that had no links before then reports exactly the requested names |
| TableLemmas.LinkedNamesRoundTrip | app/src/main/java/com/example/notesapp/DatabaseHelper.kt:152-173 | round trip: the join over the rows inserted for a list of names reports that list again, same order and repetitions |
| TableLemmas.ReplaceLinksEffect | app/src/main/java/com/example/notesapp/DatabaseHelper.kt:213-229 | deleting a note's links and inserting rows for `names` leaves the note with exactly those rows and names, other notes untouched |
| TableLemmas.NoLinksForMissingNote | app/src/main/java/com/example/notesapp/DatabaseHelper.kt:35-39 | while every link refers to an existing note, an id without a note row has no links |
| DatabaseHelper.NextRowId | app/src/main/java/com/example/notesapp/DatabaseHelper.kt:60 | the id an insert is given is positive, unused and above every id in use; it is 1 in an empty table and otherwise one more than the largest id |
| DatabaseHelper.NoteStore.constructor | app/src/main/java/com/example/notesapp/DatabaseHelper.kt:25-41 | `onCreate` yields the three tables, empty, satisfying the invariant |
| DatabaseHelper.NoteStore.OnUpgrade | app/src/main/java/com/example/notesapp/DatabaseHelper.kt:43-48 | `onUpgrade` drops and recreates the tables: all three are empty afterwards |
| DatabaseHelper.NoteStore.SaveTag | app/src/main/java/com/example/notesapp/DatabaseHelper.kt:89-101 | `saveTag` fails, changing nothing, iff the name is taken; otherwise it adds exactly one row under a fresh id; notes and links never change |
| DatabaseHelper.NoteStore.LookupOrCreateTag | app/src/main/java/com/example/notesapp/DatabaseHelper.kt:69-72 | the lookup-or-create always yields the id of the tag carrying the name; tags change only when the name was absent, by exactly that one row |
| DatabaseHelper.NoteStore.LinkTagName | app/src/main/java/com/example/notesapp/DatabaseHelper.kt:68-83 | one pass of the loop appends exactly one link row, from the note to the tag named, and extends the rows built so far by it |
| DatabaseHelper.NoteStore.LinkTagNames | app/src/main/java/com/example/notesapp/DatabaseHelper.kt:68-83 | the loop appends one link row per requested name, in order, creates only tags for names that were absent, and leaves notes unchanged |
| DatabaseHelper.NoteStore.SaveNote | app/src/main/java/com/example/notesapp/DatabaseHelper.kt:51-86 | `saveNote` adds the note under a fresh id (1 in an empty table) that `getNoteById` then finds, keeps every earlier row, appends one link per tag name and leaves other notes' links unchanged; while no link dangles, the note then reports exactly its tag names |
| DatabaseHelper.NoteStore.UpdateNote | app/src/main/java/com/example/notesapp/DatabaseHelper.kt:203-231 | `updateNote` overwrites an existing note's fields, never creates a note row, replaces (does not merge) the note's links so it reports exactly `tagNames`, leaves other notes' links alone, and on a missing note with tags leaves dangling links |
| DatabaseHelper.NoteStore.DeleteNoteById | app/src/main/java/com/example/notesapp/DatabaseHelper.kt:174-184 | `deleteNoteById` removes the note and its links, leaves tags and other notes' links as they were, and keeps "every link refers to an existing note" when it held before. Deleting a missing id changes nothing when that id has no links, and so for every missing id while no link refers to a missing note. The model's `updateNote` can leave links for a missing id, and this method then deletes them |
| DatabaseHelper.NoteStore.DeleteTagByName | app/src/main/java/com/example/notesapp/DatabaseHelper.kt:185-202 | `deleteTagByName` removes the named tag's row and links (nothing when absent), never touches notes, and every note loses exactly that name from its tags |
| DatabaseHelper.NoteStore.UpdateTagName | app/src/main/java/com/example/notesapp/DatabaseHelper.kt:263-288 | `updateTagName` fails, with every table unchanged, iff both names are taken and differ; otherwise ids and links stay, the new name resolves to the old id, and every note reports the new name in place of the old |
| DatabaseHelper.NoteStore.GetAllTags | app/src/main/java/com/example/notesapp/DatabaseHelper.kt:121-134 | `getAllTags` returns every tag name exactly once: as many names as rows, each a stored name, no repeats |
| DatabaseHelper.NoteStore.GetTagsForNoteId | app/src/main/java/com/example/notesapp/DatabaseHelper.kt:152-173 | `getTagsForNoteId` returns the names of the inner join in link order, one per link row of the note |
| DatabaseHelper.NoteStore.UpdateExistingNote | app/src/main/java/com/example/notesapp/DatabaseHelper.kt:203-231 | corrected `updateNote`: a missing note changes nothing; for an existing one the note row is overwritten, the tag table only gains rows for requested names that were absent, the note's links are replaced by the rows for the names and it reports exactly those names, and no link to a missing note is ever created |
| DatabaseHelper.AdoptedLinksScenario | app/src/main/java/com/example/notesapp/DatabaseHelper.kt:211-225 | `saveTag("errands")` and `updateNote(1, …, ["errands"])` on an empty store, then `saveNote` of a note without tags: the new note gets id 1 and reports the tag `errands` |
| DatabaseHelper.CheckedUpdateScenario | app/src/main/java/com/example/notesapp/DatabaseHelper.kt:203-231 | the same calls with the corrected update: the new note reports no tag |
| DatabaseHelper.GroceriesScenario | app/src/main/java/com/example/notesapp/DatabaseHelper.kt:51-202 | end to end: `saveNote` of "Groceries" with tags `home` and `errands` on an empty store is read back by `getNoteById` as note 1 and reports `["home", "errands"]`; after `deleteTagByName("home")` it reports `["errands"]`, and `getAllTags` lists `errands` but not `home` |

## Findings

| source | as written | input that shows it | evidently intended | confidence | as-written member | corrected member |
|---|---|---|---|---|---|---|
| app/src/main/java/com/example/notesapp/DatabaseHelper.kt:211-225 | `updateNote` updates zero note rows for an id that has no note, but still deletes and inserts that id's link rows, leaving links to a note that does not exist | empty store; `saveTag("errands")`; `updateNote(1, "Draft", "", "2024-03-01", ["errands"])`; `saveNote("Groceries", …, [])` is given id 1 and `getTagsForNoteId(1)` returns `["errands"]` | links only ever refer to existing notes (the reason `deleteNoteById` deletes links before the note), so an update of a missing note changes nothing | medium, not executed | DatabaseHelper.AdoptedLinksScenario | DatabaseHelper.NoteStore.UpdateExistingNote |

`DatabaseHelper.NoteStore.UpdateNote` models the code as written. Its last
postcondition states that a missing note with at least one tag name leaves a
link to a missing note. `DatabaseHelper.CheckedUpdateScenario` shows the
corrected behaviour on the same input.

## Left out

- The Android user interface, the activities and `MainActivity`'s search by tag
  are not part of this model. Only `DatabaseHelper` is.
- Handle lifecycle is not modelled: opening and closing the database in every
  call, cursors and column-index checks. Every statement is taken to reach the
  same database. In particular the model does not capture what `saveTag`'s
  `db.close()` does to the handle the `saveNote`/`updateNote` loop keeps using.
  For a name that has no tag yet, the loop calls `saveTag`. In the source that
  call creates the tag row but closes the handle, so the link insert that
  follows (line 78 or 225) throws. The model links every name. The app's
  screens avoid this path by saving new tags before saving or updating the
  note. `GroceriesScenario`, which saves a note with two new tags, relies on
  this abstraction.
- Logging is left out. Each `Log.e`/`Log.i` branch is modelled only by its
  effect on the tables.
- Storage failures are left out. An insert that SQLite rejects for a reason
  other than the UNIQUE constraint (disk full, I/O error) is not modelled, so
  the early return on a failed note insert and the "Failed to get or create
  tag" branch are never taken.
- DatabaseHelper.NextRowId: models the rowid rule only below the largest 64-bit
  rowid. SQLite's random choice of a free id after 2^63-1 is left out, because
  ids are unbounded integers here.
- Ids are Kotlin `Int` in the helper's signatures and SQLite 64-bit integers in
  the tables. The model uses unbounded integers, so no truncation of large ids
  is modelled.
- DatabaseHelper.NoteStore.GetAllTags: does not state the order of the names.
  A plain table scan in SQLite usually returns rows by ascending `tag_id`, but
  the SQL text does not promise it.
- DatabaseHelper.NoteStore.GetTagsForNoteId: fixes the order of the join's
  result to the scan order of `note_tags`. SQLite's query plan may return
  another order, and the model does not capture that.
- Transactions are all-or-nothing only. `updateTagName`'s transaction is modelled
  by computing the new tables and committing them only when the UNIQUE
  constraint holds. Concurrency and other connections are left out.
- `onUpgrade`'s version numbers are not modelled, since the tables are
  recreated whatever they are.
- DatabaseHelper.NoteStore.SaveNote: states that the note reports exactly its
  tag names only when no link refers to a missing note beforehand. As the
  finding above shows, `updateNote` can leave links that a later `saveNote`
  adopts.

/**
 * The three tables of the notes database as values, and the SQL statements
 * the note store issues against them as functions on those values.
 *
 *   notes(id INTEGER PRIMARY KEY, title TEXT, text TEXT, date TEXT)
 *   tags(tag_id INTEGER PRIMARY KEY, tag_name TEXT UNIQUE)
 *   note_tags(note_id INTEGER, tag_id INTEGER)   -- no key, foreign keys not enforced
 */
module Tables {
  import opened Wrappers

  /** A row of `notes`; also the record `getNoteById` returns. */
  datatype Note = Note(id: int, title: string, text: string, date: string)

  /** A row of `note_tags`. The table has no key, so equal rows may occur more than once. */
  datatype NoteTag = NoteTag(noteId: int, tagId: int)

  /** `notes`, keyed by its integer primary key. */
  type NoteTable = map<int, Note>

  /** `tags`, from `tag_id` to `tag_name`. */
  type TagTable = map<int, string>

  /** `note_tags`, in scan order. */
  type LinkTable = seq<NoteTag>

  /** Every note row is stored under its own id. */
  ghost predicate KeyedById(notes: NoteTable) {
    forall id :: id in notes ==> notes[id].id == id
  }

  /** The UNIQUE constraint on `tags.tag_name`: no two rows share a name. */
  predicate UniqueNames(tags: TagTable) {
    forall a, b :: a in tags && b in tags && a != b ==> tags[a] != tags[b]
  }

  /** Every link row refers to an existing tag row. */
  ghost predicate LinksHaveTags(tags: TagTable, links: LinkTable) {
    forall l :: l in links ==> l.tagId in tags
  }

  /** Every link row refers to an existing note row (SQLite does not enforce this). */
  ghost predicate LinksHaveNotes(notes: NoteTable, links: LinkTable) {
    forall l :: l in links ==> l.noteId in notes
  }

  /** `tags` after a series of lookup-or-create steps for `names`: the old rows
      are kept as they were, and every new row carries one of `names` that no old
      row had. */
  ghost predicate GrownBy(before: TagTable, after: TagTable, names: seq<string>) {
    && (forall id :: id in before ==> id in after && after[id] == before[id])
    && (forall id :: id in after && id !in before ==> after[id] in names && after[id] !in before.Values)
  }

  // ---------------------------------------------------------------- queries

  /** `SELECT * FROM notes WHERE id = ?`: the note stored under `id`, if any. */
  function NoteOf(notes: NoteTable, id: int): (r: Option<Note>)
    requires KeyedById(notes)
    ensures r.Some? <==> id in notes
    ensures r.Some? ==> r.value.id == id && r.value in notes.Values
  {
    if id in notes then Some(notes[id]) else None
  }

  /** `SELECT tag_id FROM tags WHERE tag_name = ?`: present exactly when a row
      carries that name, and then it is that row's id. */
  function TagIdOf(tags: TagTable, name: string): (r: Option<int>)
    requires UniqueNames(tags)
    ensures r.Some? <==> name in tags.Values
    ensures r.Some? ==> r.value in tags && tags[r.value] == name
  {
    if exists id :: id in tags && tags[id] == name then
      var id :| id in tags && tags[id] == name; Some(id)
    else
      None
  }

  /** `SELECT tag_name FROM tags WHERE tag_id = ?`: present exactly for an
      existing id, and then the name that looks the same id up again. */
  function TagNameOf(tags: TagTable, id: int): (r: Option<string>)
    requires UniqueNames(tags)
    ensures r.Some? <==> id in tags
    ensures r.Some? ==> TagIdOf(tags, r.value) == Some(id)
  {
    if id in tags then Some(tags[id]) else None
  }

  /** The link rows of one note, in scan order: the `note_tags` side of the join's
      `WHERE note_tags.note_id = ?` in `getTagsForNoteId`. Used to state what the
      writes do to each note; the helper issues no such query on its own. */
  function LinksOf(links: LinkTable, noteId: int): (r: LinkTable)
  {
    if links == [] then []
    else
      var last := links[|links| - 1];
      LinksOf(links[..|links| - 1], noteId) + (if last.noteId == noteId then [last] else [])
  }

  /** The names `getTagsForNoteId` collects:
      `SELECT tag_name FROM tags INNER JOIN note_tags ON tags.tag_id = note_tags.tag_id
       WHERE note_tags.note_id = ?`, in the scan order of `note_tags`. A link whose
      tag row is missing drops out of the inner join. */
  function TagNamesOf(links: LinkTable, tags: TagTable, noteId: int): (r: seq<string>)
  {
    if links == [] then []
    else
      var last := links[|links| - 1];
      TagNamesOf(links[..|links| - 1], tags, noteId)
        + (if last.noteId == noteId && last.tagId in tags then [tags[last.tagId]] else [])
  }

  // ------------------------------------------------------ link-table writes

  /** The column a `DELETE FROM note_tags WHERE <column> = ?` tests. */
  datatype LinkColumn = NoteIdColumn | TagIdColumn

  /** The value of `column` in link row `l`. */
  function ColumnOf(l: NoteTag, column: LinkColumn): int {
    match column
    case NoteIdColumn => l.noteId
    case TagIdColumn => l.tagId
  }

  /** `DELETE FROM note_tags WHERE column = value`: keeps exactly the rows whose
      `column` holds another value, in scan order. */
  function DeleteLinks(links: LinkTable, column: LinkColumn, value: int): (r: LinkTable)
    ensures forall l :: l in r <==> l in links && ColumnOf(l, column) != value
    ensures |r| <= |links|
  {
    if links == [] then []
    else
      var last := links[|links| - 1];
      assert links == links[..|links| - 1] + [last];
      DeleteLinks(links[..|links| - 1], column, value) + (if ColumnOf(last, column) != value then [last] else [])
  }

  /** `DELETE FROM note_tags WHERE note_id = ?`. */
  function DeleteNoteLinks(links: LinkTable, noteId: int): LinkTable {
    DeleteLinks(links, NoteIdColumn, noteId)
  }

  /** `DELETE FROM note_tags WHERE tag_id = ?`. */
  function DeleteTagLinks(links: LinkTable, tagId: int): LinkTable {
    DeleteLinks(links, TagIdColumn, tagId)
  }

  /** `UPDATE note_tags SET tag_id = target WHERE tag_id = source`: same number of
      rows in the same order, each row on `source` moved to `target` for the same
      note, every other row unchanged, and none left on `source` unless it is `target`. */
  function RetargetLinks(links: LinkTable, source: int, target: int): (r: LinkTable)
    ensures |r| == |links|
    ensures forall i :: 0 <= i < |r| ==>
              r[i] == (if links[i].tagId == source then NoteTag(links[i].noteId, target) else links[i])
    ensures forall l :: l in r ==> l.tagId != source || source == target
  {
    if links == [] then []
    else
      var last := links[|links| - 1];
      var moved := if last.tagId == source then NoteTag(last.noteId, target) else last;
      RetargetLinks(links[..|links| - 1], source, target) + [moved]
  }

  /** The rows `saveNote` and `updateNote` insert into `note_tags`: one per entry
      of `names`, in order, each pointing at the tag row of that name. */
  function Linked(tags: TagTable, noteId: int, names: seq<string>): (r: LinkTable)
    requires UniqueNames(tags)
    requires forall n :: n in names ==> n in tags.Values
    ensures |r| == |names|
  {
    if names == [] then []
    else
      var init := names[..|names| - 1];
      assert forall n :: n in init ==> n in names;
      Linked(tags, noteId, init) + [NoteTag(noteId, TagIdOf(tags, names[|names| - 1]).value)]
  }

  // ------------------------------------------------------- tag-table writes

  /** `UPDATE tags SET tag_name = newName WHERE tag_name = oldName`, before the
      UNIQUE constraint is checked: ids are kept, the old name is gone unless it
      is also the new one, and the new name is present if the old one was. */
  function RenameRows(tags: TagTable, oldName: string, newName: string): (r: TagTable)
    ensures r.Keys == tags.Keys
    ensures oldName != newName ==> oldName !in r.Values
    ensures oldName in tags.Values ==> newName in r.Values
    ensures forall id :: id in tags && tags[id] != oldName ==> r[id] == tags[id]
  {
    map id | id in tags :: if tags[id] == oldName then newName else tags[id]
  }

  // ------------------------------------------------ name lists (for lemmas)

  /** `names` with every `oldName` reported as `newName`. */
  function ReplaceName(names: seq<string>, oldName: string, newName: string): seq<string>
  {
    if names == [] then []
    else
      var last := names[|names| - 1];
      ReplaceName(names[..|names| - 1], oldName, newName) + [if last == oldName then newName else last]
  }

  /** `names` without any occurrence of `name`. */
  function RemoveName(names: seq<string>, name: string): seq<string>
  {
    if names == [] then []
    else
      var last := names[|names| - 1];
      RemoveName(names[..|names| - 1], name) + (if last == name then [] else [last])
  }
}

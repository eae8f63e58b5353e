/**
 * The note store: the three tables of the notes database held as fields of one
 * object, and the helper's operations, which change them in place.
 */
module DatabaseHelper {
  import opened Wrappers
  import opened Tables
  import opened TableLemmas

  /** The failure raised when a write breaks the UNIQUE constraint on tag names. */
  datatype StoreError = ConstraintViolation

  /** A non-empty set of ids has a member to pick. */
  lemma SomeRowId(ids: set<int>)
    requires ids != {}
    ensures exists id :: id in ids
  {
    if forall id :: id !in ids {
      assert false;
    }
  }

  /** The id SQLite gives a row inserted without one into a table whose key is an
      INTEGER PRIMARY KEY: one more than the largest id in use, 1 for an empty table. */
  method NextRowId(ids: set<int>) returns (id: int)
    ensures id >= 1 && id !in ids
    ensures forall k :: k in ids ==> k < id
    ensures (forall k :: k in ids ==> k >= 1) ==> if ids == {} then id == 1 else id - 1 in ids
  {
    var top := 0;
    var rest := ids;
    while rest != {}
      invariant rest <= ids
      invariant top >= 0
      invariant top == 0 || top in ids
      invariant forall k :: k in ids && k !in rest ==> k <= top
      decreases |rest|
    {
      SomeRowId(rest);
      var k :| k in rest;
      if k > top {
        top := k;
      }
      rest := rest - {k};
    }
    id := top + 1;
  }

  /** The notes database: `notes`, `tags` and `note_tags`. */
  class NoteStore {
    var notes: NoteTable
    var tags: TagTable
    var links: LinkTable

    /** What every operation keeps: note rows sit under their own id, ids are the
        positive ones SQLite hands out, tag names are unique, and every link names
        an existing tag. Links to missing notes are possible (see UpdateNote). */
    ghost predicate Valid()
      reads this
    {
      && KeyedById(notes)
      && (forall id :: id in notes ==> id >= 1)
      && (forall id :: id in tags ==> id >= 1)
      && UniqueNames(tags)
      && LinksHaveTags(tags, links)
    }

    /** `onCreate`: the three tables, empty. */
    constructor ()
      ensures Valid()
      ensures notes == map[] && tags == map[] && links == []
    {
      notes, tags, links := map[], map[], [];
    }

    /** `onUpgrade`: drop the three tables and create them again, empty. */
    method OnUpgrade()
      modifies this
      ensures Valid()
      ensures notes == map[] && tags == map[] && links == []
    {
      notes, tags, links := map[], map[], [];
    }

    /** `saveTag`: insert a tag row. A name already present breaks the UNIQUE
        constraint, the insert reports failure (only logged) and nothing changes;
        otherwise exactly one row is added under a fresh id. The row id the insert
        reports is returned. */
    method SaveTag(name: string) returns (rowId: Option<int>)
      requires Valid()
      modifies this
      ensures Valid()
      ensures notes == old(notes) && links == old(links)
      ensures rowId.None? <==> name in old(tags).Values
      ensures rowId.None? ==> tags == old(tags)
      ensures rowId.Some? ==> rowId.value !in old(tags) && tags == old(tags)[rowId.value := name]
    {
      var id := NextRowId(tags.Keys);
      var inserted := tags[id := name];
      InsertCollision(tags, id, name);
      if UniqueNames(inserted) {
        tags := inserted;
        rowId := Some(id);
      } else {
        rowId := None;
      }
    }

    /** The tag lookup `saveNote` and `updateNote` make for each name: look the
        tag up by name and, when it is absent, save it and look it up again. The
        id found is that of the tag carrying the name, and the only row that may
        have been added is that tag's. */
    method LookupOrCreateTag(name: string) returns (tagId: Option<int>)
      requires Valid()
      modifies this
      ensures Valid()
      ensures notes == old(notes) && links == old(links)
      ensures tagId.Some? && tagId.value in tags && tags[tagId.value] == name
      ensures name in old(tags).Values ==> tags == old(tags)
      ensures name !in old(tags).Values ==> tagId.value !in old(tags) && tags == old(tags)[tagId.value := name]
    {
      tagId := TagIdOf(tags, name);
      if tagId.None? {
        var created := SaveTag(name);
        assert tags[created.value] == name;
        tagId := TagIdOf(tags, name);
      }
    }

    /** One pass of that loop: look the tag up or create it, then insert the
        link row from the note to it. Given the tags and links as they stand after
        the passes for `done`, it leaves them as they stand after `done + [name]`. */
    method LinkTagName(noteId: int, name: string, ghost start: TagTable, ghost base: LinkTable, ghost done: seq<string>)
        returns (tagId: int)
      requires Valid()
      requires GrownBy(start, tags, done)
      requires forall n :: n in done ==> n in tags.Values
      requires links == base + Linked(tags, noteId, done)
      modifies this
      ensures Valid()
      ensures notes == old(notes)
      ensures tagId in tags && tags[tagId] == name
      ensures name in old(tags).Values ==> tags == old(tags)
      ensures name !in old(tags).Values ==> tagId !in old(tags) && tags == old(tags)[tagId := name]
      ensures links == old(links) + [NoteTag(noteId, tagId)]
      ensures GrownBy(start, tags, done + [name])
      ensures forall n :: n in done + [name] ==> n in tags.Values
      ensures links == base + Linked(tags, noteId, done + [name])
    {
      ghost var before, linkedBefore := tags, Linked(tags, noteId, done);
      var found := LookupOrCreateTag(name);
      if found.Some? {
        tagId := found.value;
        links := links + [NoteTag(noteId, tagId)];
        LookupOrCreateStep(start, before, tags, done, name, tagId);
        LinkedStep(before, tags, noteId, done, name, tagId);
        AppendRow(base, linkedBefore, NoteTag(noteId, tagId));
      }
    }

    /** The loop `saveNote` and `updateNote` share: for each name, look the tag up,
        create it when absent and look it up again, then insert one link row. */
    method LinkTagNames(noteId: int, tagNames: seq<string>)
      requires Valid()
      modifies this
      ensures Valid()
      ensures notes == old(notes)
      ensures GrownBy(old(tags), tags, tagNames)
      ensures forall n :: n in tagNames ==> n in tags.Values
      ensures links == old(links) + Linked(tags, noteId, tagNames)
    {
      var i := 0;
      while i < |tagNames|
        invariant 0 <= i <= |tagNames|
        invariant Valid()
        invariant notes == old(notes)
        invariant GrownBy(old(tags), tags, tagNames[..i])
        invariant forall n :: n in tagNames[..i] ==> n in tags.Values
        invariant links == old(links) + Linked(tags, noteId, tagNames[..i])
      {
        var tagId := LinkTagName(noteId, tagNames[i], old(tags), old(links), tagNames[..i]);
        PrefixGrows(tagNames, i);
        i := i + 1;
      }
      assert tagNames[..|tagNames|] == tagNames;
    }

    /** `saveNote`: insert the note under a fresh id, then link it to each of
        `tagNames`, creating the tags that do not exist yet. Earlier rows are kept.
        The new id is returned. */
    method SaveNote(title: string, text: string, date: string, tagNames: seq<string>) returns (noteId: int)
      requires Valid()
      modifies this
      ensures Valid()
      ensures noteId !in old(notes) && forall id :: id in old(notes) ==> id < noteId
      ensures old(notes) == map[] ==> noteId == 1
      ensures notes == old(notes)[noteId := Note(noteId, title, text, date)]
      ensures NoteOf(notes, noteId) == Some(Note(noteId, title, text, date))
      ensures GrownBy(old(tags), tags, tagNames)
      ensures forall n :: n in tagNames ==> n in tags.Values
      ensures links == old(links) + Linked(tags, noteId, tagNames)
      ensures LinksOf(links, noteId) == LinksOf(old(links), noteId) + Linked(tags, noteId, tagNames)
      ensures forall other :: other != noteId ==> LinksOf(links, other) == LinksOf(old(links), other)
      ensures old(LinksHaveNotes(notes, links)) ==>
                LinksHaveNotes(notes, links) && TagNamesOf(links, tags, noteId) == tagNames
    {
      ghost var notesBefore, linksBefore := notes, links;
      noteId := NextRowId(notes.Keys);
      notes := notes[noteId := Note(noteId, title, text, date)];
      LinkTagNames(noteId, tagNames);
      InsertEffect(linksBefore, tags, noteId, tagNames);
      if LinksHaveNotes(notesBefore, linksBefore) {
        NoLinksForMissingNote(notesBefore, linksBefore, noteId);
        LinkedRows(tags, noteId, tagNames);
      }
    }

    /** `updateNote`: overwrite the note's fields when its row exists (no row is
        created otherwise), delete all of its links, then link it to each of
        `tagNames` as `saveNote` does. The note's links are replaced, not merged,
        and this happens whether or not the note row exists. */
    method UpdateNote(noteId: int, title: string, text: string, date: string, tagNames: seq<string>)
      requires Valid()
      modifies this
      ensures Valid()
      ensures noteId in old(notes) ==> notes == old(notes)[noteId := Note(noteId, title, text, date)]
      ensures noteId !in old(notes) ==> notes == old(notes)
      ensures GrownBy(old(tags), tags, tagNames)
      ensures forall n :: n in tagNames ==> n in tags.Values
      ensures links == DeleteNoteLinks(old(links), noteId) + Linked(tags, noteId, tagNames)
      ensures LinksOf(links, noteId) == Linked(tags, noteId, tagNames)
      ensures TagNamesOf(links, tags, noteId) == tagNames
      ensures forall other :: other != noteId ==> LinksOf(links, other) == LinksOf(old(links), other)
      ensures noteId in old(notes) && old(LinksHaveNotes(notes, links)) ==> LinksHaveNotes(notes, links)
      ensures noteId !in old(notes) && tagNames != [] ==> !LinksHaveNotes(notes, links)
    {
      ghost var linksBefore := links;
      if noteId in notes {
        notes := notes[noteId := Note(noteId, title, text, date)];
      }
      links := DeleteNoteLinks(links, noteId);
      ghost var kept := links;
      LinkTagNames(noteId, tagNames);
      ReplaceLinksEffect(linksBefore, tags, noteId, tagNames);
      LinkedRows(tags, noteId, tagNames);
      if noteId !in notes && tagNames != [] {
        assert links[|kept|] == Linked(tags, noteId, tagNames)[0];
        assert links[|kept|] in links;
      }
    }

    /** `updateNote` as evidently intended: when no note row has the id, nothing
        changes, so no link row can refer to a missing note. Otherwise it is
        `updateNote`. */
    method UpdateExistingNote(noteId: int, title: string, text: string, date: string, tagNames: seq<string>)
      requires Valid()
      modifies this
      ensures Valid()
      ensures noteId !in old(notes) ==> notes == old(notes) && tags == old(tags) && links == old(links)
      ensures noteId in old(notes) ==>
                && notes == old(notes)[noteId := Note(noteId, title, text, date)]
                && GrownBy(old(tags), tags, tagNames)
                && (forall n :: n in tagNames ==> n in tags.Values)
                && links == DeleteNoteLinks(old(links), noteId) + Linked(tags, noteId, tagNames)
                && TagNamesOf(links, tags, noteId) == tagNames
      ensures old(LinksHaveNotes(notes, links)) ==> LinksHaveNotes(notes, links)
    {
      if noteId in notes {
        UpdateNote(noteId, title, text, date, tagNames);
      }
    }

    /** `deleteNoteById`: delete the note's links, then the note row. Tags and all
        other notes and links stay as they were; deleting a missing id that has no
        links changes nothing, which holds for every missing id while no link
        refers to a missing note. */
    method DeleteNoteById(noteId: int)
      requires Valid()
      modifies this
      ensures Valid()
      ensures notes == old(notes) - {noteId}
      ensures tags == old(tags)
      ensures links == DeleteNoteLinks(old(links), noteId)
      ensures NoteOf(notes, noteId) == None && LinksOf(links, noteId) == []
      ensures forall other :: other != noteId ==> LinksOf(links, other) == LinksOf(old(links), other)
      ensures old(LinksHaveNotes(notes, links)) ==> LinksHaveNotes(notes, links)
      ensures noteId !in old(notes) && LinksOf(old(links), noteId) == [] ==> notes == old(notes) && links == old(links)
      ensures noteId !in old(notes) && old(LinksHaveNotes(notes, links)) ==> notes == old(notes) && links == old(links)
    {
      ghost var notesBefore, linksBefore := notes, links;
      links := DeleteNoteLinks(links, noteId);
      notes := notes - {noteId};
      DeleteNoteLinksEffect(linksBefore, noteId);
      if noteId !in notesBefore {
        assert notes == notesBefore;
        if LinksHaveNotes(notesBefore, linksBefore) {
          NoLinksForMissingNote(notesBefore, linksBefore, noteId);
        }
        if LinksOf(linksBefore, noteId) == [] {
          DeleteAbsentNoteLinks(linksBefore, noteId);
        }
      }
    }

    /** `deleteTagByName`: when a tag has the name, delete every link to it and
        then its row; otherwise change nothing. Notes are never touched, and every
        note reports the same names as before except this one. */
    method DeleteTagByName(name: string)
      requires Valid()
      modifies this
      ensures Valid()
      ensures notes == old(notes)
      ensures name !in tags.Values
      ensures name !in old(tags).Values ==> tags == old(tags) && links == old(links)
      ensures name in old(tags).Values ==>
                var id := TagIdOf(old(tags), name).value;
                tags == old(tags) - {id} && links == DeleteTagLinks(old(links), id)
      ensures forall noteId :: TagNamesOf(links, tags, noteId) == RemoveName(TagNamesOf(old(links), old(tags), noteId), name)
    {
      ghost var tagsBefore, linksBefore := tags, links;
      var found := TagIdOf(tags, name);
      if found.Some? {
        links := DeleteTagLinks(links, found.value);
        tags := tags - {found.value};
        assert forall id :: id in tags ==> tags[id] != name;
        forall noteId ensures TagNamesOf(links, tags, noteId) == RemoveName(TagNamesOf(linksBefore, tagsBefore, noteId), name) {
          DeletedTagNames(linksBefore, tagsBefore, found.value, noteId);
        }
      } else {
        forall noteId ensures TagNamesOf(links, tags, noteId) == RemoveName(TagNamesOf(links, tags, noteId), name) {
          TagNamesExist(links, tags, noteId);
          RemoveAbsentName(TagNamesOf(links, tags, noteId), name);
        }
      }
    }

    /** `updateTagName`, one transaction: rename the row called `oldName`, then
        re-point the links of the old name's id to the new name's id. When the
        rename breaks the UNIQUE constraint the transaction is rolled back and the
        failure is returned. A committed rename keeps every id and every link, so
        the re-pointing step never changes a row. */
    method UpdateTagName(oldName: string, newName: string) returns (r: Outcome<StoreError>)
      requires Valid()
      modifies this
      ensures Valid()
      ensures notes == old(notes) && links == old(links)
      ensures r.Fail? <==> oldName in old(tags).Values && newName in old(tags).Values && oldName != newName
      ensures r.Fail? ==> tags == old(tags)
      ensures r.Pass? ==> tags == RenameRows(old(tags), oldName, newName) && tags.Keys == old(tags).Keys
      ensures r.Pass? && oldName != newName ==> TagIdOf(tags, oldName) == None
      ensures r.Pass? && oldName in old(tags).Values ==> TagIdOf(tags, newName) == TagIdOf(old(tags), oldName)
      ensures r.Pass? ==> forall noteId :: TagNamesOf(links, tags, noteId) == ReplaceName(TagNamesOf(old(links), old(tags), noteId), oldName, newName)
    {
      var renamed := RenameRows(tags, oldName, newName);
      RenameCollision(tags, oldName, newName);
      if !UniqueNames(renamed) {
        return Fail(ConstraintViolation);
      }
      var relinked := links;
      var oldTagId := TagIdOf(renamed, oldName);
      if oldTagId.Some? {
        var newTagId := TagIdOf(renamed, newName);
        if newTagId.Some? {
          RetargetSelf(links, oldTagId.value);
          relinked := RetargetLinks(links, oldTagId.value, newTagId.value);
        }
      }
      if oldName in tags.Values {
        RenameKeepsId(tags, oldName, newName, TagIdOf(tags, oldName).value);
      }
      forall noteId ensures TagNamesOf(links, renamed, noteId) == ReplaceName(TagNamesOf(links, tags, noteId), oldName, newName) {
        RenamedTagNames(links, tags, oldName, newName, noteId);
      }
      tags, links := renamed, relinked;
      r := Pass;
    }

    /** `getAllTags`: every tag name, each once, in scan order. */
    method GetAllTags() returns (names: seq<string>)
      requires Valid()
      ensures |names| == |tags|
      ensures forall n :: n in names <==> n in tags.Values
      ensures forall i, j :: 0 <= i < j < |names| ==> names[i] != names[j]
    {
      names := [];
      var rest := tags.Keys;
      while rest != {}
        invariant rest <= tags.Keys
        invariant |names| + |rest| == |tags|
        invariant forall n :: n in names <==> exists id :: id in tags && id !in rest && tags[id] == n
        invariant forall i, j :: 0 <= i < j < |names| ==> names[i] != names[j]
        decreases |rest|
      {
        SomeRowId(rest);
        var id :| id in rest;
        assert tags[id] !in names;
        names := names + [tags[id]];
        rest := rest - {id};
      }
      forall n ensures n in names <==> n in tags.Values {
        if n in tags.Values {
          var id := TagIdOf(tags, n).value;
        }
      }
    }

    /** `getTagsForNoteId`: the names the join reports for the note, one per link. */
    method GetTagsForNoteId(noteId: int) returns (names: seq<string>)
      requires Valid()
      ensures names == TagNamesOf(links, tags, noteId)
      ensures |names| == |LinksOf(links, noteId)|
    {
      names := [];
      var i := 0;
      while i < |links|
        invariant 0 <= i <= |links|
        invariant names == TagNamesOf(links[..i], tags, noteId)
      {
        var row := links[i];
        assert links[..i + 1][..i] == links[..i];
        if row.noteId == noteId && row.tagId in tags {
          names := names + [tags[row.tagId]];
        }
        i := i + 1;
      }
      assert links[..|links|] == links;
      TagNamesCount(links, tags, noteId);
    }
  }

  /** With the tag already saved, `updateNote` on an id no note has, then
      `saveNote` without tags: the new note receives that id and reports the tag
      the earlier update linked to it. */
  method AdoptedLinksScenario() returns (names: seq<string>)
    ensures names == ["errands"]
  {
    var store := new NoteStore();
    var _ := store.SaveTag("errands");
    store.UpdateNote(1, "Draft", "", "2024-03-01", ["errands"]);
    ghost var tagsBefore, linksBefore := store.tags, store.links;
    var id := store.SaveNote("Groceries", "milk, eggs", "2024-03-02", []);
    assert id == 1;
    assert Linked(store.tags, 1, []) == [];
    TagNamesStable(store.links, tagsBefore, store.tags, 1);
    names := store.GetTagsForNoteId(1);
  }

  /** The same calls with the update that skips a missing note: the new note
      reports no tag. */
  method CheckedUpdateScenario() returns (names: seq<string>)
    ensures names == []
  {
    var store := new NoteStore();
    var _ := store.SaveTag("errands");
    store.UpdateExistingNote(1, "Draft", "", "2024-03-01", ["errands"]);
    var id := store.SaveNote("Groceries", "milk, eggs", "2024-03-02", []);
    names := store.GetTagsForNoteId(id);
  }

  /** A note created with two new tags is read back as stored, with both names;
      deleting one tag leaves the other and removes the name from the tag list. */
  method GroceriesScenario() returns (note: Option<Note>, before: seq<string>, after: seq<string>, all: seq<string>)
    ensures note == Some(Note(1, "Groceries", "milk, eggs", "2024-03-01"))
    ensures before == ["home", "errands"]
    ensures after == ["errands"]
    ensures "home" !in all && "errands" in all
  {
    var store := new NoteStore();
    var id := store.SaveNote("Groceries", "milk, eggs", "2024-03-01", ["home", "errands"]);
    note := NoteOf(store.notes, id);
    before := store.GetTagsForNoteId(id);
    ghost var errands := TagIdOf(store.tags, "errands").value;
    store.DeleteTagByName("home");
    assert errands in store.tags && store.tags[errands] == "errands";
    after := store.GetTagsForNoteId(id);
    assert after == RemoveName(["home", "errands"], "home");
    assert ["home", "errands"][..1] == ["home"] && ["home"][..0] == [];
    assert RemoveName(["home"], "home") == [];
    assert RemoveName(["home", "errands"], "home") == ["errands"];
    all := store.GetAllTags();
  }


}

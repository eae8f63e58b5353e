/**
 * Properties of the table statements: how the link-table writes change what a
 * note's link rows and tag names are, and when the UNIQUE constraint on tag
 * names rejects a write.
 */
module TableLemmas {
  import opened Wrappers
  import opened Tables

  // ------------------------------------------------------- tag lookups

  /** `getTagNameById` is the inverse of `getTagIdByName` on existing rows. */
  lemma TagLookupsInverse(tags: TagTable, name: string, id: int)
    requires UniqueNames(tags)
    ensures TagIdOf(tags, name) == Some(id) <==> TagNameOf(tags, id) == Some(name)
  {
    if TagNameOf(tags, id) == Some(name) {
      assert TagIdOf(tags, tags[id]) == Some(id);
    }
  }

  /** Inserting a row with a fresh id violates the UNIQUE constraint exactly
      when its name is already taken. */
  lemma InsertCollision(tags: TagTable, id: int, name: string)
    requires UniqueNames(tags) && id !in tags
    ensures !UniqueNames(tags[id := name]) <==> name in tags.Values
  {
    var grown := tags[id := name];
    if name in tags.Values {
      var other := TagIdOf(tags, name).value;
      assert other in grown && id in grown && other != id && grown[other] == grown[id];
    }
  }

  /** Renaming violates the UNIQUE constraint exactly when both names are taken
      and differ: an absent old name updates no row, and renaming a tag to its
      own name changes nothing. */
  lemma RenameCollision(tags: TagTable, oldName: string, newName: string)
    requires UniqueNames(tags)
    ensures !UniqueNames(RenameRows(tags, oldName, newName))
        <==> oldName in tags.Values && newName in tags.Values && oldName != newName
  {
    var renamed := RenameRows(tags, oldName, newName);
    if oldName in tags.Values && newName in tags.Values && oldName != newName {
      var a := TagIdOf(tags, oldName).value;
      var b := TagIdOf(tags, newName).value;
      assert a != b && renamed[a] == newName == renamed[b];
    }
  }

  /** After a successful rename the old name no longer resolves, and the new name
      resolves to the id the old name had. */
  lemma RenameKeepsId(tags: TagTable, oldName: string, newName: string, id: int)
    requires UniqueNames(tags) && UniqueNames(RenameRows(tags, oldName, newName))
    requires TagIdOf(tags, oldName) == Some(id)
    ensures TagIdOf(RenameRows(tags, oldName, newName), newName) == Some(id)
    ensures oldName != newName ==> TagIdOf(RenameRows(tags, oldName, newName), oldName) == None
  {
    var renamed := RenameRows(tags, oldName, newName);
    assert renamed[id] == newName;
  }

  /** Growing the tag table keeps every existing name on its id, so the link rows
      built for names that already existed are the same. */
  lemma {:induction false} LinkedStable(before: TagTable, after: TagTable, noteId: int, names: seq<string>)
    requires UniqueNames(before) && UniqueNames(after)
    requires forall id :: id in before ==> id in after && after[id] == before[id]
    requires forall n :: n in names ==> n in before.Values
    ensures forall n :: n in names ==> n in after.Values
    ensures Linked(after, noteId, names) == Linked(before, noteId, names)
  {
    forall n | n in names ensures n in after.Values {
      var id := TagIdOf(before, n).value;
      assert after[id] == n;
    }
    if names != [] {
      var init := names[..|names| - 1];
      var last := names[|names| - 1];
      assert forall n :: n in init ==> n in names;
      LinkedStable(before, after, noteId, init);
      var id := TagIdOf(before, last).value;
      assert after[id] == last;
    }
  }

  /** The rows inserted for `names` belong to the note, and row `i` points at
      the tag row called `names[i]`. */
  lemma {:induction false} LinkedRows(tags: TagTable, noteId: int, names: seq<string>)
    requires UniqueNames(tags)
    requires forall n :: n in names ==> n in tags.Values
    ensures forall i :: 0 <= i < |names| ==>
              var row := Linked(tags, noteId, names)[i];
              row.noteId == noteId && row.tagId in tags && tags[row.tagId] == names[i]
    ensures forall l :: l in Linked(tags, noteId, names) ==> l.noteId == noteId && l.tagId in tags
  {
    if names != [] {
      var init := names[..|names| - 1];
      assert forall n :: n in init ==> n in names;
      LinkedRows(tags, noteId, init);
    }
  }

  /** One lookup-or-create step for `name` after those for `done`: the tag table
      has grown by at most that name, and every name looked up so far has a row. */
  lemma LookupOrCreateStep(start: TagTable, before: TagTable, after: TagTable,
                           done: seq<string>, name: string, tagId: int)
    requires UniqueNames(before)
    requires GrownBy(start, before, done)
    requires forall n :: n in done ==> n in before.Values
    requires tagId in after && after[tagId] == name
    requires name in before.Values ==> after == before
    requires name !in before.Values ==> tagId !in before && after == before[tagId := name]
    ensures GrownBy(start, after, done + [name])
    ensures forall n :: n in done + [name] ==> n in after.Values
  {
    forall n | n in done + [name] ensures n in after.Values {
      if n == name {
        assert after[tagId] == n;
      } else {
        var id := TagIdOf(before, n).value;
        assert after[id] == n;
      }
    }
  }

  /** The rows for `done + [name]` after that step are the earlier rows plus one
      pointing at the tag found for `name`. */
  lemma LinkedStep(before: TagTable, after: TagTable, noteId: int, done: seq<string>, name: string, tagId: int)
    requires UniqueNames(before) && UniqueNames(after)
    requires forall id :: id in before ==> id in after && after[id] == before[id]
    requires forall n :: n in done ==> n in before.Values
    requires forall n :: n in done + [name] ==> n in after.Values
    requires tagId in after && after[tagId] == name
    ensures Linked(after, noteId, done + [name]) == Linked(before, noteId, done) + [NoteTag(noteId, tagId)]
  {
    var names := done + [name];
    assert names[..|names| - 1] == done && names[|names| - 1] == name;
    assert TagIdOf(after, name) == Some(tagId);
    assert Linked(after, noteId, names) == Linked(after, noteId, done) + [NoteTag(noteId, tagId)];
    LinkedStable(before, after, noteId, done);
  }

  /** The same for the names a note's links resolve to, as long as every link
      refers to an existing tag. */
  lemma {:induction false} TagNamesStable(links: LinkTable, before: TagTable, after: TagTable, noteId: int)
    requires LinksHaveTags(before, links)
    requires forall id :: id in before ==> id in after && after[id] == before[id]
    ensures TagNamesOf(links, after, noteId) == TagNamesOf(links, before, noteId)
  {
    if links != [] {
      var init := links[..|links| - 1];
      assert forall l :: l in init ==> l in links;
      TagNamesStable(init, before, after, noteId);
      assert links[|links| - 1] in links;
    }
  }

  // ---------------------------------------------- link rows of one note

  /** The rows the join selects with `WHERE note_tags.note_id = n` are exactly the
      link rows of note `n`. */
  lemma {:induction false} LinksOfMembers(links: LinkTable, noteId: int)
    ensures forall l :: l in LinksOf(links, noteId) <==> l in links && l.noteId == noteId
  {
    if links != [] {
      LinksOfMembers(links[..|links| - 1], noteId);
      SplitLast(links);
    }
  }

  /** Selecting the links of a note distributes over appending rows. */
  lemma {:induction false} LinksOfAppend(a: LinkTable, b: LinkTable, noteId: int)
    ensures LinksOf(a + b, noteId) == LinksOf(a, noteId) + LinksOf(b, noteId)
  {
    if b == [] {
      assert a + b == a;
    } else {
      var init, last := b[..|b| - 1], b[|b| - 1];
      var ab := a + b;
      assert ab[..|ab| - 1] == a + init;
      assert ab[|ab| - 1] == last;
      LinksOfAppend(a, init, noteId);
      var tail := if last.noteId == noteId then [last] else [];
      assert LinksOf(ab, noteId) == LinksOf(a + init, noteId) + tail;
      assert LinksOf(b, noteId) == LinksOf(init, noteId) + tail;
    }
  }

  /** The same for the names the join reports. */
  lemma {:induction false} TagNamesOfAppend(a: LinkTable, b: LinkTable, tags: TagTable, noteId: int)
    ensures TagNamesOf(a + b, tags, noteId) == TagNamesOf(a, tags, noteId) + TagNamesOf(b, tags, noteId)
  {
    if b == [] {
      assert a + b == a;
    } else {
      var init, last := b[..|b| - 1], b[|b| - 1];
      var ab := a + b;
      assert ab[..|ab| - 1] == a + init;
      assert ab[|ab| - 1] == last;
      TagNamesOfAppend(a, init, tags, noteId);
      var tail := if last.noteId == noteId && last.tagId in tags then [tags[last.tagId]] else [];
      assert TagNamesOf(ab, tags, noteId) == TagNamesOf(a + init, tags, noteId) + tail;
      assert TagNamesOf(b, tags, noteId) == TagNamesOf(init, tags, noteId) + tail;
    }
  }

  /** `DELETE FROM note_tags WHERE note_id = n` leaves note `n` without links and
      every other note with exactly the links it had. */
  lemma {:induction false} DeleteNoteLinksEffect(links: LinkTable, noteId: int)
    ensures LinksOf(DeleteNoteLinks(links, noteId), noteId) == []
    ensures forall other :: other != noteId ==> LinksOf(DeleteNoteLinks(links, noteId), other) == LinksOf(links, other)
  {
    if links != [] {
      var init := links[..|links| - 1];
      var last := links[|links| - 1];
      DeleteNoteLinksEffect(init, noteId);
      var kept := if last.noteId != noteId then [last] else [];
      LinksOfAppend(DeleteNoteLinks(init, noteId), kept, noteId);
      forall other | other != noteId
        ensures LinksOf(DeleteNoteLinks(links, noteId), other) == LinksOf(links, other)
      {
        LinksOfAppend(DeleteNoteLinks(init, noteId), kept, other);
      }
    }
  }

  /** Deleting the links of a note that has none changes nothing. */
  lemma {:induction false} DeleteAbsentNoteLinks(links: LinkTable, noteId: int)
    requires LinksOf(links, noteId) == []
    ensures DeleteNoteLinks(links, noteId) == links
  {
    if links != [] {
      var init, last := links[..|links| - 1], links[|links| - 1];
      assert LinksOf(links, noteId) == LinksOf(init, noteId) + (if last.noteId == noteId then [last] else []);
      DeleteAbsentNoteLinks(init, noteId);
      SplitLast(links);
    }
  }

  /** Deleting a note's links a second time removes nothing more. */
  lemma {:induction false} DeleteNoteLinksIdempotent(links: LinkTable, noteId: int)
    ensures DeleteNoteLinks(DeleteNoteLinks(links, noteId), noteId) == DeleteNoteLinks(links, noteId)
  {
    if links != [] {
      var init := links[..|links| - 1];
      var last := links[|links| - 1];
      DeleteNoteLinksIdempotent(init, noteId);
      var once := DeleteNoteLinks(links, noteId);
      if last.noteId != noteId {
        assert once == DeleteNoteLinks(init, noteId) + [last];
        assert once[..|once| - 1] == DeleteNoteLinks(init, noteId);
        assert once[|once| - 1] == last;
      } else {
        assert once == DeleteNoteLinks(init, noteId);
      }
    }
  }

  /** `note_tags` has no key, so a row may occur several times: a `DELETE`
      keeps every copy of a row it does not match and no copy of one it does. */
  lemma {:induction false} DeleteLinksCounts(links: LinkTable, column: LinkColumn, value: int)
    ensures forall l :: multiset(DeleteLinks(links, column, value))[l] ==
                          if ColumnOf(l, column) != value then multiset(links)[l] else 0
  {
    if links != [] {
      DeleteLinksCounts(links[..|links| - 1], column, value);
      SplitLast(links);
    }
  }

  /** Helper for `InsertEffect`, one other note at a time: appending the rows
      inserted for a note adds them to that note's links and leaves the links
      of `other` as they were. */
  lemma LinksOfAfterInsert(prefix: LinkTable, tags: TagTable, noteId: int, names: seq<string>, other: int)
    requires UniqueNames(tags)
    requires forall n :: n in names ==> n in tags.Values
    ensures LinksOf(prefix + Linked(tags, noteId, names), noteId) == LinksOf(prefix, noteId) + Linked(tags, noteId, names)
    ensures other != noteId ==> LinksOf(prefix + Linked(tags, noteId, names), other) == LinksOf(prefix, other)
  {
    LinksOfAppend(prefix, Linked(tags, noteId, names), noteId);
    LinksOfAppend(prefix, Linked(tags, noteId, names), other);
    LinkedLinksOf(tags, noteId, names, other);
  }

  /** Replacing a note's links by the rows for `names` leaves the note with
      exactly those rows and names, and every other note with the links it had. */
  lemma ReplaceLinksEffect(links: LinkTable, tags: TagTable, noteId: int, names: seq<string>)
    requires UniqueNames(tags)
    requires forall n :: n in names ==> n in tags.Values
    ensures LinksOf(DeleteNoteLinks(links, noteId) + Linked(tags, noteId, names), noteId) == Linked(tags, noteId, names)
    ensures TagNamesOf(DeleteNoteLinks(links, noteId) + Linked(tags, noteId, names), tags, noteId) == names
    ensures forall other :: other != noteId ==>
              LinksOf(DeleteNoteLinks(links, noteId) + Linked(tags, noteId, names), other) == LinksOf(links, other)
  {
    var kept := DeleteNoteLinks(links, noteId);
    DeleteNoteLinksEffect(links, noteId);
    InsertEffect(kept, tags, noteId, names);
    assert LinksOf(kept, noteId) + Linked(tags, noteId, names) == Linked(tags, noteId, names);
  }

  /** Helper for `InsertEffect`: a note without link rows before the insert
      reports exactly the inserted names afterwards. */
  lemma NamesAfterInsert(prefix: LinkTable, tags: TagTable, noteId: int, names: seq<string>)
    requires UniqueNames(tags)
    requires forall n :: n in names ==> n in tags.Values
    requires LinksOf(prefix, noteId) == []
    ensures TagNamesOf(prefix + Linked(tags, noteId, names), tags, noteId) == names
  {
    TagNamesOfAppend(prefix, Linked(tags, noteId, names), tags, noteId);
    NoLinksNoNames(prefix, tags, noteId);
    LinkedNamesRoundTrip(tags, noteId, names);
  }

  /** A note id that no note row has carries no links while every link refers
      to an existing note. */
  lemma NoLinksForMissingNote(notes: NoteTable, links: LinkTable, noteId: int)
    requires LinksHaveNotes(notes, links) && noteId !in notes
    ensures LinksOf(links, noteId) == []
  {
    LinksOfMembers(links, noteId);
  }

  /** What inserting the rows for `names` of note `noteId` does to the links of
      every note, and, when no link referred to the note before, which names the
      join then reports for it. */
  lemma InsertEffect(prefix: LinkTable, tags: TagTable, noteId: int, names: seq<string>)
    requires UniqueNames(tags)
    requires forall n :: n in names ==> n in tags.Values
    ensures LinksOf(prefix + Linked(tags, noteId, names), noteId) == LinksOf(prefix, noteId) + Linked(tags, noteId, names)
    ensures forall other :: other != noteId ==> LinksOf(prefix + Linked(tags, noteId, names), other) == LinksOf(prefix, other)
    ensures LinksOf(prefix, noteId) == [] ==> TagNamesOf(prefix + Linked(tags, noteId, names), tags, noteId) == names
  {
    forall other
      ensures LinksOf(prefix + Linked(tags, noteId, names), other)
           == LinksOf(prefix, other) + (if other == noteId then Linked(tags, noteId, names) else [])
    {
      LinksOfAfterInsert(prefix, tags, noteId, names, other);
    }
    if LinksOf(prefix, noteId) == [] {
      NamesAfterInsert(prefix, tags, noteId, names);
    }
  }

  /** The rows inserted for a note belong to that note and to no other. */
  lemma {:induction false} LinkedLinksOf(tags: TagTable, noteId: int, names: seq<string>, other: int)
    requires UniqueNames(tags)
    requires forall n :: n in names ==> n in tags.Values
    ensures LinksOf(Linked(tags, noteId, names), noteId) == Linked(tags, noteId, names)
    ensures other != noteId ==> LinksOf(Linked(tags, noteId, names), other) == []
  {
    if names != [] {
      var init := names[..|names| - 1];
      assert forall n :: n in init ==> n in names;
      LinkedLinksOf(tags, noteId, init, other);
      var rows := Linked(tags, noteId, names);
      assert rows[..|rows| - 1] == Linked(tags, noteId, init);
    }
  }

  /** The join over a single link row of the note reports that row's tag name. */
  lemma TagNamesOfRow(row: NoteTag, tags: TagTable, noteId: int)
    requires row.noteId == noteId && row.tagId in tags
    ensures TagNamesOf([row], tags, noteId) == [tags[row.tagId]]
  {
    assert [row][..0] == [];
  }

  /** Round trip: the join over the rows inserted for `names` reports `names`
      again, in the same order and with the same repetitions. */
  lemma {:induction false} LinkedNamesRoundTrip(tags: TagTable, noteId: int, names: seq<string>)
    requires UniqueNames(tags)
    requires forall n :: n in names ==> n in tags.Values
    ensures TagNamesOf(Linked(tags, noteId, names), tags, noteId) == names
  {
    if names != [] {
      var init, name := names[..|names| - 1], names[|names| - 1];
      var rows, row := Linked(tags, noteId, init), NoteTag(noteId, TagIdOf(tags, name).value);
      assert forall n :: n in init ==> n in names;
      LinkedNamesRoundTrip(tags, noteId, init);
      TagNamesOfRow(row, tags, noteId);
      TagNamesOfAppend(rows, [row], tags, noteId);
      assert Linked(tags, noteId, names) == rows + [row];
      SplitLast(names);
    }
  }

  /** The join reports only names that some tag row carries. */
  lemma {:induction false} TagNamesExist(links: LinkTable, tags: TagTable, noteId: int)
    ensures forall n :: n in TagNamesOf(links, tags, noteId) ==> n in tags.Values
  {
    if links != [] {
      TagNamesExist(links[..|links| - 1], tags, noteId);
    }
  }

  /** When every link refers to an existing tag, the join reports one name per
      link of the note. */
  lemma {:induction false} TagNamesCount(links: LinkTable, tags: TagTable, noteId: int)
    requires LinksHaveTags(tags, links)
    ensures |TagNamesOf(links, tags, noteId)| == |LinksOf(links, noteId)|
  {
    if links != [] {
      var init := links[..|links| - 1];
      assert forall l :: l in init ==> l in links;
      TagNamesCount(init, tags, noteId);
      assert links[|links| - 1] in links;
    }
  }

  /** A note without link rows has no tag names. */
  lemma {:induction false} NoLinksNoNames(links: LinkTable, tags: TagTable, noteId: int)
    requires LinksOf(links, noteId) == []
    ensures TagNamesOf(links, tags, noteId) == []
  {
    if links != [] {
      var init := links[..|links| - 1];
      var last := links[|links| - 1];
      assert last in links;
      assert forall l :: l in init ==> l in links;
      NoLinksNoNames(init, tags, noteId);
    }
  }

  // ------------------------------------------ tag writes seen by the join

  /** After a rename the join reports the new name wherever it reported the old
      one, and everything else as before. */
  lemma {:induction false} RenamedTagNames(links: LinkTable, tags: TagTable, oldName: string, newName: string, noteId: int)
    ensures TagNamesOf(links, RenameRows(tags, oldName, newName), noteId)
         == ReplaceName(TagNamesOf(links, tags, noteId), oldName, newName)
  {
    if links != [] {
      RenamedTagNames(links[..|links| - 1], tags, oldName, newName, noteId);
      var last := links[|links| - 1];
      var before := TagNamesOf(links, tags, noteId);
      if last.noteId == noteId && last.tagId in tags {
        assert before[..|before| - 1] == TagNamesOf(links[..|links| - 1], tags, noteId);
      } else {
        assert before == TagNamesOf(links[..|links| - 1], tags, noteId);
      }
    }
  }

  /** Re-pointing links from a tag to itself changes no row. */
  lemma {:induction false} RetargetSelf(links: LinkTable, tagId: int)
    ensures RetargetLinks(links, tagId, tagId) == links
  {
    if links != [] {
      RetargetSelf(links[..|links| - 1], tagId);
      SplitLast(links);
    }
  }

  /** Deleting a tag's links and then its row removes exactly that name from what
      the join reports for any note. */
  lemma {:induction false} DeletedTagNames(links: LinkTable, tags: TagTable, tagId: int, noteId: int)
    requires UniqueNames(tags) && tagId in tags
    ensures TagNamesOf(DeleteTagLinks(links, tagId), tags - {tagId}, noteId)
         == RemoveName(TagNamesOf(links, tags, noteId), tags[tagId])
  {
    if links != [] {
      var init := links[..|links| - 1];
      var last := links[|links| - 1];
      var rest, name := tags - {tagId}, tags[tagId];
      DeletedTagNames(init, tags, tagId, noteId);
      var kept := if last.tagId != tagId then [last] else [];
      assert DeleteTagLinks(links, tagId) == DeleteTagLinks(init, tagId) + kept;
      TagNamesOfAppend(DeleteTagLinks(init, tagId), kept, rest, noteId);
      var before := TagNamesOf(init, tags, noteId);
      if last.noteId == noteId && last.tagId in tags {
        var found := tags[last.tagId];
        assert TagNamesOf(links, tags, noteId) == before + [found];
        assert (before + [found])[..|before|] == before;
        assert found == name <==> last.tagId == tagId;
        assert RemoveName(before + [found], name) == RemoveName(before, name) + (if found == name then [] else [found]);
      } else {
        assert TagNamesOf(links, tags, noteId) == before;
        assert kept != [] ==> kept[..0] == [];
        assert TagNamesOf(kept, rest, noteId) == [];
      }
    }
  }

  /** What `RemoveName` leaves: no occurrence of the name, every other name as
      often as before. */
  lemma {:induction false} RemoveNameCounts(names: seq<string>, name: string, other: string)
    ensures name !in RemoveName(names, name)
    ensures other != name ==> multiset(RemoveName(names, name))[other] == multiset(names)[other]
  {
    if names != [] {
      var init := names[..|names| - 1];
      RemoveNameCounts(init, name, other);
      SplitLast(names);
    }
  }

  /** Removing a name that does not occur changes nothing. */
  lemma {:induction false} RemoveAbsentName(names: seq<string>, name: string)
    requires name !in names
    ensures RemoveName(names, name) == names
  {
    if names != [] {
      var init := names[..|names| - 1];
      assert forall n :: n in init ==> n in names;
      RemoveAbsentName(init, name);
      SplitLast(names);
    }
  }

  /** A non-empty sequence is its prefix followed by its last element. */
  lemma SplitLast<T>(s: seq<T>)
    requires s != []
    ensures s == s[..|s| - 1] + [s[|s| - 1]]
  {
  }

  /** Appending one row after appending a block is appending the longer block. */
  lemma AppendRow(a: LinkTable, b: LinkTable, row: NoteTag)
    ensures (a + b) + [row] == a + (b + [row])
  {
  }

  /** The prefix of a name list one entry longer is the shorter prefix plus that entry. */
  lemma PrefixGrows(names: seq<string>, i: nat)
    requires i < |names|
    ensures names[..i + 1] == names[..i] + [names[i]]
  {
  }
}

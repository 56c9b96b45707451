/**
 * An in-memory stand-in for the relational store behind the two JPA
 * repositories: the `translations` table, the `tags` table with its
 * unique `name` column, the `translation_tags` join table (held as each
 * translation row's set of tag identities) and the identity generator.
 * Entities are loaded from rows and saved back into them.
 */
module Persistence {
  import opened Wrappers
  import opened Entities
  import Sets

  /** A row of `tags`. */
  datatype TagRow = TagRow(name: string, description: Option<string>, createdAt: int)

  /** A row of `translations` with its `translation_tags` rows as the set of tag identities. */
  datatype TranslationRow = TranslationRow(
    key: string,
    locale: string,
    content: string,
    tagIds: set<int>,
    createdAt: int,
    updatedAt: int)

  /** The unique constraint on `tags.name`. */
  ghost predicate UniqueNames(tagTable: map<int, TagRow>)
  {
    forall a, b | a in tagTable && b in tagTable && tagTable[a].name == tagTable[b].name :: a == b
  }

  /** The names of the stored tags whose identities are in `ids`. */
  function NamesOfIds(tagTable: map<int, TagRow>, ids: set<int>): set<string>
  {
    set k | k in ids && k in tagTable :: tagTable[k].name
  }

  /** The row stored under `id` as the queries see it, with its tags' names. */
  function RecordOf(id: int, row: TranslationRow, tagTable: map<int, TagRow>): TranslationRecord
  {
    TranslationRecord(Some(id), row.key, row.locale, row.content, NamesOfIds(tagTable, row.tagIds),
      Some(row.createdAt), Some(row.updatedAt))
  }

  /** The translation table as the queries see it. */
  function ViewOf(rows: map<int, TranslationRow>, tagTable: map<int, TagRow>): map<int, TranslationRecord>
  {
    map id | id in rows :: RecordOf(id, rows[id], tagTable)
  }

  /** A record as the insert leaves it: with its identity and both stamps. */
  function Inserted(r: TranslationRecord, id: int, now: int): TranslationRecord
  {
    r.(id := Some(id), createdAt := Some(now), updatedAt := Some(now))
  }

  /** Changing a tag no row refers to changes no row's tag names. */
  lemma NamesUnaffected(tagTable: map<int, TagRow>, ids: set<int>, k: int, v: TagRow)
    requires k !in ids
    ensures NamesOfIds(tagTable[k := v], ids) == NamesOfIds(tagTable, ids)
  {
    var t2 := tagTable[k := v];
    forall x | x in NamesOfIds(t2, ids)
      ensures x in NamesOfIds(tagTable, ids)
    {
      var j :| j in ids && j in t2 && t2[j].name == x;
      assert j in tagTable && tagTable[j].name == x;
    }
    forall x | x in NamesOfIds(tagTable, ids)
      ensures x in NamesOfIds(t2, ids)
    {
      var j :| j in ids && j in tagTable && tagTable[j].name == x;
      assert j in t2 && t2[j].name == x;
    }
  }

  /** A new tag leaves every row's tag names as they were. */
  lemma ViewUnaffected(rows: map<int, TranslationRow>, tagTable: map<int, TagRow>, k: int, v: TagRow)
    requires forall id | id in rows :: k !in rows[id].tagIds
    ensures ViewOf(rows, tagTable[k := v]) == ViewOf(rows, tagTable)
  {
    forall id | id in rows
      ensures RecordOf(id, rows[id], tagTable[k := v]) == RecordOf(id, rows[id], tagTable)
    {
      NamesUnaffected(tagTable, rows[id].tagIds, k, v);
    }
  }

  /**
   * Renaming the tag `k` renames it in every row that refers to it and
   * in no other row, because no other tag shares its old name.
   */
  lemma NamesAfterRename(tagTable: map<int, TagRow>, ids: set<int>, k: int, v: TagRow)
    requires UniqueNames(tagTable) && k in tagTable
    ensures NamesOfIds(tagTable[k := v], ids) ==
      if k in ids then NamesOfIds(tagTable, ids) - {tagTable[k].name} + {v.name}
      else NamesOfIds(tagTable, ids)
  {
    var t2 := tagTable[k := v];
    var before := NamesOfIds(tagTable, ids);
    var after := NamesOfIds(t2, ids);
    if k in ids {
      forall x | x in after
        ensures x in before - {tagTable[k].name} + {v.name}
      {
        var j :| j in ids && j in t2 && t2[j].name == x;
        if j != k {
          assert j in tagTable && tagTable[j].name == x;
          assert tagTable[j].name != tagTable[k].name;
        }
      }
      forall x | x in before - {tagTable[k].name} + {v.name}
        ensures x in after
      {
        if x == v.name {
          assert k in ids && k in t2 && t2[k].name == x;
        } else {
          var j :| j in ids && j in tagTable && tagTable[j].name == x;
          assert j != k;
          assert j in t2 && t2[j].name == x;
        }
      }
    } else {
      NamesUnaffected(tagTable, ids, k, v);
    }
  }

  /**
   * Dropping the tag `k` from the table and from a set of references
   * drops exactly its name, because no other tag shares it.
   */
  lemma NamesAfterDelete(tagTable: map<int, TagRow>, ids: set<int>, k: int)
    requires UniqueNames(tagTable) && k in tagTable
    ensures NamesOfIds(tagTable - {k}, ids - {k}) == NamesOfIds(tagTable, ids) - {tagTable[k].name}
  {
    var t2 := tagTable - {k};
    var before := NamesOfIds(tagTable, ids);
    var after := NamesOfIds(t2, ids - {k});
    forall x | x in after
      ensures x in before - {tagTable[k].name}
    {
      var j :| j in ids - {k} && j in t2 && t2[j].name == x;
      assert j in ids && j in tagTable && tagTable[j].name == x;
      assert tagTable[j].name != tagTable[k].name;
    }
    forall x | x in before - {tagTable[k].name}
      ensures x in after
    {
      var j :| j in ids && j in tagTable && tagTable[j].name == x;
      assert j != k;
      assert j in ids - {k} && j in t2 && t2[j].name == x;
    }
  }

  /** A set of tag names after the name `a` became `b`. */
  function Renamed(names: set<string>, a: string, b: string): set<string>
  {
    if a in names then names - {a} + {b} else names
  }

  /** With unique names, a row shows a tag's name exactly when it refers to that tag. */
  lemma NameInIds(tagTable: map<int, TagRow>, ids: set<int>, k: int)
    requires UniqueNames(tagTable) && k in tagTable
    ensures tagTable[k].name in NamesOfIds(tagTable, ids) <==> k in ids
  {
    if tagTable[k].name in NamesOfIds(tagTable, ids) {
      var j :| j in ids && j in tagTable && tagTable[j].name == tagTable[k].name;
    }
  }

  /** Renaming a tag renames it in every translation row that carries it, and changes nothing else. */
  lemma ViewAfterRename(rows: map<int, TranslationRow>, tagTable: map<int, TagRow>, k: int, v: TagRow)
    requires UniqueNames(tagTable) && k in tagTable
    ensures ViewOf(rows, tagTable[k := v]).Keys == ViewOf(rows, tagTable).Keys
    ensures forall id | id in rows ::
      ViewOf(rows, tagTable[k := v])[id] ==
        ViewOf(rows, tagTable)[id].(tags := Renamed(ViewOf(rows, tagTable)[id].tags, tagTable[k].name, v.name))
  {
    forall id | id in rows
      ensures ViewOf(rows, tagTable[k := v])[id] ==
        ViewOf(rows, tagTable)[id].(tags := Renamed(ViewOf(rows, tagTable)[id].tags, tagTable[k].name, v.name))
    {
      NamesAfterRename(tagTable, rows[id].tagIds, k, v);
      NameInIds(tagTable, rows[id].tagIds, k);
    }
  }

  /** Dropping a tag that a set of references does not hold leaves its names as they were. */
  lemma NamesAfterDrop(tagTable: map<int, TagRow>, ids: set<int>, k: int)
    requires k !in ids
    ensures NamesOfIds(tagTable - {k}, ids) == NamesOfIds(tagTable, ids)
  {
    var t2 := tagTable - {k};
    forall x | x in NamesOfIds(tagTable, ids)
      ensures x in NamesOfIds(t2, ids)
    {
      var j :| j in ids && j in tagTable && tagTable[j].name == x;
      assert j in t2 && t2[j].name == x;
    }
  }

  /** Dropping a tag that no translation row refers to leaves every row as the queries see it. */
  lemma ViewAfterDrop(rows: map<int, TranslationRow>, tagTable: map<int, TagRow>, k: int)
    requires forall id | id in rows :: k !in rows[id].tagIds
    ensures ViewOf(rows, tagTable - {k}) == ViewOf(rows, tagTable)
  {
    forall id | id in rows
      ensures RecordOf(id, rows[id], tagTable - {k}) == RecordOf(id, rows[id], tagTable)
    {
      NamesAfterDrop(tagTable, rows[id].tagIds, k);
    }
  }

  /**
   * With unique names, some row refers to the tag `k` exactly when some
   * row, as the queries see it, carries the tag's name.
   */
  lemma {:induction false} InUseIffShown(rows: map<int, TranslationRow>, tagTable: map<int, TagRow>, k: int)
    requires UniqueNames(tagTable) && k in tagTable
    ensures (exists id | id in rows :: k in rows[id].tagIds) <==>
      (exists id | id in ViewOf(rows, tagTable) :: tagTable[k].name in ViewOf(rows, tagTable)[id].tags)
  {
    var view := ViewOf(rows, tagTable);
    if id :| id in rows && k in rows[id].tagIds {
      NameInIds(tagTable, rows[id].tagIds, k);
      assert id in view && tagTable[k].name in view[id].tags;
    }
    if id :| id in view && tagTable[k].name in view[id].tags {
      NameInIds(tagTable, rows[id].tagIds, k);
      assert id in rows && k in rows[id].tagIds;
    }
  }

  /** `h` holds exactly what is stored under its identity. */
  ghost predicate SyncedIn(tagTable: map<int, TagRow>, h: Tag)
    reads h
  {
    h.id.Some? && h.id.value in tagTable && h.createdAt.Some? &&
    tagTable[h.id.value] == TagRow(h.name, h.description, h.createdAt.value)
  }

  /** Every tag of `ts` holds what is stored under its identity. */
  ghost predicate AllSyncedIn(tagTable: map<int, TagRow>, ts: set<Tag>)
    reads ts
  {
    forall h | h in ts :: SyncedIn(tagTable, h)
  }

  /** Tags that match the table still match it after rows are added. */
  lemma SyncedGrow(t1: map<int, TagRow>, t2: map<int, TagRow>, ts: set<Tag>)
    requires AllSyncedIn(t1, ts)
    requires forall k | k in t1 :: k in t2 && t2[k] == t1[k]
    ensures AllSyncedIn(t2, ts)
  {
    forall h | h in ts
      ensures SyncedIn(t2, h)
    {
      assert SyncedIn(t1, h);
      var k := h.id.value;
      assert k in t1 && k in t2 && t2[k] == t1[k];
    }
  }

  /** For tags that match the table, their identities name the same tags as the objects do. */
  lemma SyncedNames(tagTable: map<int, TagRow>, ts: set<Tag>)
    requires AllSyncedIn(tagTable, ts)
    ensures IdsOf(ts) <= tagTable.Keys
    ensures NamesOfIds(tagTable, IdsOf(ts)) == NamesOf(ts)
  {
    forall k | k in IdsOf(ts)
      ensures k in tagTable
    {
      var h :| h in ts && h.id.Some? && h.id.value == k;
      assert SyncedIn(tagTable, h);
    }
    forall x | x in NamesOfIds(tagTable, IdsOf(ts))
      ensures x in NamesOf(ts)
    {
      var k :| k in IdsOf(ts) && k in tagTable && tagTable[k].name == x;
      var h :| h in ts && h.id.Some? && h.id.value == k;
      assert SyncedIn(tagTable, h);
    }
    forall x | x in NamesOf(ts)
      ensures x in NamesOfIds(tagTable, IdsOf(ts))
    {
      var h :| h in ts && h.name == x;
      assert SyncedIn(tagTable, h);
      var k := h.id.value;
      assert k in IdsOf(ts);
      assert k in tagTable && tagTable[k].name == x;
    }
  }

  /**
   * `rows` is what a full scan of the table `view` returns: every row
   * exactly once, in some order.
   */
  ghost predicate ScanOf(rows: seq<TranslationRecord>, view: map<int, TranslationRecord>)
  {
    && |rows| == |view|
    && (forall i | 0 <= i < |rows| :: rows[i].id.Some? && rows[i].id.value in view && view[rows[i].id.value] == rows[i])
    && (forall i, j | 0 <= i < j < |rows| :: rows[i].id != rows[j].id)
    && (forall id | id in view :: view[id] in rows && view[id].id == Some(id))
  }

  /** The rows of the table, whatever their identities. */
  function RowsOf(view: map<int, TranslationRecord>): set<TranslationRecord>
  {
    set id | id in view :: view[id]
  }

  /** The rows of a scan are exactly the rows of the table. */
  lemma ScanMembers(rows: seq<TranslationRecord>, view: map<int, TranslationRecord>)
    requires ScanOf(rows, view)
    ensures forall x :: x in rows <==> x in RowsOf(view)
  {
    forall x | x in rows
      ensures x in RowsOf(view)
    {
      var i :| 0 <= i < |rows| && rows[i] == x;
      var id := rows[i].id.value;
      assert id in view && view[id] == x;
    }
  }

  class Store {
    var translations: map<int, TranslationRow>
    var tags: map<int, TagRow>
    /** The next identity of the `tags` identity column. */
    var nextTagId: nat
    /** The next identity of the `translations` identity column. */
    var nextTranslationId: nat

    /**
     * Identities are positive and below the generator, every association
     * refers to a stored tag, and tag names are unique.
     */
    ghost predicate Valid()
      reads this
    {
      && nextTagId > 0 && nextTranslationId > 0
      && (forall id | id in translations :: 0 < id < nextTranslationId && translations[id].tagIds <= tags.Keys)
      && (forall id | id in tags :: 0 < id < nextTagId)
      && UniqueNames(tags)
    }

    /** The translation table as values, each row with its tags' current names. */
    ghost function View(): map<int, TranslationRecord>
      reads this
    {
      ViewOf(translations, tags)
    }

    /** The names of all stored tags. */
    ghost function TagNames(): set<string>
      reads this
    {
      set id | id in tags :: tags[id].name
    }

    /** `h` holds exactly what is stored under its identity. */
    ghost predicate Synced(h: Tag)
      reads this, h
    {
      SyncedIn(tags, h)
    }

    /** Every tag of `ts` holds what is stored under its identity. */
    ghost predicate AllSynced(ts: set<Tag>)
      reads this, ts
    {
      AllSyncedIn(tags, ts)
    }

    /** The table view has one row per stored translation. */
    lemma ViewSize()
      ensures View().Keys == translations.Keys && |View()| == |translations|
    {
      assert View().Keys == translations.Keys;
      assert |View()| == |View().Keys|;
    }

    /** An empty store; each table's identities start at 1 as a database identity column does. */
    constructor ()
      ensures Valid() && translations == map[] && tags == map[] && nextTagId == 1 && nextTranslationId == 1
    {
      translations := map[];
      tags := map[];
      nextTagId := 1;
      nextTranslationId := 1;
    }

    /** A full table scan. */
    method Scan() returns (rows: seq<TranslationRecord>)
      ensures ScanOf(rows, View())
    {
      ViewSize();
      rows := [];
      var pending := translations.Keys;
      while pending != {}
        invariant pending <= translations.Keys
        invariant |rows| + |pending| == |translations|
        invariant forall i | 0 <= i < |rows| ::
          rows[i].id.Some? && rows[i].id.value in translations && rows[i].id.value !in pending &&
          View()[rows[i].id.value] == rows[i]
        invariant forall i, j | 0 <= i < j < |rows| :: rows[i].id != rows[j].id
        invariant forall id | id in translations && id !in pending :: View()[id] in rows
        decreases pending
      {
        var id := Sets.Choose(pending);
        rows := rows + [RecordOf(id, translations[id], tags)];
        pending := pending - {id};
      }
    }

    /** The unique constraint makes the tag table exactly as large as its set of names. */
    lemma TagCountIsNameCount()
      requires UniqueNames(tags)
      ensures |tags| == |TagNames()|
    {
      TagCountOf(tags.Keys);
      assert tags.Keys == set id | id in tags;
    }

    lemma {:induction false} TagCountOf(ids: set<int>)
      requires UniqueNames(tags) && ids <= tags.Keys
      ensures |ids| == |set id | id in ids :: tags[id].name|
      decreases |ids|
    {
      if ids != {} {
        var a := Sets.Pick(ids);
        var rest := ids - {a};
        TagCountOf(rest);
        var names := set id | id in ids :: tags[id].name;
        var restNames := set id | id in rest :: tags[id].name;
        assert names == restNames + {tags[a].name};
        assert tags[a].name !in restNames;
      }
    }

    /** The entity for the tag row under `id`, as the persistence provider loads it. */
    method LoadTag(id: int) returns (g: Tag)
      requires id in tags
      ensures fresh(g) && Synced(g) && g.id == Some(id)
    {
      var row := tags[id];
      g := new Tag(row.name, row.description);
      g.id := Some(id);
      g.createdAt := Some(row.createdAt);
    }

    /** The entities for the tag rows under `ids`. */
    method LoadTags(ids: set<int>) returns (ts: set<Tag>)
      requires ids <= tags.Keys
      ensures AllSynced(ts) && IdsOf(ts) == ids
    {
      ts := {};
      var pending := ids;
      while pending != {}
        invariant pending <= ids
        invariant AllSynced(ts) && IdsOf(ts) == ids - pending
        decreases pending
      {
        var id := Sets.Choose(pending);
        var g := LoadTag(id);
        assert IdsOf(ts + {g}) == IdsOf(ts) + {id} by {
          assert g in ts + {g};
        }
        ts := ts + {g};
        pending := pending - {id};
      }
    }

    /** `existsById` on the tag table. */
    method ExistsTagById(id: int) returns (b: bool)
      ensures b <==> id in tags
    {
      b := id in tags;
    }

    /** `existsByName`. */
    method ExistsTagByName(name: string) returns (b: bool)
      ensures b <==> name in TagNames()
    {
      b := exists id | id in tags :: tags[id].name == name;
    }

    /** `findById` on the tag table. */
    method FindTagById(id: int) returns (r: Option<Tag>)
      ensures r.Some? <==> id in tags
      ensures r.Some? ==> fresh(r.value) && Synced(r.value) && r.value.id == Some(id)
    {
      if id in tags {
        var g := LoadTag(id);
        r := Some(g);
      } else {
        r := None;
      }
    }

    /** `findByName`: the one stored tag with that name, if any. */
    method FindTagByName(name: string) returns (r: Option<Tag>)
      ensures r.Some? <==> name in TagNames()
      ensures r.Some? ==> fresh(r.value) && Synced(r.value) && r.value.name == name
    {
      if id :| id in tags && tags[id].name == name {
        var g := LoadTag(id);
        r := Some(g);
      } else {
        r := None;
      }
    }

    /** `save` of a new tag: the insert that the unique name constraint admits. */
    method SaveNewTag(g: Tag, now: int)
      requires Valid() && g.id == None && g.name !in TagNames()
      modifies this, g
      ensures Valid()
      ensures g.id == Some(old(nextTagId)) && g.createdAt == Some(now)
      ensures g.name == old(g.name) && g.description == old(g.description)
      ensures old(nextTagId) !in old(tags) && tags == old(tags)[old(nextTagId) := TagRow(g.name, g.description, now)]
      ensures nextTagId == old(nextTagId) + 1 && nextTranslationId == old(nextTranslationId)
      ensures translations == old(translations)
      ensures Synced(g)
      ensures TagNames() == old(TagNames()) + {g.name}
      ensures View() == old(View())
    {
      ghost var oldNames := TagNames();
      var id := nextTagId;
      var row := TagRow(g.name, g.description, now);
      ViewUnaffected(translations, tags, id, row);
      g.id := Some(id);
      g.createdAt := Some(now);
      tags := tags[id := row];
      nextTagId := nextTagId + 1;
      assert TagNames() == oldNames + {g.name} by {
        forall x | x in TagNames()
          ensures x in oldNames + {g.name}
        {
          var a :| a in tags && tags[a].name == x;
          if a != id {
            assert a in old(tags) && old(tags)[a].name == x;
          }
        }
        forall x | x in oldNames
          ensures x in TagNames()
        {
          var a :| a in old(tags) && old(tags)[a].name == x;
          assert a in tags && tags[a].name == x;
        }
        assert tags[id].name == g.name;
      }
    }

    /**
     * `save` of a managed tag whose name or description the caller
     * changed; the creation stamp is not updatable. The unique constraint
     * admits the new name only when no other tag holds it.
     */
    method SaveTag(g: Tag)
      requires Valid() && g.id.Some? && g.id.value in tags
      requires forall k | k in tags && k != g.id.value :: tags[k].name != g.name
      modifies this
      ensures Valid()
      ensures tags == old(tags)[g.id.value := TagRow(g.name, g.description, old(tags)[g.id.value].createdAt)]
      ensures translations == old(translations) && nextTagId == old(nextTagId) && nextTranslationId == old(nextTranslationId)
    {
      var id := g.id.value;
      tags := tags[id := TagRow(g.name, g.description, tags[id].createdAt)];
    }

    /** Some translation row refers to the tag `id` through `translation_tags`. */
    predicate TagInUse(id: int)
      reads this
    {
      exists k | k in translations :: id in translations[k].tagIds
    }

    /**
     * `deleteById` of a tag, issued from the inverse side of the
     * many-to-many: the provider deletes the `tags` row and no
     * `translation_tags` row, so while a translation still carries the tag
     * the foreign key rejects the delete and the transaction rolls back
     * with nothing changed.
     */
    method DeleteTagById(id: int) returns (deleted: bool)
      requires Valid()
      modifies this
      ensures Valid()
      ensures deleted <==> !old(TagInUse(id))
      ensures tags == (if deleted then old(tags) - {id} else old(tags))
      ensures translations == old(translations) && View() == old(View())
      ensures nextTagId == old(nextTagId) && nextTranslationId == old(nextTranslationId)
    {
      if TagInUse(id) {
        return false;
      }
      ViewAfterDrop(translations, tags, id);
      tags := tags - {id};
      deleted := true;
    }

    /** `existsById` on the translation table. */
    method ExistsTranslationById(id: int) returns (b: bool)
      ensures b <==> id in View()
    {
      b := id in translations;
    }

    /** `findById` on the translation table: the entity with its tags loaded. */
    method FindTranslationById(id: int) returns (r: Option<Translation>)
      requires Valid()
      ensures r.Some? <==> id in View()
      ensures r.Some? ==> fresh(r.value) && r.value.Snapshot() == View()[id] && AllSynced(r.value.tags)
    {
      if id !in translations {
        return None;
      }
      var row := translations[id];
      var ts := LoadTags(row.tagIds);
      var t := new Translation(row.key, row.locale, row.content);
      t.id := Some(id);
      t.tags := ts;
      t.createdAt := Some(row.createdAt);
      t.updatedAt := Some(row.updatedAt);
      SyncedNames(tags, ts);
      r := Some(t);
    }

    /** `save` of a new translation: a plain insert, whatever rows already share its key and locale. */
    method SaveNewTranslation(t: Translation, now: int)
      requires Valid() && t.id == None && AllSynced(t.tags)
      modifies this, t
      ensures Valid()
      ensures t.id == Some(old(nextTranslationId)) && t.createdAt == Some(now) && t.updatedAt == Some(now)
      ensures t.key == old(t.key) && t.locale == old(t.locale) && t.content == old(t.content)
      ensures t.tags == old(t.tags)
      ensures translations == old(translations)[old(nextTranslationId) := TranslationRow(t.key, t.locale, t.content, IdsOf(t.tags), now, now)]
      ensures nextTranslationId == old(nextTranslationId) + 1 && nextTagId == old(nextTagId) && tags == old(tags)
      ensures t.Snapshot() == Inserted(old(t.Snapshot()), old(nextTranslationId), now)
      ensures View() == old(View())[old(nextTranslationId) := t.Snapshot()]
    {
      SyncedNames(tags, t.tags);
      var id := nextTranslationId;
      t.id := Some(id);
      t.createdAt := Some(now);
      t.updatedAt := Some(now);
      translations := translations[id := TranslationRow(t.key, t.locale, t.content, IdsOf(t.tags), now, now)];
      nextTranslationId := nextTranslationId + 1;
    }

    /**
     * `save` of a managed translation whose fields the caller changed:
     * the row keeps its identity and its creation stamp (not updatable)
     * and gets a new update stamp.
     */
    method SaveTranslation(t: Translation, now: int)
      requires Valid() && t.id.Some? && t.id.value in translations && AllSynced(t.tags)
      modifies this, t
      ensures Valid()
      ensures t.updatedAt == Some(now) && t.id == old(t.id) && t.createdAt == old(t.createdAt)
      ensures t.key == old(t.key) && t.locale == old(t.locale) && t.content == old(t.content)
      ensures t.tags == old(t.tags)
      ensures translations == old(translations)[t.id.value :=
        TranslationRow(t.key, t.locale, t.content, IdsOf(t.tags), old(translations)[t.id.value].createdAt, now)]
      ensures nextTagId == old(nextTagId) && nextTranslationId == old(nextTranslationId) && tags == old(tags)
      ensures t.Snapshot() == old(t.Snapshot()).(updatedAt := Some(now))
      ensures View() == old(View())[t.id.value := t.Snapshot().(createdAt := old(View())[t.id.value].createdAt)]
    {
      SyncedNames(tags, t.tags);
      var id := t.id.value;
      t.updatedAt := Some(now);
      translations := translations[id := TranslationRow(t.key, t.locale, t.content, IdsOf(t.tags), translations[id].createdAt, now)];
    }

    /** `saveAll` of new translations, inserted in list order. */
    method SaveAllNewTranslations(batch: seq<Translation>, now: int)
      requires Valid()
      requires forall i | 0 <= i < |batch| :: batch[i].id == None && AllSynced(batch[i].tags)
      requires forall i, j | 0 <= i < j < |batch| :: batch[i] != batch[j]
      modifies this, batch
      ensures Valid()
      ensures nextTranslationId == old(nextTranslationId) + |batch| && nextTagId == old(nextTagId) && tags == old(tags)
      ensures forall id :: id in translations <==> id in old(translations) || old(nextTranslationId) <= id < nextTranslationId
      ensures forall id | id in old(View()) :: View()[id] == old(View())[id]
      ensures forall i | 0 <= i < |batch| ::
        View()[old(nextTranslationId) + i] == Inserted(old(batch[i].Snapshot()), old(nextTranslationId) + i, now)
    {
      var i := 0;
      while i < |batch|
        invariant 0 <= i <= |batch|
        invariant Valid()
        invariant nextTranslationId == old(nextTranslationId) + i && nextTagId == old(nextTagId) && tags == old(tags)
        invariant forall id :: id in translations <==> id in old(translations) || old(nextTranslationId) <= id < nextTranslationId
        invariant forall id | id in old(View()) :: View()[id] == old(View())[id]
        invariant forall j | i <= j < |batch| :: batch[j].id == None && batch[j].Snapshot() == old(batch[j].Snapshot())
        invariant forall j | i <= j < |batch| :: batch[j].tags == old(batch[j].tags)
        invariant forall j | 0 <= j < i :: View()[old(nextTranslationId) + j] == Inserted(old(batch[j].Snapshot()), old(nextTranslationId) + j, now)
      {
        SaveNewTranslation(batch[i], now);
        i := i + 1;
      }
    }

    /** `deleteById` of a translation: the row and its associations go, the tags stay. */
    method DeleteTranslationById(id: int)
      requires Valid()
      modifies this
      ensures Valid()
      ensures translations == old(translations) - {id}
      ensures tags == old(tags) && nextTagId == old(nextTagId) && nextTranslationId == old(nextTranslationId)
      ensures View() == old(View()) - {id}
    {
      translations := translations - {id};
    }
  }
}

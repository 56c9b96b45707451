/**
 * `TranslationService`: create, update, read, search, export and delete
 * translations over the store, finding or creating tags by name.
 */
module TranslationServices {
  import opened Wrappers
  import opened Text
  import opened Entities
  import opened Persistence
  import opened Queries
  import opened Dtos
  import Sets

  /** The description given to a tag created on the fly for a translation. */
  const AUTO_CREATED_DESCRIPTION: string := "Auto-created tag"

  /** The message of the exception thrown for an unknown translation id. */
  function TranslationNotFound(id: int): string
  {
    "Translation not found with id: " + IntToString(id)
  }

  /** A table scan holds no row twice, since no two rows share an identity. */
  lemma ScanHasNoDuplicates(rows: seq<TranslationRecord>, view: map<int, TranslationRecord>)
    requires ScanOf(rows, view)
    ensures NoDuplicates(rows)
  {
  }

  /** The tag names a request asks for: none when its tag set is null. */
  function RequestedTags(dto: TranslationDto): set<string>
  {
    if dto.tags.Some? then dto.tags.value else {}
  }

  /** The row a valid create request inserts under identity `id` at time `now`. */
  function NewRecord(dto: TranslationDto, id: int, now: int): (r: TranslationRecord)
    requires ValidRequest(dto)
    ensures var d := ToDto(r);
      && d.key == dto.key && d.locale == dto.locale && d.content == dto.content
      && ReportedTags(d) == RequestedTags(dto)
      && d.id == Some(id) && d.createdAt == d.updatedAt == Some(now)
  {
    TranslationRecord(Some(id), dto.key.value, dto.locale.value, dto.content.value,
      RequestedTags(dto), Some(now), Some(now))
  }

  /**
   * The row after a valid update request: key, locale and content are
   * replaced, the tags only when the request's tag set is not null (an
   * empty set clears them), and the update stamp moves to `now`.
   */
  function UpdatedRecord(old_: TranslationRecord, dto: TranslationDto, now: int): (r: TranslationRecord)
    requires ValidRequest(dto)
    ensures var d := ToDto(r);
      && d.key == dto.key && d.locale == dto.locale && d.content == dto.content
      && ReportedTags(d) == (if dto.tags.Some? then dto.tags.value else old_.tags)
      && d.id == old_.id && d.createdAt == old_.createdAt && d.updatedAt == Some(now)
  {
    old_.(key := dto.key.value, locale := dto.locale.value, content := dto.content.value,
          tags := if dto.tags.Some? then dto.tags.value else old_.tags,
          updatedAt := Some(now))
  }

  /**
   * A request that passes validation gives a row that fits the
   * `translations` columns, whether it creates the row or updates one.
   */
  lemma ValidRequestFitsColumns(dto: TranslationDto, id: int, now: int, old_: TranslationRecord)
    requires ValidRequest(dto)
    ensures RecordFits(NewRecord(dto, id, now)) && RecordFits(UpdatedRecord(old_, dto, now))
  {
  }

  /**
   * `findOrCreateTag`: the stored tag with that name, or a new one with
   * the default description when there is none.
   */
  method FindOrCreateTag(store: Store, name: string, now: int) returns (g: Tag)
    requires store.Valid()
    modifies store
    ensures store.Valid() && store.Synced(g) && g.name == name
    ensures store.translations == old(store.translations) && store.View() == old(store.View())
    ensures store.TagNames() == old(store.TagNames()) + {name}
    ensures forall k | k in old(store.tags) :: k in store.tags && store.tags[k] == old(store.tags)[k]
    ensures store.nextTranslationId == old(store.nextTranslationId)
    ensures name in old(store.TagNames()) ==> store.tags == old(store.tags) && store.nextTagId == old(store.nextTagId)
    ensures name !in old(store.TagNames()) ==>
      && store.tags == old(store.tags)[old(store.nextTagId) := TagRow(name, Some(AUTO_CREATED_DESCRIPTION), now)]
      && store.nextTagId == old(store.nextTagId) + 1
  {
    var found := store.FindTagByName(name);
    if found.Some? {
      g := found.value;
    } else {
      g := new Tag(name, Some(AUTO_CREATED_DESCRIPTION));
      store.SaveNewTag(g, now);
    }
  }

  /**
   * The tag table `tags` after tags were found or created for `names`
   * from `oldTags`: every row stored before is kept as it was, and every
   * new row is an auto-created tag of one of those names, stamped `now`.
   */
  ghost predicate AutoCreated(oldTags: map<int, TagRow>, tags: map<int, TagRow>, names: set<string>, now: int)
  {
    && (forall k | k in oldTags :: k in tags && tags[k] == oldTags[k])
    && (forall k | k in tags && k !in oldTags ::
          tags[k].name in names && tags[k].description == Some(AUTO_CREATED_DESCRIPTION) && tags[k].createdAt == now)
  }

  /**
   * The progress of mapping `names` to tags: the names no longer pending
   * have their stored tags in `ts`, the store holds exactly the names it
   * held before plus those, and the rows it held before are untouched.
   */
  ghost predicate Mapped(store: Store, names: set<string>, pending: set<string>, ts: set<Tag>,
                         oldNames: set<string>, oldTags: map<int, TagRow>, now: int)
    reads store, ts
  {
    && pending <= names
    && store.Valid()
    && store.AllSynced(ts)
    && NamesOf(ts) == names - pending
    && store.TagNames() == oldNames + NamesOf(ts)
    && AutoCreated(oldTags, store.tags, names, now)
  }

  /** One step of the mapping: the tag for one pending name. */
  method MapOne(store: Store, names: set<string>, pending: set<string>, ts: set<Tag>, now: int,
                ghost oldNames: set<string>, ghost oldTags: map<int, TagRow>)
    returns (pending': set<string>, ts': set<Tag>)
    requires Mapped(store, names, pending, ts, oldNames, oldTags, now) && pending != {}
    modifies store
    ensures Mapped(store, names, pending', ts', oldNames, oldTags, now) && pending' < pending
    ensures store.translations == old(store.translations) && store.View() == old(store.View())
    ensures store.nextTranslationId == old(store.nextTranslationId)
  {
    var name := Sets.Choose(pending);
    ghost var tagsBefore := store.tags;
    ghost var namesBefore := NamesOf(ts);
    var g := FindOrCreateTag(store, name, now);
    assert NamesOf(ts) == namesBefore;
    SyncedGrow(tagsBefore, store.tags, ts);
    NamesOfAdd(ts, g);
    ts' := ts + {g};
    assert AllSyncedIn(store.tags, ts');
    pending' := pending - {name};
    Sets.MoveOne(names, pending, name);
  }

  /**
   * `dto.getTags().stream().map(this::findOrCreateTag).collect(toSet())`:
   * one stored tag per requested name; the names not yet stored get a
   * new tag each.
   */
  method FindOrCreateTags(store: Store, names: set<string>, now: int) returns (ts: set<Tag>)
    requires store.Valid()
    modifies store
    ensures store.Valid()
    ensures store.AllSynced(ts) && NamesOf(ts) == names
    ensures store.translations == old(store.translations) && store.View() == old(store.View())
    ensures store.TagNames() == old(store.TagNames()) + names
    ensures AutoCreated(old(store.tags), store.tags, names, now)
    ensures store.nextTranslationId == old(store.nextTranslationId)
  {
    ghost var oldNames := store.TagNames();
    ghost var oldTags := store.tags;
    ts := {};
    var pending := names;
    while pending != {}
      invariant Mapped(store, names, pending, ts, oldNames, oldTags, now)
      invariant store.translations == old(store.translations) && store.View() == old(store.View())
      invariant store.nextTranslationId == old(store.nextTranslationId)
      decreases pending
    {
      pending, ts := MapOne(store, names, pending, ts, now, oldNames, oldTags);
    }
  }

  /**
   * `convertToEntity`: a new, unsaved entity with the request's fields and,
   * when the request names tags, the stored tags of those names.
   */
  method ConvertToEntity(store: Store, dto: TranslationDto, now: int) returns (t: Translation)
    requires store.Valid() && ValidRequest(dto)
    modifies store
    ensures fresh(t) && t.id == None && AllSyncedIn(store.tags, t.tags) && t.ColumnsFit()
    ensures t.Snapshot() == TranslationRecord(None, dto.key.value, dto.locale.value, dto.content.value,
      RequestedTags(dto), None, None)
    ensures store.Valid() && store.View() == old(store.View()) && store.translations == old(store.translations)
    ensures store.TagNames() == old(store.TagNames()) + RequestedTags(dto)
    ensures AutoCreated(old(store.tags), store.tags, RequestedTags(dto), now)
    ensures store.nextTranslationId == old(store.nextTranslationId)
  {
    t := new Translation(dto.key.value, dto.locale.value, dto.content.value);
    if dto.tags.Some? && dto.tags.value != {} {
      var ts := FindOrCreateTags(store, dto.tags.value, now);
      assert AllSyncedIn(store.tags, ts);
      t.SetTags(ts);
    } else {
      assert NamesOf(t.tags) == {};
    }
  }

  /**
   * `createTranslation`: the request becomes a new row whose tags are the
   * stored tags of the requested names, created as needed; the row gets
   * the next identity of the translation table.
   */
  method CreateTranslation(store: Store, dto: TranslationDto, now: int) returns (r: TranslationDto)
    requires store.Valid() && ValidRequest(dto)
    modifies store
    ensures store.Valid()
    ensures r.id == Some(old(store.nextTranslationId)) && r.id.value !in old(store.View())
    ensures store.View() == old(store.View())[r.id.value := NewRecord(dto, r.id.value, now)]
    ensures r == ToDto(store.View()[r.id.value])
    ensures store.TagNames() == old(store.TagNames()) + RequestedTags(dto)
    ensures AutoCreated(old(store.tags), store.tags, RequestedTags(dto), now)
  {
    store.ViewSize();
    var t := ConvertToEntity(store, dto, now);
    store.SaveNewTranslation(t, now);
    r := ToDto(t.Snapshot());
  }

  /**
   * `updateTranslation`: fails for an unknown identity; otherwise the key,
   * locale and content are replaced, the tags only when the request's tag
   * set is not null (an empty set clears them), and the row is saved.
   */
  method UpdateTranslation(store: Store, id: int, dto: TranslationDto, now: int) returns (r: Result<TranslationDto, string>)
    requires store.Valid() && ValidRequest(dto)
    modifies store
    ensures store.Valid()
    ensures id !in old(store.View()) ==>
      && r == Err(TranslationNotFound(id))
      && store.translations == old(store.translations) && store.tags == old(store.tags)
      && store.nextTagId == old(store.nextTagId) && store.nextTranslationId == old(store.nextTranslationId)
    ensures id in old(store.View()) ==>
      && r.Ok?
      && store.View() == old(store.View())[id := UpdatedRecord(old(store.View())[id], dto, now)]
      && r.value == ToDto(store.View()[id])
      && store.TagNames() == old(store.TagNames()) + RequestedTags(dto)
      && AutoCreated(old(store.tags), store.tags, RequestedTags(dto), now)
  {
    var found := store.FindTranslationById(id);
    if found.None? {
      return Err(TranslationNotFound(id));
    }
    var t := found.value;
    t.SetKey(dto.key.value);
    t.SetLocale(dto.locale.value);
    t.SetContent(dto.content.value);
    if dto.tags.Some? {
      var ts := FindOrCreateTags(store, dto.tags.value, now);
      t.SetTags(ts);
    } else {
      assert store.AllSynced(t.tags);
    }
    store.SaveTranslation(t, now);
    r := Ok(ToDto(t.Snapshot()));
  }

  /** `getTranslationById`: the converted row, when there is one. */
  method GetTranslationById(store: Store, id: int) returns (r: Option<TranslationDto>)
    requires store.Valid()
    ensures r.Some? <==> id in store.View()
    ensures r.Some? ==> r.value == ToDto(store.View()[id])
  {
    var found := store.FindTranslationById(id);
    if found.Some? {
      r := Some(ToDto(found.value.Snapshot()));
    } else {
      r := None;
    }
  }

  /** Two different rows of the table share the key and the locale. */
  ghost predicate SharedKeyLocale(view: map<int, TranslationRecord>, key: string, locale: string)
  {
    exists i, j | i in view && j in view && i != j ::
      view[i].key == key && view[i].locale == locale && view[j].key == key && view[j].locale == locale
  }

  /** The lookup by key and locale fails exactly when two rows share them. */
  lemma KeyLocaleLookupFails(rows: seq<TranslationRecord>, view: map<int, TranslationRecord>, key: string, locale: string)
    requires ScanOf(rows, view)
    ensures FindByKeyAndLocale(rows, key, locale).Err? <==> SharedKeyLocale(view, key, locale)
  {
    ScanHasNoDuplicates(rows, view);
    var m := KeyLocaleMatches(rows, key, locale);
    if |m| >= 2 {
      assert m[0] in rows && m[1] in rows;
      var i := m[0].id.value;
      var j := m[1].id.value;
      assert i in view && view[i] == m[0];
      assert j in view && view[j] == m[1];
    }
    if SharedKeyLocale(view, key, locale) {
      var i, j :| i in view && j in view && i != j &&
        view[i].key == key && view[i].locale == locale && view[j].key == key && view[j].locale == locale;
      assert view[i] in m && view[j] in m;
      var p :| 0 <= p < |m| && m[p] == view[i];
      var q :| 0 <= q < |m| && m[q] == view[j];
      assert p != q;
    }
  }

  /**
   * `getTranslationByKeyAndLocale`: the converted row with that key and
   * locale; empty when there is none, and a failure when several rows
   * share them.
   */
  method GetTranslationByKeyAndLocale(store: Store, key: string, locale: string)
    returns (r: Result<Option<TranslationDto>, string>)
    requires store.Valid()
    ensures r == Ok(None) <==> forall x | x in RowsOf(store.View()) :: !(x.key == key && x.locale == locale)
    ensures r.Ok? && r.value.Some? ==>
      exists x | x in RowsOf(store.View()) :: r.value.value == ToDto(x) && x.key == key && x.locale == locale
    ensures r.Err? <==> SharedKeyLocale(store.View(), key, locale)
    ensures r.Err? ==> r.error == NON_UNIQUE_RESULT
  {
    var rows := store.Scan();
    ScanMembers(rows, store.View());
    KeyLocaleLookupFails(rows, store.View(), key, locale);
    var found := FindByKeyAndLocale(rows, key, locale);
    match found {
      case Err(e) => r := Err(e);
      case Ok(None) => r := Ok(None);
      case Ok(Some(x)) =>
        r := Ok(Some(ToDto(x)));
    }
  }

  /** What `searchTranslations` asks of a row, with the inner join over its tags. */
  ghost predicate SearchMatch(
    x: TranslationRecord,
    key: Option<string>, content: Option<string>, locale: Option<string>, tagName: Option<string>)
  {
    && OptLike(x.key, key) && OptLike(x.content, content) && OptEquals(x.locale, locale)
    && exists g :: g in x.tags && OptEquals(g, tagName)
  }

  /**
   * `searchTranslations`: the requested page of the converted rows that
   * match every given filter, each row once; `found` is the whole result
   * before paging.
   */
  method SearchTranslations(
    store: Store,
    key: Option<string>, content: Option<string>, locale: Option<string>, tagName: Option<string>,
    page: nat, size: nat)
    returns (p: Page<TranslationDto>, found: seq<TranslationRecord>)
    requires store.Valid() && size > 0
    ensures NoDuplicates(found)
    ensures forall x :: x in found <==> x in RowsOf(store.View()) && SearchMatch(x, key, content, locale, tagName)
    ensures p == Paginate(ToDtos(found), page, size)
  {
    var rows := store.Scan();
    ScanMembers(rows, store.View());
    var all := Queries.SearchTranslations(rows, key, content, locale, tagName);
    forall x
      ensures x in all <==> x in rows && SearchMatch(x, key, content, locale, tagName)
    {
      SearchMembers(rows, key, content, locale, tagName, x);
    }
    found := all;
    p := Paginate(ToDtos(all), page, size);
  }

  /** The keys of a sorted export are the keys of the rows of that locale. */
  lemma ExportedKeys(rows: seq<TranslationRecord>, sorted: seq<TranslationRecord>, locale: string)
    requires forall x :: x in sorted <==> x in rows && x.locale == locale
    ensures forall k :: k in EntryKeys(Export(sorted)) <==> exists x | x in rows :: x.locale == locale && x.key == k
  {
    ExportKeys(sorted);
    forall k | k in KeysOf(sorted)
      ensures exists x | x in rows :: x.locale == locale && x.key == k
    {
      var i :| 0 <= i < |sorted| && KeysOf(sorted)[i] == k;
      assert sorted[i] in sorted;
    }
    forall k | exists x | x in rows :: x.locale == locale && x.key == k
      ensures k in KeysOf(sorted)
    {
      var x :| x in rows && x.locale == locale && x.key == k;
      assert x in sorted;
      var i :| 0 <= i < |sorted| && sorted[i] == x;
      assert KeysOf(sorted)[i] == k;
    }
  }

  /** Each entry of the export holds the content of a row of that locale with its key. */
  lemma ExportedContents(rows: seq<TranslationRecord>, sorted: seq<TranslationRecord>, locale: string)
    requires forall x :: x in sorted <==> x in rows && x.locale == locale
    ensures forall e | e in Export(sorted) ::
      exists x | x in rows :: x.locale == locale && x.key == e.0 && x.content == e.1
  {
    ExportFirstWins(sorted);
    forall e | e in Export(sorted)
      ensures exists x | x in rows :: x.locale == locale && x.key == e.0 && x.content == e.1
    {
      var i :| 0 <= i < |sorted| && sorted[i].key == e.0 && sorted[i].content == e.1
        && forall j | 0 <= j < i :: sorted[j].key != e.0;
      assert sorted[i] in sorted;
    }
  }

  /**
   * `getTranslationsForLocale`: a key-to-content map of the rows of that
   * locale, its keys in ascending order, one entry per key holding the
   * content of the first row with that key.
   */
  method GetTranslationsForLocale(store: Store, locale: string) returns (e: seq<Entry>)
    requires store.Valid()
    ensures StrictlyAscending(EntryKeys(e))
    ensures forall k :: k in EntryKeys(e) <==>
      exists x | x in RowsOf(store.View()) :: x.locale == locale && x.key == k
    ensures forall y | y in e ::
      exists x | x in RowsOf(store.View()) :: x.locale == locale && x.key == y.0 && x.content == y.1
  {
    var rows := store.Scan();
    ScanMembers(rows, store.View());
    var sorted := FindByLocaleOrderByKey(rows, locale);
    e := Export(sorted);
    ExportAscending(sorted);
    ExportedKeys(rows, sorted, locale);
    ExportedContents(rows, sorted, locale);
  }

  /** `getAvailableLocales`: each locale in use, once, in ascending order. */
  method GetAvailableLocales(store: Store) returns (ls: seq<string>)
    requires store.Valid()
    ensures StrictlyAscending(ls)
    ensures forall l :: l in ls <==> exists x | x in RowsOf(store.View()) :: x.locale == l
  {
    var rows := store.Scan();
    ScanMembers(rows, store.View());
    ls := FindDistinctLocales(rows);
    DistinctLocalesMembers(rows);
    forall l | l in LocalesOf(rows)
      ensures exists x | x in rows :: x.locale == l
    {
      var i :| 0 <= i < |rows| && LocalesOf(rows)[i] == l;
      assert rows[i] in rows;
    }
    forall l | exists x | x in rows :: x.locale == l
      ensures l in LocalesOf(rows)
    {
      var x :| x in rows && x.locale == l;
      var i :| 0 <= i < |rows| && rows[i] == x;
      assert LocalesOf(rows)[i] == l;
    }
  }

  /** `getTranslationCount`: the number of rows. */
  method GetTranslationCount(store: Store) returns (n: nat)
    requires store.Valid()
    ensures n == |store.View()|
  {
    var rows := store.Scan();
    n := CountAll(rows);
  }

  /** `deleteTranslation`: fails for an unknown identity, otherwise removes the row. */
  method DeleteTranslation(store: Store, id: int) returns (r: Result<(), string>)
    requires store.Valid()
    modifies store
    ensures store.Valid()
    ensures r.Err? <==> id !in old(store.View())
    ensures r.Err? ==> r.error == TranslationNotFound(id) && store.translations == old(store.translations)
    ensures store.View() == old(store.View()) - {id} && store.tags == old(store.tags)
  {
    var exists_ := store.ExistsTranslationById(id);
    if !exists_ {
      return Err(TranslationNotFound(id));
    }
    store.DeleteTranslationById(id);
    r := Ok(());
  }
}

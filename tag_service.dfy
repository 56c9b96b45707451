/**
 * `TagService`: create, rename, read and delete tags, keeping tag names
 * unique.
 */
module TagServices {
  import opened Wrappers
  import opened Text
  import opened Entities
  import opened Persistence
  import opened Dtos

  /** The message of the exception thrown when a name is already taken. */
  function TagExists(name: string): string
  {
    "Tag with name '" + name + "' already exists"
  }

  /** The message of the exception thrown for an unknown tag id. */
  function TagNotFound(id: int): string
  {
    "Tag not found with id: " + IntToString(id)
  }

  /** `convertToDto`: the tag's fields. */
  function TagToDto(g: Tag): (d: TagDto)
    reads g
  {
    TagDto(g.id, g.name, g.description, g.createdAt)
  }

  /** The DTO of the tag stored under `id`. */
  function RowDto(id: int, row: TagRow): (d: TagDto)
  {
    TagDto(Some(id), row.name, row.description, Some(row.createdAt))
  }

  /** Converting a tag that matches its stored row gives exactly that row's DTO. */
  lemma StoredTagDto(tags: map<int, TagRow>, g: Tag)
    requires SyncedIn(tags, g)
    ensures g.id.value in tags && TagToDto(g) == RowDto(g.id.value, tags[g.id.value])
  {
  }

  /**
   * `createTag`: fails when the name is taken; otherwise stores a new tag
   * under the next identity, stamped `now`.
   */
  method CreateTag(store: Store, dto: TagDto, now: int) returns (r: Result<TagDto, string>)
    requires store.Valid()
    modifies store
    ensures store.Valid()
    ensures r.Err? <==> dto.name in old(store.TagNames())
    ensures r.Err? ==>
      && r.error == TagExists(dto.name)
      && store.tags == old(store.tags) && store.translations == old(store.translations)
      && store.nextTagId == old(store.nextTagId) && store.nextTranslationId == old(store.nextTranslationId)
    ensures r.Ok? ==>
      && old(store.nextTagId) !in old(store.tags)
      && store.tags == old(store.tags)[old(store.nextTagId) := TagRow(dto.name, dto.description, now)]
      && r.value == TagDto(Some(old(store.nextTagId)), dto.name, dto.description, Some(now))
      && store.TagNames() == old(store.TagNames()) + {dto.name}
      && store.View() == old(store.View())
  {
    var taken := store.ExistsTagByName(dto.name);
    if taken {
      return Err(TagExists(dto.name));
    }
    var g := new Tag(dto.name, dto.description);
    store.SaveNewTag(g, now);
    r := Ok(TagToDto(g));
  }

  /**
   * `updateTag`: fails for an unknown identity, and when the name changes
   * to one another tag holds; otherwise replaces the name and the
   * description. Every translation carrying the tag shows the new name.
   */
  method UpdateTag(store: Store, id: int, dto: TagDto) returns (r: Result<TagDto, string>)
    requires store.Valid()
    modifies store
    ensures store.Valid()
    ensures id !in old(store.tags) ==> r == Err(TagNotFound(id))
    ensures id in old(store.tags) && dto.name != old(store.tags)[id].name && dto.name in old(store.TagNames()) ==>
      r == Err(TagExists(dto.name))
    ensures r.Err? ==>
      && store.tags == old(store.tags) && store.translations == old(store.translations)
      && store.nextTagId == old(store.nextTagId) && store.nextTranslationId == old(store.nextTranslationId)
    ensures r.Ok? <==>
      id in old(store.tags) && (dto.name == old(store.tags)[id].name || dto.name !in old(store.TagNames()))
    ensures r.Ok? ==>
      && store.tags == old(store.tags)[id := TagRow(dto.name, dto.description, old(store.tags)[id].createdAt)]
      && r.value == RowDto(id, store.tags[id])
      && store.TagNames() == old(store.TagNames()) - {old(store.tags)[id].name} + {dto.name}
      && store.View().Keys == old(store.View()).Keys
      && (forall k | k in store.View() ::
            store.View()[k] == old(store.View())[k].(tags := Renamed(old(store.View())[k].tags, old(store.tags)[id].name, dto.name)))
  {
    var found := store.FindTagById(id);
    if found.None? {
      return Err(TagNotFound(id));
    }
    var g := found.value;
    if g.name != dto.name {
      var taken := store.ExistsTagByName(dto.name);
      if taken {
        return Err(TagExists(dto.name));
      }
    }
    ghost var tags0 := store.tags;
    g.SetName(dto.name);
    g.SetDescription(dto.description);
    store.SaveTag(g);
    ViewAfterRename(store.translations, tags0, id, store.tags[id]);
    NamesAfterRename(tags0, tags0.Keys, id, store.tags[id]);
    assert store.TagNames() == NamesOfIds(store.tags, tags0.Keys);
    assert old(store.TagNames()) == NamesOfIds(tags0, tags0.Keys);
    r := Ok(TagToDto(g));
  }

  /** `getTagById`: the stored tag under that identity, when there is one. */
  method GetTagById(store: Store, id: int) returns (r: Option<TagDto>)
    ensures r.Some? <==> id in store.tags
    ensures r.Some? ==> r.value == RowDto(id, store.tags[id])
  {
    var found := store.FindTagById(id);
    if found.Some? {
      r := Some(TagToDto(found.value));
    } else {
      r := None;
    }
  }

  /** `getTagByName`: the stored tag with that name, when there is one. */
  method GetTagByName(store: Store, name: string) returns (r: Option<TagDto>)
    ensures r.Some? <==> name in store.TagNames()
    ensures r.Some? ==>
      r.value.id.Some? && r.value.id.value in store.tags && r.value.name == name &&
      r.value == RowDto(r.value.id.value, store.tags[r.value.id.value])
  {
    var found := store.FindTagByName(name);
    if found.Some? {
      r := Some(TagToDto(found.value));
    } else {
      r := None;
    }
  }

  /**
   * A stand-in for the message of the data-integrity exception raised when
   * the foreign key from `translation_tags` rejects a tag delete; the real
   * text comes from the database driver.
   */
  const TAG_STILL_REFERENCED: string := "could not execute statement; foreign key constraint on translation_tags.tag_id"

  /**
   * `deleteTag`: fails for an unknown identity, and for a tag that some
   * translation still carries, since the delete removes no association;
   * otherwise removes the tag, which no translation showed.
   */
  method DeleteTag(store: Store, id: int) returns (r: Result<(), string>)
    requires store.Valid()
    modifies store
    ensures store.Valid()
    ensures id !in old(store.tags) ==> r == Err(TagNotFound(id))
    ensures id in old(store.tags) && old(store.TagInUse(id)) ==> r == Err(TAG_STILL_REFERENCED)
    ensures r.Ok? <==>
      id in old(store.tags) &&
      forall k | k in old(store.View()) :: old(store.tags)[id].name !in old(store.View())[k].tags
    ensures store.translations == old(store.translations) && store.View() == old(store.View())
    ensures r.Err? ==> store.tags == old(store.tags)
    ensures r.Ok? ==>
      && store.tags == old(store.tags) - {id}
      && store.TagNames() == old(store.TagNames()) - {old(store.tags)[id].name}
  {
    var exists_ := store.ExistsTagById(id);
    if !exists_ {
      return Err(TagNotFound(id));
    }
    InUseIffShown(store.translations, store.tags, id);
    ghost var tags0 := store.tags;
    var deleted := store.DeleteTagById(id);
    if !deleted {
      return Err(TAG_STILL_REFERENCED);
    }
    NamesAfterDelete(tags0, tags0.Keys, id);
    assert store.TagNames() == NamesOfIds(tags0 - {id}, tags0.Keys - {id});
    assert old(store.TagNames()) == NamesOfIds(tags0, tags0.Keys);
    r := Ok(());
  }
}

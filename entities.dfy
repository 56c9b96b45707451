/**
 * The two persistent entities. Both are mutable objects: the services
 * load an instance from the store, change it through its setters and
 * save it back.
 */
module Entities {
  import opened Wrappers
  import Sets

  /** Column length of `translations.translation_key`. */
  const MAX_KEY_LENGTH: nat := 255
  /** Column length of `translations.locale`. */
  const MAX_LOCALE_LENGTH: nat := 10

  /** A categorical label; its name is unique across the tag table. */
  class Tag {
    /** The generated identity; `None` until the store first saves the tag. */
    var id: Option<int>
    var name: string
    var description: Option<string>
    /** Stamped by the store when the row is inserted; never updated. */
    var createdAt: Option<int>

    constructor (name: string, description: Option<string>)
      ensures this.name == name && this.description == description
      ensures id == None && createdAt == None
    {
      this.id := None;
      this.name := name;
      this.description := description;
      this.createdAt := None;
    }

    method SetName(name: string)
      modifies this
      ensures this.name == name
      ensures description == old(description) && id == old(id) && createdAt == old(createdAt)
    {
      this.name := name;
    }

    method SetDescription(description: Option<string>)
      modifies this
      ensures this.description == description
      ensures name == old(name) && id == old(id) && createdAt == old(createdAt)
    {
      this.description := description;
    }
  }

  /** The names of a set of tags, read from the tag objects as they are now. */
  function NamesOf(tags: set<Tag>): set<string>
    reads tags
  {
    set g | g in tags :: g.name
  }

  /** Adding a tag adds its name. */
  lemma NamesOfAdd(tags: set<Tag>, g: Tag)
    ensures NamesOf(tags + {g}) == NamesOf(tags) + {g.name}
  {
    assert g in tags + {g};
  }

  /** The identities of those tags of a set that have one. */
  function IdsOf(tags: set<Tag>): set<int>
    reads tags
  {
    set g | g in tags && g.id.Some? :: g.id.value
  }

  /** Naming a set of tags never yields more names than tags. */
  lemma {:induction false} NamesOfAtMostTags(tags: set<Tag>)
    ensures |NamesOf(tags)| <= |tags|
    decreases |tags|
  {
    if tags != {} {
      var g := Sets.Pick(tags);
      var rest := tags - {g};
      NamesOfAtMostTags(rest);
      assert NamesOf(tags) == NamesOf(rest) + {g.name};
    }
  }

  /** A value copy of a translation row with its tags' names. */
  datatype TranslationRecord = TranslationRecord(
    id: Option<int>,
    key: string,
    locale: string,
    content: string,
    tags: set<string>,
    createdAt: Option<int>,
    updatedAt: Option<int>)

  /** The length limits of the `translations` columns, on a row's values. */
  predicate RecordFits(r: TranslationRecord)
  {
    |r.key| <= MAX_KEY_LENGTH && |r.locale| <= MAX_LOCALE_LENGTH
  }

  /** A localized string: a key, a locale, its content and a set of tags. */
  class Translation {
    /** The generated identity; `None` until the store first saves the row. */
    var id: Option<int>
    var key: string
    var locale: string
    var content: string
    /** A set, so the same tag is never associated twice. */
    var tags: set<Tag>
    /** Stamped by the store when the row is inserted; never updated. */
    var createdAt: Option<int>
    /** Stamped by the store on insert and on every update. */
    var updatedAt: Option<int>

    constructor (key: string, locale: string, content: string)
      ensures this.key == key && this.locale == locale && this.content == content
      ensures tags == {} && id == None && createdAt == None && updatedAt == None
    {
      this.id := None;
      this.key := key;
      this.locale := locale;
      this.content := content;
      this.tags := {};
      this.createdAt := None;
      this.updatedAt := None;
    }

    method SetKey(key: string)
      modifies this
      ensures this.key == key && Snapshot() == old(Snapshot()).(key := key)
      ensures locale == old(locale) && content == old(content) && tags == old(tags)
      ensures id == old(id) && createdAt == old(createdAt) && updatedAt == old(updatedAt)
    {
      this.key := key;
    }

    method SetLocale(locale: string)
      modifies this
      ensures this.locale == locale && Snapshot() == old(Snapshot()).(locale := locale)
      ensures key == old(key) && content == old(content) && tags == old(tags)
      ensures id == old(id) && createdAt == old(createdAt) && updatedAt == old(updatedAt)
    {
      this.locale := locale;
    }

    method SetContent(content: string)
      modifies this
      ensures this.content == content && Snapshot() == old(Snapshot()).(content := content)
      ensures key == old(key) && locale == old(locale) && tags == old(tags)
      ensures id == old(id) && createdAt == old(createdAt) && updatedAt == old(updatedAt)
    {
      this.content := content;
    }

    /** Replaces the whole association set. */
    method SetTags(tags: set<Tag>)
      modifies this
      ensures this.tags == tags && NamesOf(this.tags) == old(NamesOf(tags))
      ensures Snapshot() == old(Snapshot()).(tags := old(NamesOf(tags)))
      ensures key == old(key) && locale == old(locale) && content == old(content)
      ensures id == old(id) && createdAt == old(createdAt) && updatedAt == old(updatedAt)
    {
      this.tags := tags;
    }

    /** The entity fits the columns of the `translations` table. */
    predicate ColumnsFit()
      reads this, tags
    {
      RecordFits(Snapshot())
    }

    /** The row as the repository's queries see it. */
    function Snapshot(): (r: TranslationRecord)
      reads this, tags
    {
      TranslationRecord(id, key, locale, content, NamesOf(tags), createdAt, updatedAt)
    }
  }
}

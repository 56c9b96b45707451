/**
 * `DataLoaderService`: seeds the store with the default administrator,
 * eight tags and 100 batches of 1000 keys, each key in three locales,
 * with generated content and up to three random tags per row. The
 * random source is an oracle: every property holds whatever it draws.
 */
module DataLoader {
  import opened Wrappers
  import opened Text
  import opened Entities
  import opened Persistence
  import opened Sets
  import Auth

  const LOCALES: seq<string> := ["en", "fr", "es"]
  const TAG_NAMES: seq<string> := ["mobile", "desktop", "web", "api", "ui", "error", "success", "warning"]
  const KEY_PREFIXES: seq<string> := [
    "welcome", "error", "success", "button", "label", "message", "title", "description",
    "navigation", "form", "validation", "notification", "dialog", "menu", "footer", "header"]

  /** `targetCount`: the number of keys generated. */
  const TARGET_COUNT: nat := 100000
  /** `batchSize`: keys per `saveAll`. */
  const BATCH_SIZE: nat := 1000
  /** `random.nextInt(4)` draws a tag count below this. */
  const TAG_COUNT_BOUND: nat := 4
  /** The rows of one batch: `batchSize` keys times the three locales. */
  const ROWS_PER_BATCH: nat := 3000

  /** The message `load` returns. */
  const LOADED: string := "Data loaded"

  /** The description of a tag the seeder creates. */
  function SeedDescription(name: string): string
  {
    "Auto-generated tag for " + name
  }

  /** The content templates per locale, keyed by key prefix. */
  const TEMPLATES: map<string, map<string, string>> := map[
    "en" := map[
      "welcome" := "Welcome to our application",
      "error" := "An error occurred",
      "success" := "Operation completed successfully",
      "button" := "Click here",
      "label" := "Field label",
      "message" := "This is a message",
      "title" := "Page title",
      "description" := "This is a description"],
    "fr" := map[
      "welcome" := "Bienvenue dans notre application",
      "error" := "Une erreur s'est produite",
      "success" := "Opération terminée avec succès",
      "button" := "Cliquez ici",
      "label" := "Libellé du champ",
      "message" := "Ceci est un message",
      "title" := "Titre de la page",
      "description" := "Ceci est une description"],
    "es" := map[
      "welcome" := "Bienvenido a nuestra aplicación",
      "error" := "Ocurrió un error",
      "success" := "Operación completada exitosamente",
      "button" := "Haz clic aquí",
      "label" := "Etiqueta del campo",
      "message" := "Este es un mensaje",
      "title" := "Título de la página",
      "description" := "Esta es una descripción"]]

  /** The locale has a template for the key's first dot-separated part. */
  predicate HasTemplate(key: string, locale: string)
    requires !SplitsToNothing(key)
  {
    locale in TEMPLATES && FirstSplitPart(key) in TEMPLATES[locale]
  }

  /**
   * `generateContent`: the locale's template for the key's first
   * dot-separated part followed by the key in parentheses, or a generic
   * text naming the key and the locale. A key made only of dots has no
   * first part (Java indexes an empty array), so it is excluded.
   */
  function GenerateContent(key: string, locale: string): (c: string)
    requires !SplitsToNothing(key)
    ensures HasTemplate(key, locale) ==> |c| > |key| + 2 && c[|c| - |key| - 2..] == "(" + key + ")"
    ensures !HasTemplate(key, locale) ==> |c| > 12 && c[..12] == "Content for "
  {
    if HasTemplate(key, locale) then Templated(TEMPLATES[locale][FirstSplitPart(key)], key)
    else Generic(key, locale)
  }

  /** A template followed by the key in parentheses; the text ends with "(key)". */
  function Templated(t: string, key: string): (c: string)
    ensures |c| > |key| + 2 && c[|c| - |key| - 2..] == "(" + key + ")"
  {
    var c := t + " (" + key + ")";
    assert c[|t| + 1..] == "(" + key + ")";
    c
  }

  /** The text for a key without a template; it starts with "Content for ". */
  function Generic(key: string, locale: string): (c: string)
    ensures |c| > 12 && c[..12] == "Content for "
  {
    var c := "Content for " + key + " in " + locale;
    assert c[..12] == "Content for ";
    c
  }

  /** Every generated content names its key. */
  lemma ContentNamesKey(key: string, locale: string)
    requires !SplitsToNothing(key)
    ensures Contains(GenerateContent(key, locale), key)
  {
    var prefix := FirstSplitPart(key);
    var c := GenerateContent(key, locale);
    if locale in TEMPLATES && prefix in TEMPLATES[locale] {
      var t := TEMPLATES[locale][prefix];
      assert c == t + " (" + key + ")";
      assert c[|t| + 2..|t| + 2 + |key|] == key;
      assert OccursAt(c, key, |t| + 2);
    } else {
      assert c == "Content for " + key + " in " + locale;
      assert c[12..12 + |key|] == key;
      assert OccursAt(c, key, 12);
    }
  }

  /** The key for number `n` under a prefix: `keyPrefix + "." + n`. */
  function KeyOf(prefix: string, n: nat): string
  {
    prefix + "." + NatToString(n)
  }

  /** A usable key prefix: not empty and without a dot. */
  predicate ValidPrefix(p: string)
  {
    |p| > 0 && DotFree(p)
  }

  lemma PrefixesValid()
    ensures forall i | 0 <= i < |KEY_PREFIXES| :: ValidPrefix(KEY_PREFIXES[i])
  {
  }

  /** The first part of a key built from a valid prefix is that prefix. */
  lemma KeyOfSplits(p: string, n: nat)
    requires ValidPrefix(p)
    ensures !SplitsToNothing(KeyOf(p, n)) && BeforeFirstDot(KeyOf(p, n)) == p
  {
    BeforeFirstDotOfDotted(p, NatToString(n));
    assert KeyOf(p, n)[0] == p[0];
  }

  /** `k` is the key the seeder builds for number `n` under one of its prefixes. */
  ghost predicate GeneratedKey(k: string, n: nat)
  {
    && !SplitsToNothing(k)
    && exists p | 0 <= p < |KEY_PREFIXES| :: k == KeyOf(KEY_PREFIXES[p], n)
  }

  lemma GeneratedKeyOf(i: nat, n: nat)
    requires i < |KEY_PREFIXES|
    ensures GeneratedKey(KeyOf(KEY_PREFIXES[i], n), n)
  {
    PrefixesValid();
    KeyOfSplits(KEY_PREFIXES[i], n);
  }

  /**
   * A generated key determines its number, so keys generated for
   * different numbers differ, whatever prefixes were drawn.
   */
  lemma GeneratedKeyNumber(k: string, n1: nat, n2: nat)
    requires GeneratedKey(k, n1) && GeneratedKey(k, n2)
    ensures n1 == n2
  {
    var p1 :| 0 <= p1 < |KEY_PREFIXES| && k == KeyOf(KEY_PREFIXES[p1], n1);
    var p2 :| 0 <= p2 < |KEY_PREFIXES| && k == KeyOf(KEY_PREFIXES[p2], n2);
    PrefixesValid();
    KeyOfSplits(KEY_PREFIXES[p1], n1);
    KeyOfSplits(KEY_PREFIXES[p2], n2);
    var p := BeforeFirstDot(k);
    assert k[|p| + 1..] == NatToString(n1);
    assert k[|p| + 1..] == NatToString(n2);
    NatToStringInjective(n1, n2);
  }

  /**
   * The template for a generated key is looked up under the prefix it
   * was built from.
   */
  lemma GeneratedContent(p: string, n: nat, locale: string)
    requires ValidPrefix(p)
    ensures var key := KeyOf(p, n);
      !SplitsToNothing(key) &&
      GenerateContent(key, locale) ==
        if locale in TEMPLATES && p in TEMPLATES[locale] then TEMPLATES[locale][p] + " (" + key + ")"
        else "Content for " + key + " in " + locale
  {
    KeyOfSplits(p, n);
  }

  /**
   * `ThreadLocalRandom` as an oracle: the `k`-th draw is `source(k)`,
   * reduced below the requested bound.
   */
  class Random {
    const source: nat -> nat
    var draws: nat

    constructor (source: nat -> nat)
      ensures this.source == source && draws == 0
    {
      this.source := source;
      draws := 0;
    }

    /** `nextInt(bound)`: a number below `bound`. */
    method NextInt(bound: nat) returns (r: nat)
      requires bound > 0
      modifies this
      ensures r < bound && r == source(old(draws)) % bound
      ensures draws == old(draws) + 1
    {
      r := source(draws) % bound;
      draws := draws + 1;
    }
  }

  /**
   * The tags created so far: one per name of `TAG_NAMES[..|ts|]`, in
   * order, each matching its row; the rows present before are kept, the
   * new ones carry the seeder's description, and nothing is created when
   * every name was already stored.
   */
  ghost predicate TagsLoaded(store: Store, ts: seq<Tag>, oldTags: map<int, TagRow>, oldNames: set<string>)
    reads store, Elems(ts)
  {
    && |ts| <= |TAG_NAMES|
    && store.Valid()
    && (forall j | 0 <= j < |ts| :: ts[j].name == TAG_NAMES[j])
    && store.AllSynced(Elems(ts))
    && store.TagNames() == oldNames + Elems(TAG_NAMES[..|ts|])
    && SeedGrown(oldTags, store.tags)
    && (Elems(TAG_NAMES) <= oldNames ==> store.tags == oldTags)
  }

  /**
   * The tag table `tags` grew from `oldTags` by seeding: the rows stored
   * before are kept, and every new row has the seeder's description.
   */
  ghost predicate SeedGrown(oldTags: map<int, TagRow>, tags: map<int, TagRow>)
  {
    && (forall k | k in oldTags :: k in tags && tags[k] == oldTags[k])
    && (forall k | k in tags && k !in oldTags :: tags[k].description == Some(SeedDescription(tags[k].name)))
  }

  /** Adding one seeded tag row under a new identity keeps the table seeded. */
  lemma SeedGrownStep(oldTags: map<int, TagRow>, tags: map<int, TagRow>, id: int, name: string, now: int)
    requires SeedGrown(oldTags, tags) && id !in tags
    ensures SeedGrown(oldTags, tags[id := TagRow(name, Some(SeedDescription(name)), now)])
  {
  }

  /** The loop body of `createTags`: the stored tag of that name, or a new one. */
  method LoadOrCreateTag(store: Store, name: string, now: int) returns (g: Tag)
    requires store.Valid()
    modifies store
    ensures store.Valid() && store.Synced(g) && g.name == name
    ensures store.translations == old(store.translations) && store.View() == old(store.View())
    ensures store.TagNames() == old(store.TagNames()) + {name}
    ensures name in old(store.TagNames()) ==> store.tags == old(store.tags)
    ensures name !in old(store.TagNames()) ==>
      old(store.nextTagId) !in old(store.tags) &&
      store.tags == old(store.tags)[old(store.nextTagId) := TagRow(name, Some(SeedDescription(name)), now)]
  {
    var taken := store.ExistsTagByName(name);
    if !taken {
      g := new Tag(name, Some(SeedDescription(name)));
      store.SaveNewTag(g, now);
    } else {
      var found := store.FindTagByName(name);
      g := found.value;
    }
  }

  /** One step of `createTags`. */
  method LoadNextTag(store: Store, ts: seq<Tag>, now: int, ghost oldTags: map<int, TagRow>, ghost oldNames: set<string>)
    returns (ts': seq<Tag>)
    requires TagsLoaded(store, ts, oldTags, oldNames) && |ts| < |TAG_NAMES|
    modifies store
    ensures TagsLoaded(store, ts', oldTags, oldNames) && |ts'| == |ts| + 1
    ensures store.translations == old(store.translations) && store.View() == old(store.View())
  {
    var name := TAG_NAMES[|ts|];
    ghost var tagsBefore := store.tags;
    ghost var idBefore := store.nextTagId;
    var g := LoadOrCreateTag(store, name, now);
    if store.tags != tagsBefore {
      SeedGrownStep(oldTags, tagsBefore, idBefore, name, now);
    }
    SyncedGrow(tagsBefore, store.tags, Elems(ts));
    ts' := ts + [g];
    assert Elems(ts') == Elems(ts) + {g};
    assert TAG_NAMES[..|ts'|] == TAG_NAMES[..|ts|] + [name];
    assert Elems(TAG_NAMES[..|ts'|]) == Elems(TAG_NAMES[..|ts|]) + {name};
    assert name in Elems(TAG_NAMES);
  }

  /**
   * `createTags`: one tag per name of `TAG_NAMES`, in order; a name
   * already stored is reused, the others are created with the seeder's
   * description. When every name is stored already nothing changes, so a
   * second run creates no tags.
   */
  method CreateTags(store: Store, now: int) returns (ts: seq<Tag>)
    requires store.Valid()
    modifies store
    ensures store.Valid()
    ensures |ts| == |TAG_NAMES| && forall j | 0 <= j < |ts| :: ts[j].name == TAG_NAMES[j]
    ensures store.AllSynced(Elems(ts))
    ensures store.TagNames() == old(store.TagNames()) + Elems(TAG_NAMES)
    ensures forall k | k in old(store.tags) :: k in store.tags && store.tags[k] == old(store.tags)[k]
    ensures forall k | k in store.tags && k !in old(store.tags) ::
      store.tags[k].description == Some(SeedDescription(store.tags[k].name))
    ensures Elems(TAG_NAMES) <= old(store.TagNames()) ==> store.tags == old(store.tags)
    ensures store.translations == old(store.translations) && store.View() == old(store.View())
  {
    ts := [];
    assert TAG_NAMES[..0] == [];
    while |ts| < |TAG_NAMES|
      invariant TagsLoaded(store, ts, old(store.tags), old(store.TagNames()))
      invariant store.translations == old(store.translations) && store.View() == old(store.View())
      decreases |TAG_NAMES| - |ts|
    {
      ts := LoadNextTag(store, ts, now, old(store.tags), old(store.TagNames()));
    }
    assert TAG_NAMES[..|ts|] == TAG_NAMES;
  }

  /** `random.nextInt(4)` tags drawn from `pool`, as a set: at most three of them. */
  method PickTags(pool: seq<Tag>, rnd: Random) returns (s: set<Tag>)
    requires |pool| > 0
    modifies rnd
    ensures s <= Elems(pool) && |s| < TAG_COUNT_BOUND
  {
    var count := rnd.NextInt(TAG_COUNT_BOUND);
    s := {};
    for j := 0 to count
      invariant s <= Elems(pool) && |s| <= j
    {
      var k := rnd.NextInt(|pool|);
      s := s + {pool[k]};
    }
  }

  /** A new, unsaved row as the seeder builds it for number `n` in `locale`, its tags drawn from `pool`. */
  ghost predicate NewSeedRow(t: Translation, n: nat, locale: string, pool: set<Tag>)
    reads t
  {
    && t.id == None && t.createdAt == None && t.updatedAt == None
    && GeneratedKey(t.key, n) && t.locale == locale
    && t.tags <= pool && |t.tags| < TAG_COUNT_BOUND
  }

  /** The body of the loop over the locales: one row of the key in that locale. */
  method NewSeedTranslation(key: string, n: nat, locale: string, pool: seq<Tag>, rnd: Random) returns (t: Translation)
    requires GeneratedKey(key, n) && |pool| > 0
    modifies rnd
    ensures fresh(t) && NewSeedRow(t, n, locale, Elems(pool)) && t.key == key
    ensures t.content == GenerateContent(key, locale)
  {
    t := new Translation(key, locale, GenerateContent(key, locale));
    var s := PickTags(pool, rnd);
    t.SetTags(s);
  }

  /** The rows of one key: one per locale, in the order of `LOCALES`, all different. */
  ghost predicate KeyGroup(rows: seq<Translation>, n: nat, pool: set<Tag>)
    reads Elems(rows)
  {
    && |rows| == |LOCALES|
    && (forall l | 0 <= l < |rows| :: NewSeedRow(rows[l], n, LOCALES[l], pool) && rows[l].key == rows[0].key)
    && AllDistinct(rows)
  }

  /** `for (String locale : LOCALES)`: one new row of the key per locale. */
  method KeyRows(key: string, n: nat, pool: seq<Tag>, rnd: Random) returns (rows: seq<Translation>)
    requires GeneratedKey(key, n) && |pool| > 0
    modifies rnd
    ensures forall l | 0 <= l < |rows| :: fresh(rows[l])
    ensures KeyGroup(rows, n, Elems(pool))
  {
    rows := [];
    for l := 0 to |LOCALES|
      invariant |rows| == l
      invariant forall j | 0 <= j < l :: fresh(rows[j]) && NewSeedRow(rows[j], n, LOCALES[j], Elems(pool)) && rows[j].key == key
      invariant forall a, b | 0 <= a < b < l :: rows[a] != rows[b]
    {
      var t := NewSeedTranslation(key, n, LOCALES[l], pool, rnd);
      rows := rows + [t];
    }
  }

  /**
   * The number the `i`-th key of batch `batch` gets: `batch * batchSize + i + 1`,
   * so the run numbers its keys 1 to `TARGET_COUNT`, each once.
   */
  function KeyNumber(batch: nat, i: nat): (n: nat)
    requires batch < TARGET_COUNT / BATCH_SIZE && i < BATCH_SIZE
    ensures 1 <= n <= TARGET_COUNT
  {
    batch * BATCH_SIZE + i + 1
  }

  /** Different positions in the run get different numbers. */
  lemma KeyNumberInjective(b1: nat, i1: nat, b2: nat, i2: nat)
    requires b1 < TARGET_COUNT / BATCH_SIZE && i1 < BATCH_SIZE
    requires b2 < TARGET_COUNT / BATCH_SIZE && i2 < BATCH_SIZE
    requires KeyNumber(b1, i1) == KeyNumber(b2, i2)
    ensures b1 == b2 && i1 == i2
  {
  }

  /** Position `j` of a batch holds a row in locale `LOCALES[LocaleSlot(j)]`. */
  function LocaleSlot(j: nat): (l: nat)
    ensures l < |LOCALES| && l <= j
  {
    j % 3
  }

  /** Position `j` of a batch belongs to the batch's `KeyIndex(j)`-th key. */
  function KeyIndex(j: nat): (k: nat)
    ensures j == |LOCALES| * k + LocaleSlot(j)
  {
    j / 3
  }

  /**
   * The rows of batch `batch`: for each of its keys, in order, one row
   * per locale; position `j` holds the row of key number
   * `batch * BATCH_SIZE + j / 3 + 1` in locale `LOCALES[j % 3]`.
   */
  ghost predicate BatchRows(ts: seq<Translation>, batch: nat, pool: set<Tag>)
    reads Elems(ts)
  {
    BatchShape(ts, batch, pool) && AllDistinct(ts)
  }

  /** Each position holds the row its key number and locale call for. */
  ghost predicate BatchShape(ts: seq<Translation>, batch: nat, pool: set<Tag>)
    reads Elems(ts)
  {
    forall j | 0 <= j < |ts| ::
      && NewSeedRow(ts[j], batch * BATCH_SIZE + KeyIndex(j) + 1, LOCALES[LocaleSlot(j)], pool)
      && (LocaleSlot(j) != 0 ==> ts[j].key == ts[j - 1].key)
  }

  /** No object appears twice. */
  ghost predicate AllDistinct(ts: seq<Translation>)
  {
    forall a, b | 0 <= a < b < |ts| :: ts[a] != ts[b]
  }

  /** Position `3 * i + l` holds locale `l` of the `i`-th key. */
  lemma SlotOf(i: nat, l: nat)
    requires l < |LOCALES|
    ensures LocaleSlot(3 * i + l) == l && KeyIndex(3 * i + l) == i
  {
  }

  /** The rows of the next key, appended to a batch, keep it in shape. */
  lemma AppendKeyShape(ts: seq<Translation>, rows: seq<Translation>, batch: nat, i: nat, pool: set<Tag>)
    requires BatchShape(ts, batch, pool) && |ts| == 3 * i
    requires KeyGroup(rows, batch * BATCH_SIZE + i + 1, pool)
    ensures BatchShape(ts + rows, batch, pool)
  {
    var ts' := ts + rows;
    forall j | |ts| <= j < |ts'|
      ensures && NewSeedRow(ts'[j], batch * BATCH_SIZE + KeyIndex(j) + 1, LOCALES[LocaleSlot(j)], pool)
              && (LocaleSlot(j) != 0 ==> ts'[j].key == ts'[j - 1].key)
    {
      SlotOf(i, j - |ts|);
    }
  }

  /** Two sequences without repeats and without common objects concatenate to one without repeats. */
  lemma AppendDistinct(ts: seq<Translation>, rows: seq<Translation>)
    requires AllDistinct(ts) && AllDistinct(rows)
    requires forall a, b | 0 <= a < |ts| && 0 <= b < |rows| :: ts[a] != rows[b]
    ensures AllDistinct(ts + rows)
  {
    var ts' := ts + rows;
    forall a, b | 0 <= a < b < |ts'|
      ensures ts'[a] != ts'[b]
    {
      if b >= |ts| && a < |ts| {
        assert ts'[a] == ts[a] && ts'[b] == rows[b - |ts|];
      }
    }
  }

  /**
   * One pass of the loop over `i`: draws a prefix, builds the key
   * `prefix + "." + (batch * batchSize + i + 1)` and appends its rows.
   */
  method AddKey(ts: seq<Translation>, batch: nat, i: nat, pool: seq<Tag>, rnd: Random) returns (ts': seq<Translation>)
    requires batch < TARGET_COUNT / BATCH_SIZE && i < BATCH_SIZE && |pool| > 0
    requires |ts| == 3 * i && BatchRows(ts, batch, Elems(pool))
    modifies rnd
    ensures |ts'| == 3 * (i + 1) && BatchRows(ts', batch, Elems(pool))
    ensures ts'[..|ts|] == ts && forall j | |ts| <= j < |ts'| :: fresh(ts'[j])
  {
    var p := rnd.NextInt(|KEY_PREFIXES|);
    var n := KeyNumber(batch, i);
    var key := KeyOf(KEY_PREFIXES[p], n);
    GeneratedKeyOf(p, n);
    var rows := KeyRows(key, n, pool, rnd);
    AppendKeyShape(ts, rows, batch, i, Elems(pool));
    AppendDistinct(ts, rows);
    ts' := ts + rows;
  }

  /** The body of the batch loop up to `saveAll`: `batchSize` keys, each in every locale. */
  method BuildBatch(batch: nat, pool: seq<Tag>, rnd: Random) returns (ts: seq<Translation>)
    requires batch < TARGET_COUNT / BATCH_SIZE && |pool| > 0
    modifies rnd
    ensures |ts| == BATCH_SIZE * |LOCALES|
    ensures forall j | 0 <= j < |ts| :: fresh(ts[j])
    ensures BatchRows(ts, batch, Elems(pool))
  {
    ts := [];
    for i := 0 to BATCH_SIZE
      invariant |ts| == 3 * i
      invariant forall j | 0 <= j < |ts| :: fresh(ts[j])
      invariant BatchRows(ts, batch, Elems(pool))
    {
      ts := AddKey(ts, batch, i, pool, rnd);
    }
  }

  /**
   * A row as `saveAll` leaves a seeded one: a generated key for number
   * `n`, the locale, at most three of the tag names, both stamps `now`.
   */
  ghost predicate SeedRecord(r: TranslationRecord, n: nat, locale: string, names: set<string>, now: int)
  {
    && GeneratedKey(r.key, n) && r.locale == locale
    && r.tags <= names && |r.tags| < TAG_COUNT_BOUND
    && r.createdAt == Some(now) && r.updatedAt == Some(now)
  }

  /**
   * The batch as the values `saveAll` receives: record `j` has key number
   * `batch * batchSize + j / 3 + 1` in locale `LOCALES[j % 3]`, at most
   * three of the tag names, and the key of record `j - 1` unless it
   * starts a new key.
   */
  ghost predicate BatchRecords(recs: seq<TranslationRecord>, batch: nat, names: set<string>)
  {
    forall j | 0 <= j < |recs| ::
      && GeneratedKey(recs[j].key, batch * BATCH_SIZE + KeyIndex(j) + 1)
      && recs[j].locale == LOCALES[LocaleSlot(j)]
      && recs[j].tags <= names && |recs[j].tags| < TAG_COUNT_BOUND
      && (LocaleSlot(j) != 0 ==> recs[j].key == recs[j - 1].key)
  }

  /** Naming a subset of the tags gives a subset of their names. */
  lemma NamesOfSubset(ts: set<Tag>, pool: set<Tag>)
    requires ts <= pool
    ensures NamesOf(ts) <= NamesOf(pool)
  {
    forall x | x in NamesOf(ts)
      ensures x in NamesOf(pool)
    {
      var g :| g in ts && g.name == x;
      assert g in pool;
    }
  }

  /** The snapshots of a built batch are records of that batch. */
  lemma BatchAsRecords(ts: seq<Translation>, recs: seq<TranslationRecord>, batch: nat, pool: set<Tag>)
    requires BatchRows(ts, batch, pool)
    requires |recs| == |ts| && forall j | 0 <= j < |ts| :: recs[j] == ts[j].Snapshot()
    ensures BatchRecords(recs, batch, NamesOf(pool))
  {
    forall j | 0 <= j < |recs|
      ensures recs[j].tags <= NamesOf(pool) && |recs[j].tags| < TAG_COUNT_BOUND
    {
      NamesOfSubset(ts[j].tags, pool);
      NamesOfAtMostTags(ts[j].tags);
    }
  }

  /**
   * Offsets `lo` to `hi` past `base` hold seeded rows: offset `o` has key
   * number `o / 3 + 1` in locale `LOCALES[o % 3]`, and the same key as the
   * offset before it unless it starts a new key.
   */
  ghost predicate SeededRange(view: map<int, TranslationRecord>, base: int, lo: nat, hi: nat, names: set<string>, now: int)
  {
    forall o | lo <= o < hi :: SeededAt(view, base, o, names, now)
  }

  /** Offset `o` past `base` holds the seeded row with key number `o / 3 + 1` in locale `LOCALES[o % 3]`. */
  ghost predicate SeededAt(view: map<int, TranslationRecord>, base: int, o: nat, names: set<string>, now: int)
  {
    && base + o in view
    && SeedRecord(view[base + o], KeyIndex(o) + 1, LOCALES[LocaleSlot(o)], names, now)
    && (LocaleSlot(o) != 0 ==> base + o - 1 in view && view[base + o].key == view[base + o - 1].key)
  }

  /** Offset `j` of batch `batch` is offset `lo + j` of the run, `lo` being where the batch starts. */
  lemma BatchOffset(batch: nat, lo: nat, j: nat)
    requires lo == batch * ROWS_PER_BATCH && j < ROWS_PER_BATCH
    ensures KeyIndex(lo + j) == batch * BATCH_SIZE + KeyIndex(j)
    ensures LocaleSlot(lo + j) == LocaleSlot(j)
  {
    SlotOf(batch * BATCH_SIZE + KeyIndex(j), LocaleSlot(j));
  }

  /** Storing a seed record keeps what `SeedRecord` asks of it and adds the stamps. */
  lemma InsertedRecord(r: TranslationRecord, id: int, n: nat, locale: string, names: set<string>, now: int)
    requires GeneratedKey(r.key, n) && r.locale == locale && r.tags <= names && |r.tags| < TAG_COUNT_BOUND
    ensures SeedRecord(Inserted(r, id, now), n, locale, names, now)
  {
  }

  /** The records of batch `batch`, stored in order from offset `lo`, seed that slice of the run. */
  lemma InsertedBatch(view: map<int, TranslationRecord>, recs: seq<TranslationRecord>, base: int, batch: nat,
                      lo: nat, names: set<string>, now: int)
    requires lo == batch * ROWS_PER_BATCH
    requires BatchRecords(recs, batch, names) && |recs| == ROWS_PER_BATCH
    requires forall j | 0 <= j < |recs| ::
      base + lo + j in view && view[base + lo + j] == Inserted(recs[j], base + lo + j, now)
    ensures SeededRange(view, base, lo, lo + ROWS_PER_BATCH, names, now)
  {
    forall o | lo <= o < lo + ROWS_PER_BATCH
      ensures SeededAt(view, base, o, names, now)
    {
      var j := o - lo;
      var r := recs[j];
      BatchOffset(batch, lo, j);
      InsertedRecord(r, base + o, batch * BATCH_SIZE + KeyIndex(j) + 1, LOCALES[LocaleSlot(j)], names, now);
      if LocaleSlot(j) != 0 {
        var r' := recs[j - 1];
        assert view[base + o - 1] == Inserted(r', base + o - 1, now);
      }
    }
  }

  /** Tags that all match the table keep matching it when only some of them are taken. */
  lemma SyncedSubset(tagTable: map<int, TagRow>, small: set<Tag>, big: set<Tag>)
    requires AllSyncedIn(tagTable, big) && small <= big
    ensures AllSyncedIn(tagTable, small)
  {
  }

  /**
   * `saveAll` of a built batch: its rows take the next identities in
   * order and seed the batch's slice of the run.
   */
  method SaveBatch(store: Store, ts: seq<Translation>, ghost recs: seq<TranslationRecord>, batch: nat, now: int,
                   ghost base: int, ghost names: set<string>)
    requires store.Valid() && |ts| == |recs| == ROWS_PER_BATCH
    requires forall j | 0 <= j < |ts| :: ts[j].id == None && store.AllSynced(ts[j].tags) && recs[j] == ts[j].Snapshot()
    requires forall a, b | 0 <= a < b < |ts| :: ts[a] != ts[b]
    requires BatchRecords(recs, batch, names) && store.nextTranslationId == base + batch * ROWS_PER_BATCH
    modifies store, ts
    ensures store.Valid() && store.tags == old(store.tags)
    ensures store.nextTranslationId == old(store.nextTranslationId) + |ts|
    ensures forall id :: id in store.translations <==> id in old(store.translations) || old(store.nextTranslationId) <= id < store.nextTranslationId
    ensures forall id | id in old(store.View()) :: id in store.View() && store.View()[id] == old(store.View())[id]
    ensures SeededRange(store.View(), base, batch * ROWS_PER_BATCH, (batch + 1) * ROWS_PER_BATCH, names, now)
  {
    store.SaveAllNewTranslations(ts, now);
    InsertedBatch(store.View(), recs, base, batch, batch * ROWS_PER_BATCH, names, now);
  }

  /**
   * One pass of the loop over batches: a cleared list filled with the
   * batch's rows, stored with one `saveAll`.
   */
  method SeedBatch(store: Store, tags: seq<Tag>, batch: nat, rnd: Random, now: int, ghost base: int)
    returns (count: nat)
    requires store.Valid() && |tags| > 0 && store.AllSynced(Elems(tags))
    requires batch < TARGET_COUNT / BATCH_SIZE && store.nextTranslationId == base + batch * ROWS_PER_BATCH
    modifies store, rnd
    ensures store.Valid() && store.tags == old(store.tags) && store.AllSynced(Elems(tags))
    ensures count == ROWS_PER_BATCH == BATCH_SIZE * |LOCALES| && store.nextTranslationId == old(store.nextTranslationId) + count
    ensures forall id :: id in store.translations <==> id in old(store.translations) || old(store.nextTranslationId) <= id < store.nextTranslationId
    ensures forall id | id in old(store.View()) :: id in store.View() && store.View()[id] == old(store.View())[id]
    ensures SeededRange(store.View(), base, batch * ROWS_PER_BATCH, (batch + 1) * ROWS_PER_BATCH, NamesOf(Elems(tags)), now)
  {
    var ts := BuildBatch(batch, tags, rnd);
    ghost var recs := seq(|ts|, j requires 0 <= j < |ts| reads if 0 <= j < |ts| then {ts[j]} else {},
      if 0 <= j < |ts| then ts[j].tags else {} => ts[j].Snapshot());
    BatchAsRecords(ts, recs, batch, Elems(tags));
    forall j | 0 <= j < |ts|
      ensures ts[j].id == None && store.AllSynced(ts[j].tags)
    {
      SyncedSubset(store.tags, ts[j].tags, Elems(tags));
    }
    SaveBatch(store, ts, recs, batch, now, base, NamesOf(Elems(tags)));
    count := |ts|;
  }

  /** Seeded slices of a view that only grows join up. */
  lemma SeededGrow(v1: map<int, TranslationRecord>, v2: map<int, TranslationRecord>, base: int, mid: nat, hi: nat,
                   names: set<string>, now: int)
    requires SeededRange(v1, base, 0, mid, names, now) && SeededRange(v2, base, mid, hi, names, now)
    requires forall id | id in v1 :: id in v2 && v2[id] == v1[id]
    ensures SeededRange(v2, base, 0, hi, names, now)
  {
    forall o | 0 <= o < hi
      ensures SeededAt(v2, base, o, names, now)
    {
      if o < mid {
        assert SeededAt(v1, base, o, names, now);
      }
    }
  }

  /**
   * `createTranslations`: 100 batches of 1000 keys, each key in the three
   * locales, saved one batch at a time; returns the number of rows
   * saved, 300000. The new rows take the identities from the store's
   * next one on, in the order they were built.
   */
  method CreateTranslations(store: Store, tags: seq<Tag>, rnd: Random, now: int) returns (total: nat)
    requires store.Valid() && |tags| > 0 && store.AllSynced(Elems(tags))
    modifies store, rnd
    ensures store.Valid() && store.tags == old(store.tags) && store.AllSynced(Elems(tags))
    ensures total == (TARGET_COUNT / BATCH_SIZE) * BATCH_SIZE * |LOCALES| == 300000
    ensures store.nextTranslationId == old(store.nextTranslationId) + total
    ensures forall id :: id in store.translations <==> id in old(store.translations) || old(store.nextTranslationId) <= id < store.nextTranslationId
    ensures forall id | id in old(store.View()) :: id in store.View() && store.View()[id] == old(store.View())[id]
    ensures SeededRange(store.View(), old(store.nextTranslationId), 0, total, NamesOf(Elems(tags)), now)
  {
    total := 0;
    for batch := 0 to TARGET_COUNT / BATCH_SIZE
      invariant store.Valid() && store.tags == old(store.tags) && store.AllSynced(Elems(tags))
      invariant total == batch * ROWS_PER_BATCH && store.nextTranslationId == old(store.nextTranslationId) + total
      invariant forall id :: id in store.translations <==> id in old(store.translations) || old(store.nextTranslationId) <= id < store.nextTranslationId
      invariant forall id | id in old(store.View()) :: id in store.View() && store.View()[id] == old(store.View())[id]
      invariant SeededRange(store.View(), old(store.nextTranslationId), 0, total, NamesOf(Elems(tags)), now)
    {
      ghost var view := store.View();
      var count := SeedBatch(store, tags, batch, rnd, now, old(store.nextTranslationId));
      SeededGrow(view, store.View(), old(store.nextTranslationId), total, total + count, NamesOf(Elems(tags)), now);
      total := total + count;
    }
  }

  /** The three locales differ from each other. */
  lemma LocalesDistinct(l1: nat, l2: nat)
    requires l1 < |LOCALES| && l2 < |LOCALES| && l1 != l2
    ensures LOCALES[l1] != LOCALES[l2]
  {
    assert LOCALES[l1][1] != LOCALES[l2][1];
  }

  /**
   * Seeded rows of different key numbers have different keys, whatever
   * prefixes were drawn, and two seeded rows with the same key differ in
   * locale: a key and a locale pick out at most one seeded row.
   */
  lemma SeededKeysDistinct(view: map<int, TranslationRecord>, base: int, hi: nat, names: set<string>, now: int,
                           o1: nat, o2: nat)
    requires SeededRange(view, base, 0, hi, names, now) && o1 < hi && o2 < hi && o1 != o2
    ensures base + o1 in view && base + o2 in view
    ensures KeyIndex(o1) != KeyIndex(o2) ==> view[base + o1].key != view[base + o2].key
    ensures view[base + o1].key == view[base + o2].key ==> view[base + o1].locale != view[base + o2].locale
  {
    assert SeededAt(view, base, o1, names, now);
    assert SeededAt(view, base, o2, names, now);
    if view[base + o1].key == view[base + o2].key {
      GeneratedKeyNumber(view[base + o1].key, KeyIndex(o1) + 1, KeyIndex(o2) + 1);
      LocalesDistinct(LocaleSlot(o1), LocaleSlot(o2));
    }
  }

  /**
   * The `k`-th key of the run is stored once per locale, in the order of
   * `LOCALES`: offset `3 * k + l` holds it in locale `LOCALES[l]`, with
   * the key built for number `k + 1` that offset `3 * k` holds.
   */
  lemma SeededKeyInLocale(view: map<int, TranslationRecord>, base: int, hi: nat, names: set<string>, now: int,
                          k: nat, l: nat)
    requires SeededRange(view, base, 0, hi, names, now) && 3 * k + |LOCALES| <= hi && l < |LOCALES|
    ensures base + 3 * k in view && base + 3 * k + l in view
    ensures view[base + 3 * k + l].locale == LOCALES[l] && GeneratedKey(view[base + 3 * k + l].key, k + 1)
    ensures view[base + 3 * k + l].key == view[base + 3 * k].key
  {
    SlotOf(k, l);
    assert SeededAt(view, base, 3 * k + l, names, now);
    if l > 0 {
      SlotOf(k, l - 1);
      assert SeededAt(view, base, 3 * k + l - 1, names, now);
      if l > 1 {
        SlotOf(k, l - 2);
        assert SeededAt(view, base, 3 * k + l - 2, names, now);
      }
    }
  }

  /** The names of the tags `createTags` returns are the seeder's tag names. */
  lemma LoadedTagNames(ts: seq<Tag>)
    requires |ts| == |TAG_NAMES| && forall j | 0 <= j < |ts| :: ts[j].name == TAG_NAMES[j]
    ensures NamesOf(Elems(ts)) == Elems(TAG_NAMES)
  {
    forall x | x in Elems(TAG_NAMES)
      ensures x in NamesOf(Elems(ts))
    {
      var j :| 0 <= j < |TAG_NAMES| && TAG_NAMES[j] == x;
      assert ts[j] in Elems(ts);
    }
  }

  /**
   * `seedData`: the default administrator, then the tags, then the
   * translations; returns the two counts it reports. The translations
   * take the last 300000 identities, each carrying at most three of the
   * seeder's tag names.
   */
  method SeedData(users: Auth.UserStore, store: Store, crypto: Auth.Crypto, rnd: Random, now: int)
    returns (tagCount: nat, total: nat)
    requires users.Valid() && store.Valid()
    modifies users, store, rnd
    ensures users.Valid() && Auth.ADMIN_USERNAME in users.users
    ensures Auth.ADMIN_USERNAME in old(users.users) ==> users.users == old(users.users)
    ensures Auth.ADMIN_USERNAME !in old(users.users) ==>
      users.users == old(users.users)[Auth.ADMIN_USERNAME := Auth.DefaultAdmin(crypto)]
    ensures store.Valid() && store.TagNames() == old(store.TagNames()) + Elems(TAG_NAMES)
    ensures forall k | k in old(store.tags) :: k in store.tags && store.tags[k] == old(store.tags)[k]
    ensures tagCount == |TAG_NAMES| && total == 300000
    ensures forall id | id in old(store.View()) :: id in store.View() && store.View()[id] == old(store.View())[id]
    ensures forall id :: id in store.translations <==> id in old(store.translations) || store.nextTranslationId - total <= id < store.nextTranslationId
    ensures SeededRange(store.View(), store.nextTranslationId - total, 0, total, Elems(TAG_NAMES), now)
  {
    Auth.EnsureDefaultAdmin(users, crypto);
    var ts := CreateTags(store, now);
    tagCount := |ts|;
    LoadedTagNames(ts);
    total := CreateTranslations(store, ts, rnd, now);
  }

  /** `load`: seeds the data and answers "Data loaded". */
  method Load(users: Auth.UserStore, store: Store, crypto: Auth.Crypto, rnd: Random, now: int) returns (msg: string)
    requires users.Valid() && store.Valid()
    modifies users, store, rnd
    ensures msg == LOADED
    ensures users.Valid() && Auth.ADMIN_USERNAME in users.users
    ensures store.Valid() && Elems(TAG_NAMES) <= store.TagNames()
    ensures forall id | id in old(store.View()) :: id in store.View() && store.View()[id] == old(store.View())[id]
    ensures SeededRange(store.View(), store.nextTranslationId - 300000, 0, 300000, Elems(TAG_NAMES), now)
  {
    var _, _ := SeedData(users, store, crypto, rnd, now);
    msg := LOADED;
  }
}

# Translation management service, modelled in Dafny

A model of the service layer of a Spring backend that stores localized
strings ("translations": a key, a locale, a content and a set of tags)
and unique, named tags. The model covers:

- the two JPA entities, `Translation` and `Tag`, as classes whose setters
  change them in place (`entities.dfy`);
- the relational store behind the repositories: the `translations` and
  `tags` tables, the `translation_tags` join table and the two identity
  columns, as a `Store` class holding maps of rows (`persistence.dfy`);
- the repository's JPQL and derived queries, as pure functions over a
  table scan (`queries.dfy`). This includes the inner `JOIN t.tags` with
  `DISTINCT`, `LIKE` containment, `ORDER BY` key and locale, the
  single-result lookup and paging;
- `TranslationService` (`translation_service.dfy`) and `TagService`
  (`tag_service.dfy`), whose methods load entities, change them and
  save them back;
- the Bean Validation rules on a translation request and the
  entity-to-DTO conversion (`dto.dfy`);
- `AuthService` (`auth.dfy`). Password hashing and token signing are
  functions of a `Crypto` value about which nothing is assumed;
- `DataLoaderService` (`data_loader.dfy`): the default administrator,
  the eight tags, and 100 batches of 1000 generated keys in three
  locales. The random source is an oracle, so every property holds
  whatever it draws.

String helpers (decimal rendering, lexicographic order, the text before
the first '.') are in `text.dfy`. Set helpers are in `sets.dfy`, and
`Option`/`Result` are in `wrappers.dfy`.

Where the written design of the system and its code disagree, the model
follows the code:

- `updateTranslation` keeps the tags only when the request's tag set is
  null. An empty set clears them (`TranslationServices.UpdatedRecord`).
- `searchTranslations` joins the tags with an inner join. A translation
  without tags is therefore never found, even with no filter at all
  (`Queries.UntaggedNeverFound`, `Queries.NoFilterFindsTagged`).
- The export for a locale keeps, for each key, the content of the first
  row in key order. The query does not order rows that share a key, so
  "first inserted wins" is not guaranteed; the model fixes no order
  among them.
- Search results are paged in the order the table is scanned, with no
  tie-breaker.
- Deleting a tag is meant to remove only its associations. But
  `deleteTag` deletes from the inverse side of the many-to-many
  (`mappedBy = "tags"`), which removes no `translation_tags` row. While
  some translation still carries the tag, the foreign key rejects the
  delete and nothing changes (`Persistence.Store.DeleteTagById`,
  `TagServices.DeleteTag`).
- Each table has its own identity column, so tags and translations are
  numbered independently.

Inputs the code takes from its surroundings are parameters:

- the clock is a parameter `now` of every method that stamps a row;
- the random generator is a `Random` object over a `source` function;
- password encoding and token generation are the fields of `Crypto`.

## Model

Source paths are relative to the repository root.

| member | source | states |
|---|---|---|
| Entities.Translation.constructor | src/main/java/com/digitaltolk/translation/entity/Translation.java:45-62 | A new translation holds the given key, locale and content, no tags, no identity and no stamps |
| Entities.Translation.SetKey | src/main/java/com/digitaltolk/translation/entity/Translation.java:69 | Only the key changes; the row the queries see differs in the key alone |
| Entities.Translation.SetLocale | src/main/java/com/digitaltolk/translation/entity/Translation.java:72 | Only the locale changes |
| Entities.Translation.SetContent | src/main/java/com/digitaltolk/translation/entity/Translation.java:75 | Only the content changes |
| Entities.Translation.SetTags | src/main/java/com/digitaltolk/translation/entity/Translation.java:78 | The whole tag set is replaced, so the row's tag names become the names of the new set; nothing else changes |
| Entities.Tag.constructor | src/main/java/com/digitaltolk/translation/entity/Tag.java:38-41 | A new tag holds exactly the given name and description, with no identity and no creation stamp |
| Entities.Tag.SetName | src/main/java/com/digitaltolk/translation/entity/Tag.java:48 | Only the name changes |
| Entities.Tag.SetDescription | src/main/java/com/digitaltolk/translation/entity/Tag.java:51 | Only the description changes |
| Persistence.Store.TagCountIsNameCount | src/main/java/com/digitaltolk/translation/entity/Tag.java:22-23 | Under the unique constraint on `name` there are exactly as many tags as tag names |
| Persistence.Store.ExistsTagByName | src/main/java/com/digitaltolk/translation/repository/TagRepository.java:12 | True exactly when some stored tag has that name |
| Persistence.Store.FindTagByName | src/main/java/com/digitaltolk/translation/repository/TagRepository.java:11 | Present exactly when the name is stored; then it is the stored tag of that name |
| Persistence.Store.SaveNewTag | src/main/java/com/digitaltolk/translation/entity/Tag.java:18-33 | An insert under the next tag identity, which only the tag counter advances, admitted only for a name not yet stored, stamped once; names stay unique, the translation rows are unchanged |
| Persistence.Store.SaveTag | src/main/java/com/digitaltolk/translation/entity/Tag.java:31-33 | The row gets the entity's name and description; the creation stamp is not updatable and is kept |
| Persistence.Store.DeleteTagById | src/main/java/com/digitaltolk/translation/entity/Tag.java:28 | A delete from the inverse side removes no association: it succeeds exactly when no translation row refers to the tag, and then only the tag row goes; otherwise the foreign key rejects it and nothing changes |
| Persistence.InUseIffShown | src/main/java/com/digitaltolk/translation/entity/Translation.java:35-45 | With unique names, a row refers to a tag through the join table exactly when the row, as the queries see it, carries the tag's name |
| Persistence.Store.FindTranslationById | src/main/java/com/digitaltolk/translation/service/TranslationService.java:41 | Present exactly when the identity is stored; the loaded entity shows that row and its tags match their rows |
| Persistence.Store.SaveNewTranslation | src/main/java/com/digitaltolk/translation/service/TranslationService.java:35 | A plain insert under the next translation identity, leaving the tag counter alone, whatever rows share the key and locale; both stamps are set and the table gains exactly that row |
| Persistence.Store.SaveTranslation | src/main/java/com/digitaltolk/translation/entity/Translation.java:47-53 | The row takes the entity's fields and a new update stamp; its creation stamp is not updatable and is kept |
| Persistence.Store.SaveAllNewTranslations | src/main/java/com/digitaltolk/translation/service/DataLoaderService.java:116 | The list is inserted in order: element `i` gets identity `nextTranslationId + i` and both stamps; rows already stored are unchanged |
| Persistence.Store.DeleteTranslationById | src/main/java/com/digitaltolk/translation/service/TranslationService.java:102 | Exactly that row goes; the tags stay |
| Dtos.ValidRequest | src/main/java/com/digitaltolk/translation/dto/TranslationDto.java:16-31 | Admits exactly a non-blank key of at most 255 characters, a non-blank locale of at most 10 and non-blank content, with the tags unconstrained; so an admitted request has all three present and non-empty within those limits, and a key or content made only of blanks is refused |
| Dtos.ToDto | src/main/java/com/digitaltolk/translation/service/TranslationService.java:123-137 | The DTO carries the row's identity, key, locale, content and stamps; its tags are null exactly when the row has none, and otherwise are the row's tag names |
| Dtos.ToDtoInjective | src/main/java/com/digitaltolk/translation/service/TranslationService.java:123-137 | The conversion loses nothing: two rows with equal DTOs are equal |
| Dtos.ToDtos | src/main/java/com/digitaltolk/translation/service/TranslationService.java:76 | A page's rows are converted position by position |
| Queries.DistinctJoinMembers | src/main/java/com/digitaltolk/translation/repository/TranslationRepository.java:30 | `DISTINCT` over the inner join returns a row exactly when it is in the table and one of its tags passes the condition |
| Queries.DistinctJoinIsFilter | src/main/java/com/digitaltolk/translation/repository/TranslationRepository.java:30 | On a table without duplicate rows, `DISTINCT` over the join equals the semi-join: the rows with a passing tag, in scan order, each once |
| Queries.SearchTranslations | src/main/java/com/digitaltolk/translation/repository/TranslationRepository.java:30-41 | No row is returned twice, however many of its tags match |
| Queries.SearchMembers | src/main/java/com/digitaltolk/translation/repository/TranslationRepository.java:30-41 | A row is found exactly when every non-null filter holds: the key and content contain the given text, the locale equals the given one, and some tag has the given name; a null filter adds no condition |
| Queries.UntaggedNeverFound | src/main/java/com/digitaltolk/translation/repository/TranslationRepository.java:30 | A row without tags is never found, whatever the filters |
| Queries.NoFilterFindsTagged | src/main/java/com/digitaltolk/translation/repository/TranslationRepository.java:30-35 | With all four filters null, the search returns exactly the tagged rows |
| Queries.FindByTagNames | src/main/java/com/digitaltolk/translation/repository/TranslationRepository.java:27-28 | No row is returned twice |
| Queries.FindByTagNamesMembers | src/main/java/com/digitaltolk/translation/repository/TranslationRepository.java:27-28 | A row is found exactly when one of its tag names is in the list |
| Queries.SearchByKeyOrContent | src/main/java/com/digitaltolk/translation/repository/TranslationRepository.java:24-25 | A row is found exactly when its key contains `key` or its content contains `content`; a null parameter matches nothing |
| Queries.CountAll | src/main/java/com/digitaltolk/translation/repository/TranslationRepository.java:43-44 | The count equals the number of rows |
| Queries.FindByKeyAndLocale | src/main/java/com/digitaltolk/translation/repository/TranslationRepository.java:17 | Empty exactly when no row has that key and locale; a present result is such a row; several matches make the single-result query fail |
| Queries.SharedKeyLocaleFails | src/main/java/com/digitaltolk/translation/repository/TranslationRepository.java:17 | Two distinct rows sharing a key and a locale make the lookup fail |
| Queries.SortByKey | src/main/java/com/digitaltolk/translation/repository/TranslationRepository.java:21 | `ORDER BY t.key` yields a permutation of its input that is sorted by key |
| Queries.FindByLocale | src/main/java/com/digitaltolk/translation/repository/TranslationRepository.java:19 | Exactly the rows of that locale |
| Queries.FindByLocaleOrderByKey | src/main/java/com/digitaltolk/translation/repository/TranslationRepository.java:21-22 | Exactly the rows of that locale, as a permutation of them, sorted ascending by key |
| Queries.FindDistinctLocales | src/main/java/com/digitaltolk/translation/repository/TranslationRepository.java:46-47 | The locales come out strictly ascending |
| Queries.DistinctLocalesMembers | src/main/java/com/digitaltolk/translation/repository/TranslationRepository.java:46-47 | A locale is listed exactly when some row has it |
| Queries.DistinctLocalesOnce | src/main/java/com/digitaltolk/translation/repository/TranslationRepository.java:46-47 | No locale is listed twice |
| Queries.Export | src/main/java/com/digitaltolk/translation/service/TranslationService.java:83-89 | The `LinkedHashMap` is empty exactly for no rows, and otherwise starts with the first row's key and content |
| Queries.ExportKeys | src/main/java/com/digitaltolk/translation/service/TranslationService.java:83-89 | The `toMap` export has one entry per key of its input rows, and no key twice |
| Queries.ExportFirstWins | src/main/java/com/digitaltolk/translation/service/TranslationService.java:83-89 | Each entry holds the content of the first row with its key; later duplicates are ignored |
| Queries.ExportAscending | src/main/java/com/digitaltolk/translation/service/TranslationService.java:82-89 | Rows sorted by key give an export whose keys are strictly ascending |
| Queries.Paginate | src/main/java/com/digitaltolk/translation/service/TranslationService.java:74-77 | A page holds at most `size` results, taken in order from position `page * size`; it is full unless the results run out; it reports the total count, the number of pages and its own number |
| Queries.PagesCover | src/main/java/com/digitaltolk/translation/service/TranslationService.java:74-77 | Every result sits on page `i / size`, at position `i % size`, and that page is below the page count |
| Queries.PastLastPageEmpty | src/main/java/com/digitaltolk/translation/service/TranslationService.java:74-77 | A page at or beyond the page count is empty |
| Text.Contains | src/main/java/com/digitaltolk/translation/repository/TranslationRepository.java:31-32 | `s LIKE %f%` holds exactly when `f` occurs in `s` at some position |
| TranslationServices.ValidRequestFitsColumns | src/main/java/com/digitaltolk/translation/entity/Translation.java:26-30 | The row a request admitted by `@Valid` creates, or turns an existing row into, fits the 255-character key column and the 10-character locale column |
| TranslationServices.NewRecord | src/main/java/com/digitaltolk/translation/service/TranslationService.java:33-37 | The row created from a valid request shows the request's key, locale, content and tag names, the new identity and both stamps |
| TranslationServices.UpdatedRecord | src/main/java/com/digitaltolk/translation/service/TranslationService.java:44-54 | An update replaces key, locale and content; the tags are replaced when the request's set is not null, an empty set included, and kept when it is null; the identity and creation stamp stay |
| TranslationServices.FindOrCreateTag | src/main/java/com/digitaltolk/translation/service/TranslationService.java:139-145 | The stored tag of that name is reused and nothing changes; otherwise exactly one tag with that name and "Auto-created tag" is inserted under the next tag identity, and the translation counter does not move |
| TranslationServices.FindOrCreateTags | src/main/java/com/digitaltolk/translation/service/TranslationService.java:113-118 | The resulting tags are stored and have exactly the requested names; the store's names grow by exactly those names; every tag stored before is kept as it was (reused), and every new row is a requested name with description "Auto-created tag", stamped now |
| TranslationServices.ConvertToEntity | src/main/java/com/digitaltolk/translation/service/TranslationService.java:110-121 | A new unsaved entity with the request's fields and exactly the requested tag names, or none when the set is null or empty; it fits the `translations` columns; existing tags are kept and each new one is an auto-created tag of a requested name |
| TranslationServices.CreateTranslation | src/main/java/com/digitaltolk/translation/service/TranslationService.java:32-37 | The table gains exactly one row under the next translation identity, whatever tags were created for it, with no key-and-locale uniqueness check; the result is that row's DTO, so reading it back gives the request's fields; existing tags are kept and each new one is an auto-created tag of a requested name |
| TranslationServices.UpdateTranslation | src/main/java/com/digitaltolk/translation/service/TranslationService.java:39-58 | An unknown identity fails with "Translation not found with id: " and changes nothing; otherwise exactly that row becomes the updated row and the result is its DTO, existing tags are kept and each new one is an auto-created tag of a requested name |
| TranslationServices.GetTranslationById | src/main/java/com/digitaltolk/translation/service/TranslationService.java:60-65 | Empty for an unknown identity rather than a failure; otherwise the stored row's DTO |
| TranslationServices.KeyLocaleLookupFails | src/main/java/com/digitaltolk/translation/service/TranslationService.java:67-71 | On a table scan, the lookup by key and locale fails exactly when two different rows share them |
| TranslationServices.GetTranslationByKeyAndLocale | src/main/java/com/digitaltolk/translation/service/TranslationService.java:67-71 | Empty exactly when no row matches; a present result is a matching row's DTO; a failure exactly when two rows share the key and locale |
| TranslationServices.SearchTranslations | src/main/java/com/digitaltolk/translation/service/TranslationService.java:73-77 | The page is cut from the converted rows that meet every non-null filter and have a tag passing the tag filter; each row appears once |
| TranslationServices.ExportedKeys | src/main/java/com/digitaltolk/translation/service/TranslationService.java:81-89 | The export's keys are exactly the keys used in that locale |
| TranslationServices.ExportedContents | src/main/java/com/digitaltolk/translation/service/TranslationService.java:81-89 | Each exported entry is the key and content of some row of that locale |
| TranslationServices.GetTranslationsForLocale | src/main/java/com/digitaltolk/translation/service/TranslationService.java:79-90 | The export has strictly ascending keys, exactly the keys of that locale; each entry holds the content of a row of that locale with the key |
| TranslationServices.GetAvailableLocales | src/main/java/com/digitaltolk/translation/service/TranslationService.java:92-95 | Each locale in use, exactly once, strictly ascending |
| TranslationServices.GetTranslationCount | src/main/java/com/digitaltolk/translation/service/TranslationService.java:105-108 | The number of stored rows |
| TranslationServices.DeleteTranslation | src/main/java/com/digitaltolk/translation/service/TranslationService.java:97-103 | An unknown identity fails and removes nothing; otherwise exactly that row is removed and the tags stay |
| TagServices.CreateTag | src/main/java/com/digitaltolk/translation/service/TagService.java:25-33 | Fails with "Tag with name '…' already exists" exactly when the name is taken, saving nothing; otherwise one tag with exactly the given name and description is added, and names stay unique |
| TagServices.UpdateTag | src/main/java/com/digitaltolk/translation/service/TagService.java:35-49 | An unknown identity fails; renaming to a name another tag holds fails; keeping the current name is allowed; on success the name and description are replaced, names stay unique, and every translation with the tag shows the new name |
| TagServices.StoredTagDto | src/main/java/com/digitaltolk/translation/service/TagService.java:73-78 | `convertToDto` of a tag that matches its stored row gives that row's identity, name, description and creation stamp |
| TagServices.GetTagById | src/main/java/com/digitaltolk/translation/service/TagService.java:51-54 | Present exactly for a stored identity, with that row's fields |
| TagServices.GetTagByName | src/main/java/com/digitaltolk/translation/service/TagService.java:56-59 | Present exactly when the name is stored; then it is the tag of that name |
| TagServices.DeleteTag | src/main/java/com/digitaltolk/translation/service/TagService.java:66-71 | An unknown identity fails with "Tag not found with id: "; a tag some translation shows fails on the foreign key; either failure changes nothing; it succeeds exactly for a stored tag no translation shows, removing that tag and its name and leaving every translation as it was |
| Auth.UserStore.ExistsByEmail | src/main/java/com/digitaltolk/translation/service/AuthService.java:51 | True exactly when some user has that e-mail address |
| Auth.EnsureDefaultAdmin | src/main/java/com/digitaltolk/translation/service/AuthService.java:29-34 | Without a user named "admin", one is added with role ADMIN and the encoded "admin123"; with one, nothing changes. The same step is `createDefaultUser` at DataLoaderService.java:49-56 |
| Auth.LogIn | src/main/java/com/digitaltolk/translation/service/AuthService.java:35-43 | Succeeds exactly when the user exists and the password matches; any failure reads "Invalid username or password"; success returns the token for the user's name and role, the name, and type "Bearer" |
| Auth.FailuresIndistinguishable | src/main/java/com/digitaltolk/translation/service/AuthService.java:35-40 | An unknown user and a wrong password give the same result |
| Auth.WithDefaultAdmin | src/main/java/com/digitaltolk/translation/service/AuthService.java:29-34 | The table always holds "admin" afterwards; every existing user is kept as is, and the only user added is the default administrator |
| Auth.Authenticate | src/main/java/com/digitaltolk/translation/service/AuthService.java:14-44 | Answers as `LogIn` on the table with the default administrator ensured; a successful log-in keeps that table, and a failed one leaves the table exactly as it was, since the transaction rolls the administrator's insert back |
| Auth.DefaultAdminLogsIn | src/main/java/com/digitaltolk/translation/service/AuthService.java:29-43 | On a table without an administrator, "admin"/"admin123" logs in with an ADMIN token, provided the encoder's output matches its input |
| Auth.CreateUser | src/main/java/com/digitaltolk/translation/service/AuthService.java:46-57 | A taken user name fails first, then a taken e-mail, both saving nothing; otherwise exactly one user is added, with role USER and the encoder's output as password |
| DataLoader.GenerateContent | src/main/java/com/digitaltolk/translation/service/DataLoaderService.java:127-169 | Where the locale has a template for the key's first dot segment the text ends with "(key)"; otherwise it starts with "Content for " |
| DataLoader.ContentNamesKey | src/main/java/com/digitaltolk/translation/service/DataLoaderService.java:161-168 | Generated content always contains its key |
| DataLoader.GeneratedContent | src/main/java/com/digitaltolk/translation/service/DataLoaderService.java:161-168 | For a generated key, the locale's template for the drawn prefix followed by " (key)", or "Content for key in locale" when there is no template |
| DataLoader.KeyOfSplits | src/main/java/com/digitaltolk/translation/service/DataLoaderService.java:99 | The text before the first '.' of `prefix + "." + n` is the prefix |
| DataLoader.GeneratedKeyNumber | src/main/java/com/digitaltolk/translation/service/DataLoaderService.java:97-99 | A generated key determines its number, whatever prefix was drawn |
| DataLoader.KeyNumber | src/main/java/com/digitaltolk/translation/service/DataLoaderService.java:99 | Key numbers run from 1 to `targetCount` |
| DataLoader.KeyNumberInjective | src/main/java/com/digitaltolk/translation/service/DataLoaderService.java:94-99 | Different (batch, offset) positions get different key numbers |
| DataLoader.Random.NextInt | src/main/java/com/digitaltolk/translation/service/DataLoaderService.java:98 | A draw lies below the bound and consumes one value of the source |
| DataLoader.LoadOrCreateTag | src/main/java/com/digitaltolk/translation/service/DataLoaderService.java:74-79 | A stored name is reused and nothing changes; otherwise one tag with "Auto-generated tag for <name>" is inserted |
| DataLoader.CreateTags | src/main/java/com/digitaltolk/translation/service/DataLoaderService.java:70-83 | One tag per name of `TAG_NAMES`, in order, all stored; existing tags are kept and new ones carry the seeder's description; when every name is stored already, the tag table is unchanged, so a second run creates none |
| DataLoader.PickTags | src/main/java/com/digitaltolk/translation/service/DataLoaderService.java:105-110 | At most three tags, all drawn from the given ones |
| DataLoader.NewSeedTranslation | src/main/java/com/digitaltolk/translation/service/DataLoaderService.java:102-110 | A new unsaved row with the key, the locale, the generated content and at most three of the created tags |
| DataLoader.KeyRows | src/main/java/com/digitaltolk/translation/service/DataLoaderService.java:101-113 | One new row of the key per locale, in the order of `LOCALES`, all different objects |
| DataLoader.AddKey | src/main/java/com/digitaltolk/translation/service/DataLoaderService.java:97-113 | The key `prefix + "." + (batch * batchSize + i + 1)` is built and its three rows are appended; the batch keeps its shape |
| DataLoader.BuildBatch | src/main/java/com/digitaltolk/translation/service/DataLoaderService.java:95-114 | The cleared list is refilled with exactly `batchSize * 3` new rows; position `j` holds key number `batch * batchSize + j / 3 + 1` in locale `LOCALES[j % 3]` |
| DataLoader.SaveBatch | src/main/java/com/digitaltolk/translation/service/DataLoaderService.java:116 | `saveAll` stores the batch under the next translation identities, in order, seeding that batch's slice of the run |
| DataLoader.SeedBatch | src/main/java/com/digitaltolk/translation/service/DataLoaderService.java:94-122 | One pass of the batch loop adds exactly `batchSize * 3` rows, with the batch's key numbers and locales; earlier rows are untouched |
| DataLoader.CreateTranslations | src/main/java/com/digitaltolk/translation/service/DataLoaderService.java:85-125 | Returns `(targetCount / batchSize) * batchSize * 3 = 300000`, the number of rows added; the new rows take the next translation identities in build order; each has a generated key, its locale, at most three of the tag names and both stamps |
| DataLoader.SeededKeysDistinct | src/main/java/com/digitaltolk/translation/service/DataLoaderService.java:94-113 | Seeded rows for different key numbers have different keys, and two seeded rows with one key differ in locale |
| DataLoader.SeededKeyInLocale | src/main/java/com/digitaltolk/translation/service/DataLoaderService.java:101-113 | Each generated key is stored once per locale, in the order of `LOCALES` |
| DataLoader.SeedData | src/main/java/com/digitaltolk/translation/service/DataLoaderService.java:58-68 | The default administrator, then the eight tags, then 300000 seeded rows under the last translation identities; it reports 8 and 300000; nothing stored before is lost |
| DataLoader.Load | src/main/java/com/digitaltolk/translation/service/DataLoaderService.java:41-47 | Seeds the data and answers "Data loaded" |

## Left out

- Controllers and HTTP status codes are not modelled. The one fact taken from them is that `@Valid` guards the create and update bodies (TranslationController.java:35, 43). So TranslationServices.CreateTranslation, TranslationServices.ConvertToEntity and TranslationServices.UpdateTranslation require `ValidRequest`.
- `TagService.getAllTags` is not modelled: paging through `findAll` adds nothing beyond `Queries.Paginate`.
- Caching (`@Cacheable`, `@CacheEvict`) is not modelled, and `@Transactional` only through its effect: each failing operation leaves the store as it was. Most fail before changing anything; Auth.Authenticate undoes the administrator's insert when the log-in fails, as the rollback does.
- Concurrency is not modelled. Each operation runs alone, so the find-or-create of tags has no race.
- Timestamps come from JPA auditing and a wall clock. Here they are the parameter `now`, an integer. Persistence.Store.SaveTranslation stamps every successful save, so TranslationServices.UpdateTranslation always moves `updatedAt` and returns the new stamp; the auditing lifecycle, where `@PreUpdate` runs only when a changed column is flushed (normally at commit, after the DTO is built), is not followed.
- JWT signing and BCrypt are not modelled: `generateToken`, `encode` and `matches` are uninterpreted functions. `JwtTokenProvider.java` is not part of this model.
- `User.java` is not part of this model. Its default role is taken to be USER, and `username`/`email` uniqueness is enforced only through the checks in `createUser`.
- `UserRepository` is not part of this model. The user table is a map keyed by user name.
- `ThreadLocalRandom` becomes an oracle function from draw number to natural number, and `nextInt(b)` is that value modulo `b`. The model proves its properties for every oracle; it says nothing about the distribution.
- Queries.Like: `LIKE` is exact substring containment. Case-insensitive collation and `%`/`_` inside the parameter are not modelled.
- Queries.FindByLocaleOrderByKey: rows that share a key keep their scan order, and the scan order is left unspecified. The database promises no order among such rows either.
- TagServices.CreateTag, TagServices.UpdateTag and TranslationServices.FindOrCreateTag do not model the column lengths of `tags` (name at most 100, description at most 500; Tag.java:22, 25). In the code the database rejects a longer value and the call fails; in the model it succeeds. A tag name in a translation request is not bounded by `ValidRequest` either, so TranslationServices.CreateTranslation and TranslationServices.UpdateTranslation inherit this through TranslationServices.FindOrCreateTag.
- Queries.SortByKey, Queries.FindByLocaleOrderByKey, Queries.FindDistinctLocales and Queries.ExportAscending order and compare strings by code point (`Text.Less`). The database orders `ORDER BY t.key` and merges `DISTINCT t.locale` by the column's collation: under a case-insensitive collation "apple" sorts before "B", and "EN" and "en" are one locale.
- Dtos.ValidRequest counts a string's length in Unicode scalar values. `@Size` counts UTF-16 code units, so a key with characters outside the Basic Multilingual Plane can pass `ValidRequest` and still be rejected by `@Valid`.
- TagServices.CreateTag and TagServices.UpdateTag take a `TagDto` whose name is a string, so a null name cannot be expressed. In the code `existsByName(null)` is false and the write then fails on the NOT NULL `name` column (Tag.java:22); no controller validates `TagDto`.
- JPA object identity, lazy loading and the inverse `Tag.translations` collection are not modelled (its one effect, that a delete from that side removes no association, is). Entities are loaded fresh from rows and saved back, and a translation's associations are its row's set of tag identities.
- `setId`, `setCreatedAt` and `setUpdatedAt` are not separate members: only the store assigns identities and stamps.
- DataLoader.GenerateContent requires a key that is not made only of dots. For such a key Java's `split("\\.")` returns an empty array, and `[0]` throws. Every key the seeder builds satisfies the requirement.
- DataLoader.CreateTranslations requires a non-empty tag list. With an empty list, `random.nextInt(tags.size())` throws on the first draw of a tag. `createTags` always supplies eight tags.
- DataLoader.CreateTranslations: the batch-level and store-level contracts state each row's key, locale, tags and stamps, but not its content. The content of each built row is stated by DataLoader.NewSeedTranslation, and what it is for a generated key by DataLoader.GeneratedContent.
- DataLoader.LoadOrCreateTag: `findByName(...).orElse(null)` never yields null here, because `existsByName` was true just before and nothing runs in between.
- System.out progress logging is not modelled.

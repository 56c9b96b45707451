/**
 * The transfer objects the services return and accept, the Bean
 * Validation rules on a translation request, and the entity-to-DTO
 * conversions.
 */
module Dtos {
  import opened Wrappers
  import opened Text
  import opened Entities

  /** `TranslationDto`; every reference-typed field may be null. */
  datatype TranslationDto = TranslationDto(
    id: Option<int>,
    key: Option<string>,
    locale: Option<string>,
    content: Option<string>,
    tags: Option<set<string>>,
    createdAt: Option<int>,
    updatedAt: Option<int>)

  /** `@NotBlank` together with `@Size(max = n)`; a null value is rejected by `@NotBlank`. */
  predicate NotBlankAtMost(s: Option<string>, n: nat)
  {
    s.Some? && NotBlank(s.value) && |s.value| <= n
  }

  /**
   * What `@Valid` admits: a non-blank key of at most 255 characters, a
   * non-blank locale of at most 10, non-blank content of any length;
   * the tags, the identity and the stamps are not constrained.
   */
  function ValidRequest(d: TranslationDto): (ok: bool)
    ensures ok ==> d.key.Some? && d.locale.Some? && d.content.Some?
    ensures ok ==> d.key.value != [] && d.locale.value != [] && d.content.value != []
    ensures ok ==> |d.key.value| <= MAX_KEY_LENGTH && |d.locale.value| <= MAX_LOCALE_LENGTH
    ensures d.key.Some? && (forall i | 0 <= i < |d.key.value| :: d.key.value[i] <= ' ') ==> !ok
    ensures d.content.Some? && (forall i | 0 <= i < |d.content.value| :: d.content.value[i] <= ' ') ==> !ok
  {
    && NotBlankAtMost(d.key, MAX_KEY_LENGTH)
    && NotBlankAtMost(d.locale, MAX_LOCALE_LENGTH)
    && d.content.Some? && NotBlank(d.content.value)
  }

  /**
   * `convertToDto`: the fields of the row, and its tag names, or null
   * when it has no tags.
   */
  function ToDto(r: TranslationRecord): (d: TranslationDto)
    ensures d.id == r.id && d.createdAt == r.createdAt && d.updatedAt == r.updatedAt
    ensures d.key == Some(r.key) && d.locale == Some(r.locale) && d.content == Some(r.content)
    ensures d.tags.None? <==> r.tags == {}
    ensures d.tags.Some? ==> d.tags.value == r.tags
  {
    TranslationDto(r.id, Some(r.key), Some(r.locale), Some(r.content),
      if r.tags == {} then None else Some(r.tags), r.createdAt, r.updatedAt)
  }

  /** `convertToDto` over a list of rows, as `Page.map` applies it. */
  function ToDtos(rs: seq<TranslationRecord>): (ds: seq<TranslationDto>)
    ensures |ds| == |rs| && forall i | 0 <= i < |rs| :: ds[i] == ToDto(rs[i])
  {
    if rs == [] then [] else [ToDto(rs[0])] + ToDtos(rs[1..])
  }

  /** The tag names a converted row reports: none at all reads as the empty set. */
  function ReportedTags(d: TranslationDto): set<string>
  {
    if d.tags.Some? then d.tags.value else {}
  }

  /** Converting loses nothing: the row can be read back from its DTO. */
  lemma ToDtoInjective(r: TranslationRecord, s: TranslationRecord)
    requires ToDto(r) == ToDto(s)
    ensures r == s
  {
    assert ReportedTags(ToDto(r)) == r.tags;
    assert ReportedTags(ToDto(s)) == s.tags;
  }

  /** `TagDto`. */
  datatype TagDto = TagDto(id: Option<int>, name: string, description: Option<string>, createdAt: Option<int>)
}

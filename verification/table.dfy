/**
  The language table: the registry entries, keyed by canonical name, in the
  order the registry lists them. The source parses the registry into a map
  of DTOs and turns each into a `Language`; parsing is not modelled, so the
  parsed DTO table is the input here.
 */
module Table {
  import opened Outcomes
  import opened Languages

  /** One parsed registry entry: every list may be missing. */
  datatype LanguageDto = LanguageDto(
    kind: string,
    group: Option<string>,
    extensions: Option<seq<string>>,
    filenames: Option<seq<string>>,
    aliases: Option<seq<string>>
  )

  /** No key occurs twice: a keyed table is the entry sequence of a map. */
  predicate DistinctKeys<V>(t: seq<(string, V)>) {
    forall i, j :: 0 <= i < j < |t| ==> t[i].0 != t[j].0
  }

  /** The parsed registry, as the entries of a `Map<String, LanguageDTO>`. */
  type DtoTable = t: seq<(string, LanguageDto)> | DistinctKeys(t) witness []

  /** The loaded languages, as the entries of a `Map<String, Language>`. */
  type LanguageTable = t: seq<(string, Language)> | DistinctKeys(t) witness []

  /** Every entry's language is named by its key. */
  predicate NamedByKeys(t: seq<(string, Language)>) {
    forall i :: 0 <= i < |t| ==> t[i].1.name == t[i].0
  }

  /**
    The conversion of one DTO: the key becomes the name, and a missing
    extension, filename or alias list becomes the empty list.
   */
  function ToLanguage(key: string, dto: LanguageDto): (l: Language)
    ensures l.name == key && l.kind == dto.kind && l.group == dto.group
    ensures dto.extensions.Some? ==> l.extensions == dto.extensions.value
    ensures dto.extensions.None? ==> l.extensions == []
    ensures dto.filenames.Some? ==> l.filenames == dto.filenames.value
    ensures dto.filenames.None? ==> l.filenames == []
    ensures dto.aliases.Some? ==> l.aliases == dto.aliases.value
    ensures dto.aliases.None? ==> l.aliases == []
  {
    Language(key, dto.kind, dto.group,
             dto.extensions.GetOr([]), dto.filenames.GetOr([]), dto.aliases.GetOr([]))
  }

  /** The DTO that carries exactly the fields of `l`, with every list present. */
  function ToDto(l: Language): LanguageDto {
    LanguageDto(l.kind, l.group, Some(l.extensions), Some(l.filenames), Some(l.aliases))
  }

  /** Converting a language to a DTO and back under its own name gives it back. */
  lemma LanguageRoundTrip(l: Language)
    ensures ToLanguage(l.name, ToDto(l)) == l
  {
  }

  /**
    Converting a DTO to a language and back loses only the difference between
    a missing list and an empty one.
   */
  lemma DtoRoundTrip(key: string, dto: LanguageDto)
    ensures ToDto(ToLanguage(key, dto)) ==
      LanguageDto(dto.kind, dto.group,
                  Some(dto.extensions.GetOr([])), Some(dto.filenames.GetOr([])),
                  Some(dto.aliases.GetOr([])))
    ensures dto.extensions.Some? && dto.filenames.Some? && dto.aliases.Some? ==>
      ToDto(ToLanguage(key, dto)) == dto
  {
  }

  /** The table normalisation of `readLocalLanguages`: each entry converted, keys and order kept. */
  function Normalise(dtos: DtoTable): (t: LanguageTable)
    ensures |t| == |dtos|
    ensures forall i :: 0 <= i < |t| ==> t[i].0 == dtos[i].0 && t[i].1 == ToLanguage(dtos[i].0, dtos[i].1)
    ensures NamedByKeys(t)
  {
    seq(|dtos|, i requires 0 <= i < |dtos| => (dtos[i].0, ToLanguage(dtos[i].0, dtos[i].1)))
  }

  /** The table's languages, in table order (the `values` of the map). */
  function Values(t: seq<(string, Language)>): (ls: seq<Language>)
    ensures |ls| == |t|
    ensures forall i :: 0 <= i < |t| ==> ls[i] == t[i].1
  {
    seq(|t|, i requires 0 <= i < |t| => t[i].1)
  }

  /** The read-only map view of the table (the `languages` property). */
  function LanguageMap(t: LanguageTable): (m: map<string, Language>)
    ensures m.Keys == set i | 0 <= i < |t| :: t[i].0
    ensures forall i :: 0 <= i < |t| ==> m[t[i].0] == t[i].1
  {
    map i | 0 <= i < |t| :: t[i].0 := t[i].1
  }
}

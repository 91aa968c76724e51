# dx-linguist lookup core, in Dafny

This project models the in-memory part of `Linguist`, the dx-linguist library
that tells which programming language a file is written in from its path, using
the language registry of GitHub Linguist. Once the registry has been loaded,
everything is pure and sequential:

- **Table normalisation.** Each parsed registry entry (a DTO whose lists may be
  missing) becomes a `Language` named by its key. Missing lists become empty
  ones. The table is an ordered sequence of `(key, Language)` pairs with
  distinct keys (`Table.LanguageTable`), so the map iteration order that decides
  candidate order is explicit.
- **Indices.** `extensionToLanguagesMap` and `filenameToLanguagesMap` are built
  by `flatMap` and `groupBy` (`Index.Pairs`, `Index.GroupBy`). They are checked
  against an independent reference list, `Index.Matching`: each language, in
  table order, once for every time it lists the key.
- **Resolution.** `getLanguages` takes the path's file name, forms the key
  `"." + text after the last '.'` (just `"."` for a dotless name), and tries the
  extension index first. Only if the extension index lacks the key does it try
  the file-name index, and otherwise the result is empty.
- **Identity checks.** `isOf` compares lower-cased aliases, names and present
  groups of the candidates with the lower-cased given names. It is false when
  no names are given. `isRegistered` compares a lower-cased name with the
  lower-cased keys and aliases of the whole table.

Modules: `Outcomes` (Option/Result), `Text` (`substringAfterLast`,
`toLowerCase`), `Paths` (`Paths.get(path).fileName`), `Languages` (the
`Language` record), `Table`, `Index`, `Resolver`, and `Scenarios`. `Scenarios`
replays the repository's test on a small registry excerpt.

Behaviour worth knowing, all following the code:

- A dotless file name gets the key `"."`, not the empty string. So a language
  that listed `"."` as an extension would capture every dotless name.
- A whole-file-name registration loses to a claimed extension.
  `CMakeLists.txt` is Text, not CMake, once `.txt` is registered
  (`Scenarios.ExtensionDominatesFileName`).
- `isOf` with no names answers false without looking at the path. It therefore
  does not throw even for a path with no file name.
- `Paths.get(path).fileName` is modelled on the default Unix file system. A NUL
  character is rejected (`InvalidPath`). A non-empty path made only of slashes
  is the root, which has no file name (`NoFileName`); the source then throws a
  null-pointer exception. The empty path names the empty file. Repeated and
  trailing slashes are ignored. These failures are `Err` results, not
  preconditions.

## Model

| member | source | states |
|---|---|---|
| Text.LastIndexOf | src/main/kotlin/org/dxworks/linguist/Linguist.kt:81 | absent exactly when the character does not occur; otherwise a position holding it with no occurrence after it |
| Text.SubstringAfterLast | src/main/kotlin/org/dxworks/linguist/Linguist.kt:81 | with the delimiter present, the result is the suffix that follows its last occurrence and contains no delimiter; without it, the given default |
| Text.ExtensionOf | src/main/kotlin/org/dxworks/linguist/Linguist.kt:81 | the lookup key starts with '.', has no other '.', and is the file name's suffix from its last dot; it is exactly "." for a dotless name |
| Text.Lower | src/main/kotlin/org/dxworks/linguist/Linguist.kt:88-89 | the same length, each character lower-cased as an ASCII letter or kept, and no upper-case ASCII letter left |
| Text.LowerAll | src/main/kotlin/org/dxworks/linguist/Linguist.kt:88 | one lower-cased string per input, position by position |
| Paths.FileName | src/main/kotlin/org/dxworks/linguist/Linguist.kt:80 | fails with InvalidPath exactly on a NUL character and with NoFileName exactly on a non-empty all-slash path; otherwise the last path element, free of '/', empty only for the empty path |
| Table.ToLanguage | src/main/kotlin/org/dxworks/linguist/Linguist.kt:60-67 | the name is the key, type and group are copied, a present list is copied and a missing one becomes empty |
| Table.LanguageRoundTrip | src/main/kotlin/org/dxworks/linguist/Linguist.kt:60-67 | a language turned into a DTO with all lists present converts back to itself under its own name |
| Table.DtoRoundTrip | src/main/kotlin/org/dxworks/linguist/Linguist.kt:64-66 | conversion loses only the difference between a missing list and an empty one, and nothing when all lists are present |
| Table.Normalise | src/main/kotlin/org/dxworks/linguist/Linguist.kt:59-68 | keys and order are kept, every entry is converted, and every language is named by its key |
| Table.LanguageMap | src/main/kotlin/org/dxworks/linguist/Linguist.kt:59-68 | the map view has exactly the table's keys and maps each key to its entry's language |
| Index.Pairs | src/main/kotlin/org/dxworks/linguist/Linguist.kt:35-38 | every pair carries a language of the table and one of that language's own keys; Index.PairsSelect gives the order and multiplicity |
| Index.GroupBy | src/main/kotlin/org/dxworks/linguist/Linguist.kt:39 | the map holds exactly the keys of the pairs, each with a non-empty list; Index.GroupBySelect gives the lists |
| Index.BuildIndex | src/main/kotlin/org/dxworks/linguist/Linguist.kt:34-47 | no key maps to an empty list; Index.IndexAll gives its keys and lists |
| Index.GroupBySelect | src/main/kotlin/org/dxworks/linguist/Linguist.kt:39 | the groupBy fold holds a key exactly when some pair has it, and then lists those pairs' values in pair order |
| Index.PairsSelect | src/main/kotlin/org/dxworks/linguist/Linguist.kt:35-38 | the pairs carrying a key, taken in flatMap order, give each language in table order once per time it lists the key |
| Index.IndexExact | src/main/kotlin/org/dxworks/linguist/Linguist.kt:34-47 | an index holds a key exactly when some language lists it, and maps it to the reference list of claiming languages in table order |
| Index.IndexMembers | src/main/kotlin/org/dxworks/linguist/Linguist.kt:34-47 | soundness and completeness: a language is in a key's list exactly when it is in the table and lists the key; every list present is non-empty |
| Index.IndexOrder | src/main/kotlin/org/dxworks/linguist/Linguist.kt:34-47 | of two table entries listing a key, the earlier comes before the later in that key's list |
| Index.IndexIsClaimants | src/main/kotlin/org/dxworks/linguist/Linguist.kt:34-47 | when no language lists a key twice, a key's list is exactly the subsequence of table languages listing it, and absent keys have none |
| Index.IndexAll | src/main/kotlin/org/dxworks/linguist/Linguist.kt:34-47 | for every key at once: present exactly when claimed, mapped to the reference list, complete for every language listing it, and sound position by position |
| Index.UnclaimedIsEmpty | src/main/kotlin/org/dxworks/linguist/Linguist.kt:82 | a key no language lists has an empty reference list, so the lookup falls through |
| Resolver.ExtensionIndex | src/main/kotlin/org/dxworks/linguist/Linguist.kt:34-40 | holds an extension exactly when some language lists it; its list is non-empty, is the reference list in table order, contains every language listing the extension and nothing else |
| Resolver.FilenameIndex | src/main/kotlin/org/dxworks/linguist/Linguist.kt:41-47 | holds a file name exactly when some language lists it; its list is non-empty, is the reference list in table order, contains every language listing the name and nothing else |
| Resolver.GetLanguages | src/main/kotlin/org/dxworks/linguist/Linguist.kt:79-83 | resolution fails exactly when the path has no usable file name, with the same error |
| Resolver.ResolveExact | src/main/kotlin/org/dxworks/linguist/Linguist.kt:82 | precedence: the languages listing the extension when there are any, else those listing the whole file name, else none, all in table order |
| Resolver.ResolveMembers | src/main/kotlin/org/dxworks/linguist/Linguist.kt:79-83 | a language is a candidate exactly when it is in the table and lists the extension, or lists the file name while no language lists the extension |
| Resolver.Labels | src/main/kotlin/org/dxworks/linguist/Linguist.kt:89 | the labels of a language are exactly its aliases, its name, and its group when present |
| Resolver.LabelsMatch | src/main/kotlin/org/dxworks/linguist/Linguist.kt:88-90 | a given name names a language exactly when one of its labels lower-cases to the same string |
| Resolver.AllLabels | src/main/kotlin/org/dxworks/linguist/Linguist.kt:89 | every label of every candidate is among the compared labels; Resolver.AllLabelsMembers gives the converse |
| Resolver.AllLabelsMembers | src/main/kotlin/org/dxworks/linguist/Linguist.kt:89 | a string is a compared label exactly when it is a label of some candidate |
| Resolver.IsOf | src/main/kotlin/org/dxworks/linguist/Linguist.kt:85-87 | no names means false for every path; with names, it fails exactly when the path has no usable file name |
| Resolver.AnyInHasWitness | src/main/kotlin/org/dxworks/linguist/Linguist.kt:88-90 | a match between the lower-cased labels and names comes from some candidate and some given name that agree ignoring case |
| Resolver.WitnessGivesAnyIn | src/main/kotlin/org/dxworks/linguist/Linguist.kt:88-90 | a candidate and a given name that agree ignoring case make the lower-cased comparison succeed |
| Resolver.IsOfMeaning | src/main/kotlin/org/dxworks/linguist/Linguist.kt:88-90 | with names, true exactly when some candidate's name, some alias, or its present group equals some given name ignoring case |
| Resolver.IsOfIgnoresCase | src/main/kotlin/org/dxworks/linguist/Linguist.kt:88 | names that differ only in case give the same answer |
| Resolver.IsOfNamed | src/main/kotlin/org/dxworks/linguist/Linguist.kt:89-90 | any name of a candidate identifies the path |
| Resolver.IsOfNoCandidates | src/main/kotlin/org/dxworks/linguist/Linguist.kt:89-90 | a path without candidates is of no language, whatever the names |
| Resolver.RegisteredNames | src/main/kotlin/org/dxworks/linguist/Linguist.kt:94 | every key and every alias of the table is among the compared names |
| Resolver.RegisteredNamesMembers | src/main/kotlin/org/dxworks/linguist/Linguist.kt:94 | a string is a compared name exactly when it is some entry's key or one of its aliases |
| Resolver.RegisteredNamesMatch | src/main/kotlin/org/dxworks/linguist/Linguist.kt:94 | the lower-cased name is among the lower-cased compared names exactly when some entry's key or alias equals it ignoring case |
| Resolver.IsRegistered | src/main/kotlin/org/dxworks/linguist/Linguist.kt:93-94 | true exactly when some entry's key or alias equals the name ignoring case; groups and paths play no part |
| Resolver.UnregisteredByLength | src/main/kotlin/org/dxworks/linguist/Linguist.kt:94 | ASCII lower-casing keeps lengths, so a name longer than every key and alias is not registered |
| Resolver.IsRegisteredIgnoresCase | src/main/kotlin/org/dxworks/linguist/Linguist.kt:94 | names that differ only in case are registered alike |
| Resolver.KeysRegistered | src/main/kotlin/org/dxworks/linguist/Linguist.kt:94 | every key is registered under any casing |
| Scenarios.NamedByExtension | src/main/kotlin/org/dxworks/linguist/Linguist.kt:82-90 | a language listing the file's extension is a candidate, and any of its names identifies the path |
| Scenarios.NamedByFileName | src/main/kotlin/org/dxworks/linguist/Linguist.kt:82-90 | with the extension unclaimed, a language listing the file name is a candidate, and any of its names identifies the path |
| Scenarios.Unmatched | src/main/kotlin/org/dxworks/linguist/Linguist.kt:82 | with neither key claimed, the result is empty and isOf is false |
| Scenarios.ShadowedFileName | src/main/kotlin/org/dxworks/linguist/Linguist.kt:82 | a language listing the file name but not the claimed extension is not a candidate |
| Scenarios.JavaByExtension | src/test/kotlin/org/dxworks/linguist/LinguistTest.kt:12 | "src/Main.java" is Java |
| Scenarios.CppByAlias | src/test/kotlin/org/dxworks/linguist/LinguistTest.kt:14-15 | "src/main.hh" is C++ by name and by alias "cpp" |
| Scenarios.TsxByGroup | src/test/kotlin/org/dxworks/linguist/LinguistTest.kt:17-18 | "src/comp/script.tsx" is TSX, and TypeScript through TSX's group |
| Scenarios.SshConfigByFileName | src/test/kotlin/org/dxworks/linguist/LinguistTest.kt:20 | "opt/sshconfig" is SSH Config, through its whole file name |
| Scenarios.ReadmeIsUnknown | src/main/kotlin/org/dxworks/linguist/Linguist.kt:82 | "README" has no candidates and is of no language |
| Scenarios.ExtensionDominatesFileName | src/main/kotlin/org/dxworks/linguist/Linguist.kt:82 | "CMakeLists.txt" resolves to Text by extension, not to CMake by file name |
| Scenarios.Registration | src/main/kotlin/org/dxworks/linguist/Linguist.kt:93-94 | "TypeScript" is registered by its key and "TS" by the alias "ts" |
| Scenarios.UnknownUnregistered | src/main/kotlin/org/dxworks/linguist/Linguist.kt:93-94 | "nonexistent-lang" is not registered |

`Language` (src/main/kotlin/org/dxworks/linguist/Language.kt:16-23) is the
datatype `Languages.Language`. Only `group` is optional, and the three lists are
always present. Being a datatype, two values are equal exactly when all six
fields are, as for the Kotlin data class. Extensions keep their leading dot,
which is why `Text.ExtensionOf` always starts with '.'. `group` is an opaque
label that is never looked up in the table.

## Left out

- YAML parsing and serialisation with Jackson (`mapper`, `readValue`, `writeValue`): a foreign library. The parsed DTO table is the input (`Table.DtoTable`).
- `updateLinguistFile` and `getGithubLinguistFile`: a network fetch and a file write.
- `dxLinguistHome`, `checkLinguistFile` and the `init` block: file-system checks and setup.
- The exception-driven retry in `readLocalLanguages`: it re-downloads the registry and re-reads the file, which is I/O. Only the success path is modelled.
- `by lazy` memoisation: the indices are plain functions of the table (`Resolver.ExtensionIndex`, `Resolver.FilenameIndex`), which compute the same values.
- Duplicate registry keys: the parsed input is a map, so keys are distinct by type (`Table.DtoTable`), and Kotlin's last-write-wins `toMap` never comes into play.
- Text.Lower: lower-casing is modelled for the ASCII letters only, because Kotlin's `toLowerCase()` uses the default locale and full Unicode case mapping.
- Paths.FileName: follows the default Unix file system only, because the Windows rules for drive letters and back-slashes depend on the platform. It also assumes a UTF-8 native path encoding, under which NUL is the only character `Paths.get` rejects; under a POSIX or C locale the JDK also throws `InvalidPathException` for characters it cannot encode, such as non-ASCII ones, and the model does not.

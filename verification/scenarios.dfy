/**
  The documented behaviour on a small excerpt of the Linguist registry:
  the queries of the repository's test, the fallback to whole file names,
  the empty result, and a file name that loses to its extension.
 */
module Scenarios {
  import opened Outcomes
  import opened Text
  import opened Paths
  import opened Languages
  import opened Table
  import opened Index
  import opened Resolver

  function Dto(kind: string, group: Option<string>, exts: seq<string>, files: seq<string>, aliases: seq<string>): LanguageDto {
    LanguageDto(kind, group,
                if exts == [] then None else Some(exts),
                if files == [] then None else Some(files),
                if aliases == [] then None else Some(aliases))
  }

  const Registry: DtoTable := [
    ("C", Dto("programming", None, [".c", ".h"], [], [])),
    ("C++", Dto("programming", None, [".cpp", ".h", ".hh"], [], ["cpp"])),
    ("CMake", Dto("programming", None, [".cmake"], ["CMakeLists.txt"], [])),
    ("Java", Dto("programming", None, [".java"], [], [])),
    ("SSH Config", Dto("data", None, [], ["ssh_config", "sshconfig"], ["sshconfig"])),
    ("TSX", Dto("programming", Some("TypeScript"), [".tsx"], [], [])),
    ("Text", Dto("prose", None, [".txt"], [], ["fundamental", "plain text"])),
    ("TypeScript", Dto("programming", None, [".ts", ".cts", ".mts"], [], ["ts"]))
  ]

  function Sample(): LanguageTable {
    Normalise(Registry)
  }

  /** The languages of the sample table, by key. */
  function Lang(i: nat): Language
    requires i < |Registry|
  {
    Values(Sample())[i]
  }

  lemma FileNameOf(path: string, dir: string, name: string)
    requires path == dir + "/" + name
    requires '\0' !in path && '/' !in name && name != []
    ensures FileName(path) == Ok(name)
  {
    assert path[..|path|] == path;
    assert path[|path| - |name| - 1] == '/';
  }

  lemma BareFileName(name: string)
    requires name != [] && '/' !in name && '\0' !in name
    ensures FileName(name) == Ok(name)
  {
    assert StripTrailingSlashes(name) == name;
  }

  lemma ExtensionIs(name: string, base: string, ext: string)
    requires name == base + "." + ext && '.' !in ext
    ensures ExtensionOf(name) == "." + ext
  {
    assert name[|base|] == '.';
  }

  // General steps, proved once for every table.

  /** A language listing the file's extension is a candidate, and any of its names identifies the path. */
  lemma NamedByExtension(t: LanguageTable, path: string, name: string, l: Language, c: string)
    requires FileName(path) == Ok(name)
    requires l in Values(t) && ExtensionOf(name) in l.extensions
    requires NameMatches(l, c)
    ensures IsOf(t, path, [c]) == Ok(true)
  {
    ResolveMembers(t, path, l);
    IsOfNamed(t, path, l, c);
  }

  /** With the extension unclaimed, a language listing the whole file name is a candidate. */
  lemma NamedByFileName(t: LanguageTable, path: string, name: string, l: Language, c: string)
    requires FileName(path) == Ok(name)
    requires !Claimed(Values(t), Extensions, ExtensionOf(name))
    requires l in Values(t) && name in l.filenames
    requires NameMatches(l, c)
    ensures IsOf(t, path, [c]) == Ok(true)
  {
    ResolveMembers(t, path, l);
    IsOfNamed(t, path, l, c);
  }

  /** Neither index knows the name, so the path has no candidates and is of no language. */
  lemma Unmatched(t: LanguageTable, path: string, name: string, names: seq<string>)
    requires FileName(path) == Ok(name)
    requires !Claimed(Values(t), Extensions, ExtensionOf(name))
    requires !Claimed(Values(t), Filenames, name)
    ensures GetLanguages(t, path) == Ok([])
    ensures IsOf(t, path, names) == Ok(false)
  {
    ResolveExact(t, path);
    UnclaimedIsEmpty(Values(t), Filenames, name);
    IsOfNoCandidates(t, path, names);
  }

  /** A language that lists the file name but not its claimed extension is not a candidate. */
  lemma ShadowedFileName(t: LanguageTable, path: string, name: string, winner: Language, loser: Language)
    requires FileName(path) == Ok(name)
    requires winner in Values(t) && ExtensionOf(name) in winner.extensions
    requires name in loser.filenames && ExtensionOf(name) !in loser.extensions
    ensures GetLanguages(t, path).Ok?
    ensures winner in GetLanguages(t, path).value && loser !in GetLanguages(t, path).value
  {
    ResolveMembers(t, path, winner);
    ResolveMembers(t, path, loser);
  }

  // Facts about the sample registry.

  lemma CppFacts()
    ensures Lang(1) in Values(Sample()) && ".hh" in Lang(1).extensions
    ensures NameMatches(Lang(1), "C++") && NameMatches(Lang(1), "cpp")
  {
    assert "cpp" in Lang(1).aliases;
  }

  lemma CMakeTextFacts()
    ensures "CMakeLists.txt" in Lang(2).filenames && ".txt" !in Lang(2).extensions
    ensures Lang(6) in Values(Sample()) && ".txt" in Lang(6).extensions
  {
  }

  lemma JavaFacts()
    ensures Lang(3) in Values(Sample()) && ".java" in Lang(3).extensions && NameMatches(Lang(3), "Java")
  {
  }

  lemma SshConfigFacts()
    ensures Lang(4) in Values(Sample()) && "sshconfig" in Lang(4).filenames
    ensures NameMatches(Lang(4), "SSH Config")
  {
  }

  lemma TsxFacts()
    ensures Lang(5) in Values(Sample()) && ".tsx" in Lang(5).extensions
    ensures NameMatches(Lang(5), "TSX") && NameMatches(Lang(5), "TypeScript")
  {
  }

  lemma NothingClaimsDot()
    ensures !Claimed(Values(Sample()), Extensions, ".")
  {
  }

  lemma NothingClaimsReadme()
    ensures !Claimed(Values(Sample()), Filenames, "README")
  {
  }

  lemma JavaFileName()
    ensures FileName("src/Main.java") == Ok("Main.java")
  {
    FileNameOf("src/Main.java", "src", "Main.java");
  }

  lemma JavaExtension()
    ensures ExtensionOf("Main.java") == ".java"
  {
    ExtensionIs("Main.java", "Main", "java");
  }

  lemma CppFileName()
    ensures FileName("src/main.hh") == Ok("main.hh")
  {
    FileNameOf("src/main.hh", "src", "main.hh");
  }

  lemma CppExtension()
    ensures ExtensionOf("main.hh") == ".hh"
  {
    ExtensionIs("main.hh", "main", "hh");
  }

  lemma TsxFileName()
    ensures FileName("src/comp/script.tsx") == Ok("script.tsx")
  {
    FileNameOf("src/comp/script.tsx", "src/comp", "script.tsx");
  }

  lemma TsxExtension()
    ensures ExtensionOf("script.tsx") == ".tsx"
  {
    ExtensionIs("script.tsx", "script", "tsx");
  }

  lemma SshConfigFileName()
    ensures FileName("opt/sshconfig") == Ok("sshconfig")
  {
    FileNameOf("opt/sshconfig", "opt", "sshconfig");
  }

  lemma SshConfigExtension()
    ensures ExtensionOf("sshconfig") == "."
  {
    assert '.' !in "sshconfig";
  }

  lemma ReadmeFileName()
    ensures FileName("README") == Ok("README")
  {
    BareFileName("README");
  }

  lemma ReadmeExtension()
    ensures ExtensionOf("README") == "."
  {
    assert '.' !in "README";
  }

  lemma CMakeListsFileName()
    ensures FileName("CMakeLists.txt") == Ok("CMakeLists.txt")
  {
    BareFileName("CMakeLists.txt");
  }

  lemma CMakeListsExtension()
    ensures ExtensionOf("CMakeLists.txt") == ".txt"
  {
    ExtensionIs("CMakeLists.txt", "CMakeLists", "txt");
  }

  // The scenarios.

  /** "src/Main.java" is Java. */
  lemma JavaByExtension()
    ensures IsOf(Sample(), "src/Main.java", ["Java"]) == Ok(true)
  {
    JavaFileName();
    JavaExtension();
    JavaFacts();
    NamedByExtension(Sample(), "src/Main.java", "Main.java", Lang(3), "Java");
  }

  /** ".hh" resolves to C++, recognised by name and by its alias "cpp". */
  lemma CppByAlias()
    ensures IsOf(Sample(), "src/main.hh", ["C++"]) == Ok(true)
    ensures IsOf(Sample(), "src/main.hh", ["cpp"]) == Ok(true)
  {
    CppFileName();
    CppExtension();
    CppFacts();
    NamedByExtension(Sample(), "src/main.hh", "main.hh", Lang(1), "C++");
    NamedByExtension(Sample(), "src/main.hh", "main.hh", Lang(1), "cpp");
  }

  /** ".tsx" is TSX, and TypeScript through TSX's group. */
  lemma TsxByGroup()
    ensures IsOf(Sample(), "src/comp/script.tsx", ["TSX"]) == Ok(true)
    ensures IsOf(Sample(), "src/comp/script.tsx", ["TypeScript"]) == Ok(true)
  {
    TsxFileName();
    TsxExtension();
    TsxFacts();
    NamedByExtension(Sample(), "src/comp/script.tsx", "script.tsx", Lang(5), "TSX");
    NamedByExtension(Sample(), "src/comp/script.tsx", "script.tsx", Lang(5), "TypeScript");
  }

  /** A dotless name has the key ".", which no language lists, so the whole name decides. */
  lemma SshConfigByFileName()
    ensures IsOf(Sample(), "opt/sshconfig", ["SSH Config"]) == Ok(true)
  {
    SshConfigFileName();
    SshConfigExtension();
    NothingClaimsDot();
    SshConfigFacts();
    NamedByFileName(Sample(), "opt/sshconfig", "sshconfig", Lang(4), "SSH Config");
  }

  /** A name matched by neither index has no candidates and so no language. */
  lemma ReadmeIsUnknown()
    ensures GetLanguages(Sample(), "README") == Ok([])
    ensures IsOf(Sample(), "README", ["Text"]) == Ok(false)
  {
    ReadmeFileName();
    ReadmeExtension();
    NothingClaimsDot();
    NothingClaimsReadme();
    Unmatched(Sample(), "README", "README", ["Text"]);
  }

  /** "CMakeLists.txt" is a CMake file name, but ".txt" is claimed, so Text wins and CMake is not returned. */
  lemma ExtensionDominatesFileName()
    ensures GetLanguages(Sample(), "CMakeLists.txt").Ok?
    ensures Lang(6) in GetLanguages(Sample(), "CMakeLists.txt").value
    ensures Lang(2) !in GetLanguages(Sample(), "CMakeLists.txt").value
  {
    CMakeListsFileName();
    CMakeListsExtension();
    CMakeTextFacts();
    ShadowedFileName(Sample(), "CMakeLists.txt", "CMakeLists.txt", Lang(6), Lang(2));
  }

  lemma NamesAtMostEleven()
    ensures NamesShorter(Sample(), 12)
  {
  }

  /** Registered by key and by alias, in any case. */
  lemma Registration()
    ensures IsRegistered(Sample(), "TypeScript")
    ensures IsRegistered(Sample(), "TS")
  {
    KeysRegistered(Sample(), 7, "TypeScript");
    assert RegisteredAt(Sample(), 7, "TS") by {
      assert "ts" in Sample()[7].1.aliases;
    }
  }

  /** An unknown name is not registered. */
  lemma UnknownUnregistered()
    ensures !IsRegistered(Sample(), "nonexistent-lang")
  {
    NamesAtMostEleven();
    UnregisteredByLength(Sample(), "nonexistent-lang", 12);
  }
}

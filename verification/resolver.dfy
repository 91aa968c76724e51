/**
  The queries of `Linguist` over a loaded table: which languages a path may
  be written in (`getLanguages`), whether it is written in one of some named
  languages (`isOf`), and whether a name is known at all (`isRegistered`).
 */
module Resolver {
  import opened Outcomes
  import opened Text
  import opened Paths
  import opened Languages
  import opened Table
  import opened Index

  /**
    `extensionToLanguagesMap`: an extension is a key exactly when some language
    lists it; its list is non-empty, holds exactly the languages listing it,
    and is their reference list in table order.
   */
  function ExtensionIndex(t: LanguageTable): (m: map<string, seq<Language>>)
    ensures forall e :: e in m <==> Claimed(Values(t), Extensions, e)
    ensures forall e :: e in m ==> m[e] != [] && m[e] == Matching(Values(t), Extensions, e)
    ensures forall e, l :: l in Values(t) && e in l.extensions ==> e in m && l in m[e]
    ensures forall e, i :: e in m && 0 <= i < |m[e]| ==> m[e][i] in Values(t) && e in m[e][i].extensions
  {
    assert forall l :: Keys(l, Extensions) == l.extensions;
    IndexAll(Values(t), Extensions);
    BuildIndex(Values(t), Extensions)
  }

  /** `filenameToLanguagesMap`, with the same guarantees for file names. */
  function FilenameIndex(t: LanguageTable): (m: map<string, seq<Language>>)
    ensures forall n :: n in m <==> Claimed(Values(t), Filenames, n)
    ensures forall n :: n in m ==> m[n] != [] && m[n] == Matching(Values(t), Filenames, n)
    ensures forall n, l :: l in Values(t) && n in l.filenames ==> n in m && l in m[n]
    ensures forall n, i :: n in m && 0 <= i < |m[n]| ==> m[n][i] in Values(t) && n in m[n][i].filenames
  {
    assert forall l :: Keys(l, Filenames) == l.filenames;
    IndexAll(Values(t), Filenames);
    BuildIndex(Values(t), Filenames)
  }

  /**
    `getLanguages`: look the extension of the path's file name up first; only
    when no language lists it, look the whole file name up; otherwise no
    candidate. It fails only where `Paths.get(path).fileName` does.
   */
  function GetLanguages(t: LanguageTable, path: string): (r: Result<seq<Language>, PathError>)
    ensures r.Err? <==> FileName(path).Err?
    ensures r.Err? ==> r.error == FileName(path).error
  {
    match FileName(path)
    case Err(e) => Err(e)
    case Ok(name) =>
      var byExtension := ExtensionIndex(t);
      var ext := ExtensionOf(name);
      if ext in byExtension then Ok(byExtension[ext])
      else
        var byName := FilenameIndex(t);
        Ok(if name in byName then byName[name] else [])
  }

  /**
    Precedence, stated on the table itself: when some language lists the
    file's extension the result is exactly those languages in table order;
    otherwise it is exactly the languages listing the whole file name, which
    is empty when there are none.
   */
  lemma ResolveExact(t: LanguageTable, path: string)
    requires FileName(path).Ok?
    ensures
      var name := FileName(path).value;
      var ext := ExtensionOf(name);
      var ls := Values(t);
      GetLanguages(t, path) ==
        Ok(if Claimed(ls, Extensions, ext) then Matching(ls, Extensions, ext)
           else Matching(ls, Filenames, name))
  {
    var name := FileName(path).value;
    var ext := ExtensionOf(name);
    var ls := Values(t);
    IndexExact(ls, Extensions, ext);
    IndexExact(ls, Filenames, name);
    if !Claimed(ls, Filenames, name) {
      UnclaimedIsEmpty(ls, Filenames, name);
    }
  }

  /**
    Soundness and completeness of resolution: `l` is a candidate for the path
    exactly when it is a language of the table that lists the extension, or,
    when no language lists the extension, one that lists the file name.
   */
  lemma ResolveMembers(t: LanguageTable, path: string, l: Language)
    requires FileName(path).Ok?
    ensures
      var name := FileName(path).value;
      var ext := ExtensionOf(name);
      l in GetLanguages(t, path).value <==>
        l in Values(t) &&
        (ext in l.extensions || (!Claimed(Values(t), Extensions, ext) && name in l.filenames))
  {
    var name := FileName(path).value;
    var ext := ExtensionOf(name);
    ResolveExact(t, path);
    MatchingMembers(Values(t), Extensions, ext, l);
    MatchingMembers(Values(t), Filenames, name, l);
  }

  /** The names `isOf` compares for one language: aliases, name and, when present, group. */
  function Labels(l: Language): (r: seq<string>)
    ensures forall s :: s in r <==> s in l.aliases || s == l.name || (l.group.Some? && s == l.group.value)
  {
    l.aliases + [l.name] + (match l.group case Some(g) => [g] case None => [])
  }

  /** The labels of all candidate languages, in order (the `flatMap` of `isOf`). */
  function AllLabels(ls: seq<Language>): (r: seq<string>)
    ensures forall i, s :: 0 <= i < |ls| && s in Labels(ls[i]) ==> s in r
  {
    if |ls| == 0 then [] else AllLabels(ls[..|ls| - 1]) + Labels(ls[|ls| - 1])
  }

  /** Some element of `xs` occurs in `ys`. */
  predicate AnyIn(xs: seq<string>, ys: seq<string>) {
    exists i :: 0 <= i < |xs| && xs[i] in ys
  }

  /**
    `isOf`: with no candidate names it is false without resolving the path;
    otherwise it resolves the path and compares lower-cased labels of the
    candidates with the lower-cased names.
   */
  function IsOf(t: LanguageTable, path: string, names: seq<string>): (r: Result<bool, PathError>)
    ensures names == [] ==> r == Ok(false)
    ensures names != [] ==> (r.Err? <==> FileName(path).Err?)
  {
    if |names| == 0 then Ok(false)
    else
      match GetLanguages(t, path)
      case Err(e) => Err(e)
      case Ok(ls) => Ok(AnyIn(LowerAll(AllLabels(ls)), LowerAll(names)))
  }

  /** `c` names `l`, ignoring case: its name, one of its aliases, or its group when it has one. */
  predicate NameMatches(l: Language, c: string) {
    || EqualsIgnoreCase(l.name, c)
    || (exists a :: a in l.aliases && EqualsIgnoreCase(a, c))
    || (l.group.Some? && EqualsIgnoreCase(l.group.value, c))
  }

  /** `c` names `l` exactly when some label of `l` lower-cases to the same string as `c`. */
  lemma LabelsMatch(l: Language, c: string)
    ensures NameMatches(l, c) <==> exists s :: s in Labels(l) && Lower(s) == Lower(c)
  {
  }

  lemma {:induction false} AllLabelsMembers(ls: seq<Language>, s: string)
    ensures s in AllLabels(ls) <==> exists l :: l in ls && s in Labels(l)
  {
    if |ls| > 0 {
      var init, last := ls[..|ls| - 1], ls[|ls| - 1];
      AllLabelsMembers(init, s);
      assert ls == init + [last];
      if s in AllLabels(ls) && s !in Labels(last) {
        var l :| l in init && s in Labels(l);
        assert l in ls;
      }
    }
  }

  /** A label match found by `isOf`'s comparison comes from some candidate named by some given name. */
  lemma AnyInHasWitness(ls: seq<Language>, names: seq<string>)
    requires AnyIn(LowerAll(AllLabels(ls)), LowerAll(names))
    ensures exists l, c :: l in ls && c in names && NameMatches(l, c)
  {
    var labels := AllLabels(ls);
    var lowered := LowerAll(labels);
    var wanted := LowerAll(names);
    var i :| 0 <= i < |lowered| && lowered[i] in wanted;
    var j :| 0 <= j < |wanted| && wanted[j] == lowered[i];
    AllLabelsMembers(ls, labels[i]);
    var l :| l in ls && labels[i] in Labels(l);
    LabelsMatch(l, names[j]);
    assert names[j] in names && NameMatches(l, names[j]);
  }

  /** A candidate named by a given name makes `isOf`'s comparison succeed. */
  lemma WitnessGivesAnyIn(ls: seq<Language>, names: seq<string>, l: Language, c: string)
    requires l in ls && c in names && NameMatches(l, c)
    ensures AnyIn(LowerAll(AllLabels(ls)), LowerAll(names))
  {
    var labels := AllLabels(ls);
    LabelsMatch(l, c);
    var s :| s in Labels(l) && Lower(s) == Lower(c);
    var k :| 0 <= k < |ls| && ls[k] == l;
    assert s in Labels(ls[k]);
    assert s in labels;
    var i :| 0 <= i < |labels| && labels[i] == s;
    var j :| 0 <= j < |names| && names[j] == c;
    assert LowerAll(labels)[i] == LowerAll(names)[j];
  }

  /**
    Matching semantics: with at least one name and a path that has a file
    name, `isOf` holds exactly when some candidate language is named, ignoring
    case, by some given name through its name, an alias or its group.
   */
  lemma IsOfMeaning(t: LanguageTable, path: string, names: seq<string>)
    requires names != [] && FileName(path).Ok?
    ensures IsOf(t, path, names) ==
      Ok(exists l, c :: l in GetLanguages(t, path).value && c in names && NameMatches(l, c))
  {
    var ls := GetLanguages(t, path).value;
    assert IsOf(t, path, names) == Ok(AnyIn(LowerAll(AllLabels(ls)), LowerAll(names)));
    if AnyIn(LowerAll(AllLabels(ls)), LowerAll(names)) {
      AnyInHasWitness(ls, names);
    }
    if exists l, c :: l in ls && c in names && NameMatches(l, c) {
      var l, c :| l in ls && c in names && NameMatches(l, c);
      WitnessGivesAnyIn(ls, names, l, c);
    }
  }

  /** `isOf` depends on the names only up to case. */
  lemma IsOfIgnoresCase(t: LanguageTable, path: string, names: seq<string>, names': seq<string>)
    requires |names| == |names'|
    requires forall i :: 0 <= i < |names| ==> EqualsIgnoreCase(names[i], names'[i])
    ensures IsOf(t, path, names) == IsOf(t, path, names')
  {
    assert LowerAll(names) == LowerAll(names');
  }

  /** A single name that names some candidate of the path makes `isOf` hold. */
  lemma IsOfNamed(t: LanguageTable, path: string, l: Language, c: string)
    requires FileName(path).Ok? && l in GetLanguages(t, path).value
    requires NameMatches(l, c)
    ensures IsOf(t, path, [c]) == Ok(true)
  {
    IsOfMeaning(t, path, [c]);
    assert c in [c];
  }

  /** A path without candidates is of no language, whatever the names. */
  lemma IsOfNoCandidates(t: LanguageTable, path: string, names: seq<string>)
    requires GetLanguages(t, path) == Ok([])
    ensures IsOf(t, path, names) == Ok(false)
  {
  }

  /** The names `isRegistered` compares: each entry's aliases, then its key. */
  function RegisteredNames(t: seq<(string, Language)>): (r: seq<string>)
    ensures forall i :: 0 <= i < |t| ==> t[i].0 in r
    ensures forall i, a :: 0 <= i < |t| && a in t[i].1.aliases ==> a in r
  {
    if |t| == 0 then [] else RegisteredNames(t[..|t| - 1]) + (t[|t| - 1].1.aliases + [t[|t| - 1].0])
  }

  /** `s` is the key or an alias of entry `i`, ignoring case. */
  predicate RegisteredAt(t: seq<(string, Language)>, i: int, s: string)
    requires 0 <= i < |t|
  {
    EqualsIgnoreCase(t[i].0, s) || exists a :: a in t[i].1.aliases && EqualsIgnoreCase(a, s)
  }

  lemma {:induction false} RegisteredNamesMembers(t: seq<(string, Language)>, s: string)
    ensures s in RegisteredNames(t) <==>
      exists i :: 0 <= i < |t| && (s == t[i].0 || s in t[i].1.aliases)
  {
    if |t| > 0 {
      var init := t[..|t| - 1];
      RegisteredNamesMembers(init, s);
      if exists i :: 0 <= i < |init| && (s == init[i].0 || s in init[i].1.aliases) {
        var i :| 0 <= i < |init| && (s == init[i].0 || s in init[i].1.aliases);
        assert t[i] == init[i];
      }
    }
  }

  /** A match found by `isRegistered`'s comparison comes from some entry's key or alias. */
  lemma RegisteredNamesSound(t: LanguageTable, s: string)
    ensures Lower(s) in LowerAll(RegisteredNames(t)) ==> exists i :: 0 <= i < |t| && RegisteredAt(t, i, s)
  {
    var names := RegisteredNames(t);
    var lowered := LowerAll(names);
    if Lower(s) in lowered {
      var j :| 0 <= j < |lowered| && lowered[j] == Lower(s);
      RegisteredNamesMembers(t, names[j]);
      var i :| 0 <= i < |t| && (names[j] == t[i].0 || names[j] in t[i].1.aliases);
      assert RegisteredAt(t, i, s);
    }
  }

  /** An entry whose key or alias matches makes `isRegistered`'s comparison succeed. */
  lemma RegisteredNamesComplete(t: LanguageTable, s: string, i: nat)
    requires i < |t| && RegisteredAt(t, i, s)
    ensures Lower(s) in LowerAll(RegisteredNames(t))
  {
    var names := RegisteredNames(t);
    var n := if EqualsIgnoreCase(t[i].0, s) then t[i].0
             else var a :| a in t[i].1.aliases && EqualsIgnoreCase(a, s); a;
    RegisteredNamesMembers(t, n);
    var j :| 0 <= j < |names| && names[j] == n;
    assert LowerAll(names)[j] == Lower(s);
  }

  /** The comparison of `isRegistered` finds a match exactly when some entry's key or alias matches. */
  lemma RegisteredNamesMatch(t: LanguageTable, s: string)
    ensures Lower(s) in LowerAll(RegisteredNames(t)) <==> exists i :: 0 <= i < |t| && RegisteredAt(t, i, s)
  {
    RegisteredNamesSound(t, s);
    if exists i :: 0 <= i < |t| && RegisteredAt(t, i, s) {
      var i :| 0 <= i < |t| && RegisteredAt(t, i, s);
      RegisteredNamesComplete(t, s, i);
    }
  }

  /**
    `isRegistered`: the lower-cased name is among the lower-cased keys and
    aliases. It holds exactly when some entry's key or one of its aliases
    equals the name ignoring case; groups and paths play no part.
   */
  function IsRegistered(t: LanguageTable, language: string): (r: bool)
    ensures r <==> exists i :: 0 <= i < |t| && RegisteredAt(t, i, language)
  {
    RegisteredNamesMatch(t, language);
    Lower(language) in LowerAll(RegisteredNames(t))
  }

  /** `isRegistered` depends on the name only up to case. */
  lemma IsRegisteredIgnoresCase(t: LanguageTable, s: string, s': string)
    requires EqualsIgnoreCase(s, s')
    ensures IsRegistered(t, s) == IsRegistered(t, s')
  {
  }

  /** Every key of the table is registered, under any casing. */
  lemma KeysRegistered(t: LanguageTable, i: nat, s: string)
    requires i < |t| && EqualsIgnoreCase(s, t[i].0)
    ensures IsRegistered(t, s)
  {
    assert RegisteredAt(t, i, s);
  }

  /** Every key and alias of the table is shorter than `n` characters. */
  predicate NamesShorter(t: seq<(string, Language)>, n: nat) {
    forall i :: 0 <= i < |t| ==> |t[i].0| < n && forall a :: a in t[i].1.aliases ==> |a| < n
  }

  /** ASCII lower-casing keeps lengths, so a name no shorter than a bound on every key and alias is not registered. */
  lemma UnregisteredByLength(t: LanguageTable, s: string, n: nat)
    requires NamesShorter(t, n) && n <= |s|
    ensures !IsRegistered(t, s)
  {
  }
}

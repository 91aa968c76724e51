/**
  The two derived indices, `extensionToLanguagesMap` and
  `filenameToLanguagesMap`. Each pairs every key a language lists with that
  language (`flatMap`), then groups the pairs by key (`groupBy`), so a key's
  list holds its languages in table order, once per time they list it.
 */
module Index {
  import opened Languages

  /** The list of a language an index is keyed on. */
  datatype Field = Extensions | Filenames

  function Keys(l: Language, f: Field): seq<string> {
    match f
    case Extensions => l.extensions
    case Filenames => l.filenames
  }

  /** The pairs `key to l` for the keys of one language, in list order. */
  function Tag(keys: seq<string>, l: Language): (r: seq<(string, Language)>)
    ensures |r| == |keys|
    ensures forall i :: 0 <= i < |r| ==> r[i] == (keys[i], l)
  {
    seq(|keys|, i requires 0 <= i < |keys| => (keys[i], l))
  }

  /** The `flatMap` step: all (key, language) pairs of the table, in table order. */
  function Pairs(langs: seq<Language>, f: Field): (r: seq<(string, Language)>)
    ensures forall i :: 0 <= i < |r| ==> r[i].1 in langs && r[i].0 in Keys(r[i].1, f)
  {
    if |langs| == 0 then []
    else
      var last := langs[|langs| - 1];
      Pairs(langs[..|langs| - 1], f) + Tag(Keys(last, f), last)
  }

  /** The `groupBy` step, as a left fold: each pair is appended to its key's list. */
  function GroupBy(ps: seq<(string, Language)>): (r: map<string, seq<Language>>)
    ensures r.Keys == set i | 0 <= i < |ps| :: ps[i].0
    ensures forall k :: k in r ==> r[k] != []
  {
    if |ps| == 0 then map[]
    else
      var m := GroupBy(ps[..|ps| - 1]);
      var k := ps[|ps| - 1].0;
      m[k := (if k in m then m[k] else []) + [ps[|ps| - 1].1]]
  }

  /** The index of `langs` on field `f`. */
  function BuildIndex(langs: seq<Language>, f: Field): (r: map<string, seq<Language>>)
    ensures forall k :: k in r ==> r[k] != []
  {
    GroupBy(Pairs(langs, f))
  }

  // Reference definitions, stated independently of the fold.

  /** Number of times `k` occurs in `keys`. */
  function Count(keys: seq<string>, k: string): nat {
    if |keys| == 0 then 0
    else Count(keys[..|keys| - 1], k) + (if keys[|keys| - 1] == k then 1 else 0)
  }

  function Repeat(l: Language, n: nat): (r: seq<Language>)
    ensures |r| == n
    ensures forall i :: 0 <= i < n ==> r[i] == l
  {
    seq(n, _ => l)
  }

  /** The values of the pairs whose key is `k`, in order. */
  function Select(ps: seq<(string, Language)>, k: string): seq<Language> {
    if |ps| == 0 then []
    else Select(ps[..|ps| - 1], k) + (if ps[|ps| - 1].0 == k then [ps[|ps| - 1].1] else [])
  }

  /** Each language of `langs`, in order, as many times as it lists `k`. */
  function Matching(langs: seq<Language>, f: Field, k: string): seq<Language> {
    if |langs| == 0 then []
    else
      var last := langs[|langs| - 1];
      Matching(langs[..|langs| - 1], f, k) + Repeat(last, Count(Keys(last, f), k))
  }

  /** Some language of `langs` lists `k`. */
  predicate Claimed(langs: seq<Language>, f: Field, k: string) {
    exists l :: l in langs && k in Keys(l, f)
  }

  /** The languages of `langs` that list `k`, in order, each once. */
  function Claimants(langs: seq<Language>, f: Field, k: string): seq<Language> {
    if |langs| == 0 then []
    else
      var last := langs[|langs| - 1];
      Claimants(langs[..|langs| - 1], f, k) + (if k in Keys(last, f) then [last] else [])
  }

  /** No language lists the same key twice. */
  predicate KeysUnique(langs: seq<Language>, f: Field) {
    forall l, i, j :: l in langs && 0 <= i < j < |Keys(l, f)| ==> Keys(l, f)[i] != Keys(l, f)[j]
  }

  // The fold against the reference definitions.

  lemma {:induction false} GroupBySelect(ps: seq<(string, Language)>, k: string)
    ensures k in GroupBy(ps) <==> Select(ps, k) != []
    ensures k in GroupBy(ps) ==> GroupBy(ps)[k] == Select(ps, k)
  {
    if |ps| > 0 {
      GroupBySelect(ps[..|ps| - 1], k);
    }
  }

  lemma {:induction false} SelectAppend(a: seq<(string, Language)>, b: seq<(string, Language)>, k: string)
    ensures Select(a + b, k) == Select(a, k) + Select(b, k)
    decreases |b|
  {
    if |b| == 0 {
      assert a + b == a;
    } else {
      assert (a + b)[..|a + b| - 1] == a + b[..|b| - 1];
      SelectAppend(a, b[..|b| - 1], k);
    }
  }

  lemma {:induction false} SelectTag(keys: seq<string>, l: Language, k: string)
    ensures Select(Tag(keys, l), k) == Repeat(l, Count(keys, k))
  {
    if |keys| > 0 {
      var t := Tag(keys, l);
      assert t[..|t| - 1] == Tag(keys[..|keys| - 1], l);
      SelectTag(keys[..|keys| - 1], l, k);
      var n := Count(keys[..|keys| - 1], k);
      if keys[|keys| - 1] == k {
        assert Repeat(l, n) + [l] == Repeat(l, n + 1);
      } else {
        assert Repeat(l, n) + [] == Repeat(l, n);
      }
    }
  }

  lemma {:induction false} PairsSelect(langs: seq<Language>, f: Field, k: string)
    ensures Select(Pairs(langs, f), k) == Matching(langs, f, k)
  {
    if |langs| > 0 {
      var last := langs[|langs| - 1];
      PairsSelect(langs[..|langs| - 1], f, k);
      SelectAppend(Pairs(langs[..|langs| - 1], f), Tag(Keys(last, f), last), k);
      SelectTag(Keys(last, f), last, k);
    }
  }

  lemma {:induction false} CountPositive(keys: seq<string>, k: string)
    ensures Count(keys, k) > 0 <==> k in keys
  {
    if |keys| > 0 {
      CountPositive(keys[..|keys| - 1], k);
      assert keys == keys[..|keys| - 1] + [keys[|keys| - 1]];
    }
  }

  lemma {:induction false} MatchingMembers(langs: seq<Language>, f: Field, k: string, l: Language)
    ensures l in Matching(langs, f, k) <==> l in langs && k in Keys(l, f)
  {
    if |langs| > 0 {
      var init, last := langs[..|langs| - 1], langs[|langs| - 1];
      MatchingMembers(init, f, k, l);
      CountPositive(Keys(last, f), k);
      var r := Repeat(last, Count(Keys(last, f), k));
      assert l in r <==> |r| > 0 && l == last by {
        if |r| > 0 { assert r[0] == last; }
      }
      assert langs == init + [last];
    }
  }

  lemma {:induction false} MatchingAppend(a: seq<Language>, b: seq<Language>, f: Field, k: string)
    ensures Matching(a + b, f, k) == Matching(a, f, k) + Matching(b, f, k)
    decreases |b|
  {
    if |b| == 0 {
      assert a + b == a;
    } else {
      assert (a + b)[..|a + b| - 1] == a + b[..|b| - 1];
      MatchingAppend(a, b[..|b| - 1], f, k);
    }
  }

  /** A key no language lists has an empty reference list. */
  lemma UnclaimedIsEmpty(langs: seq<Language>, f: Field, k: string)
    requires !Claimed(langs, f, k)
    ensures Matching(langs, f, k) == []
  {
    if Matching(langs, f, k) != [] {
      MatchingMembers(langs, f, k, Matching(langs, f, k)[0]);
    }
  }

  // The properties of the index.

  /**
    The index holds `k` exactly when some language lists it, and then maps it
    to the reference list: the claiming languages in table order.
   */
  lemma IndexExact(langs: seq<Language>, f: Field, k: string)
    ensures k in BuildIndex(langs, f) <==> Claimed(langs, f, k)
    ensures k in BuildIndex(langs, f) ==> BuildIndex(langs, f)[k] == Matching(langs, f, k)
  {
    GroupBySelect(Pairs(langs, f), k);
    PairsSelect(langs, f, k);
    if Claimed(langs, f, k) {
      var l :| l in langs && k in Keys(l, f);
      MatchingMembers(langs, f, k, l);
    } else {
      UnclaimedIsEmpty(langs, f, k);
    }
  }

  /**
    Soundness and completeness: `l` is in the list of `k` exactly when `l` is a
    language of the table that lists `k`. Every list present is non-empty.
   */
  lemma IndexMembers(langs: seq<Language>, f: Field, k: string, l: Language)
    ensures k in BuildIndex(langs, f) ==> BuildIndex(langs, f)[k] != []
    ensures k in BuildIndex(langs, f) && l in BuildIndex(langs, f)[k] <==> l in langs && k in Keys(l, f)
  {
    IndexExact(langs, f, k);
    MatchingMembers(langs, f, k, l);
    if k in BuildIndex(langs, f) {
      var w :| w in langs && k in Keys(w, f);
      MatchingMembers(langs, f, k, w);
    }
  }

  /** The reference list of a single language. */
  lemma MatchingSingle(l: Language, f: Field, k: string)
    ensures Matching([l], f, k) == Repeat(l, Count(Keys(l, f), k))
  {
    assert [l][..0] == [];
  }

  /** The reference list of `langs` around position `j`. */
  lemma MatchingSplit(langs: seq<Language>, f: Field, k: string, j: nat)
    requires j < |langs|
    ensures Matching(langs, f, k) ==
      Matching(langs[..j], f, k) + Repeat(langs[j], Count(Keys(langs[j], f), k)) + Matching(langs[j + 1..], f, k)
  {
    var before, after := langs[..j], langs[j + 1..];
    assert langs == before + ([langs[j]] + after);
    MatchingAppend(before, [langs[j]] + after, f, k);
    MatchingAppend([langs[j]], after, f, k);
    MatchingSingle(langs[j], f, k);
  }

  /** Table order: of two languages listing `k`, the earlier one comes first in `k`'s list. */
  lemma IndexOrder(langs: seq<Language>, f: Field, k: string, i: nat, j: nat)
    requires i < j < |langs|
    requires k in Keys(langs[i], f) && k in Keys(langs[j], f)
    ensures k in BuildIndex(langs, f)
    ensures exists p, q ::
      (0 <= p < q < |BuildIndex(langs, f)[k]| &&
       BuildIndex(langs, f)[k][p] == langs[i] && BuildIndex(langs, f)[k][q] == langs[j])
  {
    IndexExact(langs, f, k);
    MatchingSplit(langs, f, k, j);
    CountPositive(Keys(langs[j], f), k);
    var before := langs[..j];
    assert langs[i] == before[i];
    MatchingMembers(before, f, k, langs[i]);
    var mb := Matching(before, f, k);
    var p :| 0 <= p < |mb| && mb[p] == langs[i];
    var r := Repeat(langs[j], Count(Keys(langs[j], f), k));
    var idx := BuildIndex(langs, f)[k];
    assert idx == mb + r + Matching(langs[j + 1..], f, k);
    assert idx[p] == langs[i];
    assert idx[|mb|] == langs[j];
  }

  lemma {:induction false} MatchingIsClaimants(langs: seq<Language>, f: Field, k: string)
    requires KeysUnique(langs, f)
    ensures Matching(langs, f, k) == Claimants(langs, f, k)
  {
    if |langs| > 0 {
      var init, last := langs[..|langs| - 1], langs[|langs| - 1];
      assert KeysUnique(init, f);
      MatchingIsClaimants(init, f, k);
      CountAtMostOne(Keys(last, f), k);
      CountPositive(Keys(last, f), k);
      if k in Keys(last, f) {
        assert Repeat(last, 1) == [last];
      }
    }
  }

  lemma {:induction false} CountAtMostOne(keys: seq<string>, k: string)
    requires forall i, j :: 0 <= i < j < |keys| ==> keys[i] != keys[j]
    ensures Count(keys, k) <= 1
  {
    if |keys| > 0 {
      var init := keys[..|keys| - 1];
      CountAtMostOne(init, k);
      if keys[|keys| - 1] == k {
        CountPositive(init, k);
      }
    }
  }

  /**
    When no language lists a key twice, a key's list is exactly the
    subsequence of the table's languages that list it.
   */
  lemma IndexIsClaimants(langs: seq<Language>, f: Field, k: string)
    requires KeysUnique(langs, f)
    ensures k in BuildIndex(langs, f) ==> BuildIndex(langs, f)[k] == Claimants(langs, f, k)
    ensures k !in BuildIndex(langs, f) ==> Claimants(langs, f, k) == []
  {
    IndexExact(langs, f, k);
    MatchingIsClaimants(langs, f, k);
    if k !in BuildIndex(langs, f) {
      UnclaimedIsEmpty(langs, f, k);
    }
  }

  /** The properties of one index, for all keys at once. */
  lemma IndexAll(langs: seq<Language>, f: Field)
    ensures forall k :: k in BuildIndex(langs, f) <==> Claimed(langs, f, k)
    ensures forall k :: k in BuildIndex(langs, f) ==> BuildIndex(langs, f)[k] == Matching(langs, f, k)
    ensures forall k, l :: l in langs && k in Keys(l, f) ==> k in BuildIndex(langs, f) && l in BuildIndex(langs, f)[k]
    ensures forall k, i :: k in BuildIndex(langs, f) && 0 <= i < |BuildIndex(langs, f)[k]| ==>
      BuildIndex(langs, f)[k][i] in langs && k in Keys(BuildIndex(langs, f)[k][i], f)
  {
    forall k {
      IndexExact(langs, f, k);
    }
    forall k, l {
      IndexMembers(langs, f, k, l);
    }
    forall k, i | k in BuildIndex(langs, f) && 0 <= i < |BuildIndex(langs, f)[k]| {
      IndexMembers(langs, f, k, BuildIndex(langs, f)[k][i]);
    }
  }
}

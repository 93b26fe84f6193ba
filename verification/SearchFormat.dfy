/** The formatter as it runs: loops over values, groups and the entries of a map in no particular order. */
module SearchFormat {
  import opened Wrappers
  import opened Strings
  import opened Sorting
  import opened SearchReader
  import opened SearchQuery
  import opened KeywordWords
  import opened SearchKeywords

  lemma TextsBoth(a: seq<Clause>, b: seq<Clause>)
    ensures ClauseTexts(a + b) == ClauseTexts(a) + ClauseTexts(b)
  {
  }

  lemma TextsOfClauses(cs: seq<Clause>)
    ensures ClauseTexts(cs) == Map(cs, ClauseText)
  {
  }

  lemma SortedTexts(cs: seq<Clause>)
    ensures Sort(ClauseTexts(cs)) == ClauseTexts(SortBy(cs, ClauseText))
  {
    SortByText(cs, ClauseText);
    TextsOfClauses(cs);
    TextsOfClauses(SortBy(cs, ClauseText));
  }

  lemma TextsOfTerms(ts: Clause)
    ensures TermTexts(ts) == Map(ts, TermText)
  {
  }

  lemma SortedTerms(key: string, vs: seq<string>)
    ensures Sort(TermTexts(Terms(key, vs))) == TermTexts(GroupClause(key, vs))
  {
    SortByText(Terms(key, vs), TermText);
    TextsOfTerms(Terms(key, vs));
    TextsOfTerms(GroupClause(key, vs));
  }

  method FormatTerms(key: string, vs: seq<string>) returns (all: seq<string>)
    ensures all == TermTexts(Terms(key, vs)) == ClauseTexts(Singles(key, vs))
  {
    all := [];
    for i := 0 to |vs|
      invariant all == TermTexts(Terms(key, vs))[..i]
    {
      all := all + [key + ":" + Quote(vs[i])];
    }
  }

  /** The values as one clause, whatever their order. */
  method GroupWithOr(key: string, vs: seq<string>) returns (text: string)
    ensures text == if vs == [] then "" else ClauseText(GroupClause(key, vs))
  {
    if |vs| == 0 { return ""; }
    var all := FormatTerms(key, vs);
    SortedTerms(key, vs);
    if |all| == 1 {
      assert Sort(all) == all;
      assert TermTexts(GroupClause(key, vs))[0] == all[0];
      return all[0];
    }
    all := Sort(all);
    text := "(" + Join(all, " OR ") + ")";
  }

  lemma {:induction false} GroupOfFirst(v: string, groups: seq<seq<string>>, n: nat)
    requires n <= |groups| && (forall m :: 0 <= m < n ==> v !in groups[m])
    requires n < |groups| ==> v in groups[n]
    ensures GroupOf(v, groups) == n
  {
    if n > 0 {
      GroupOfFirst(v, groups[1..], n - 1);
    }
  }

  lemma MembersSnoc(vs: seq<string>, i: nat, groups: seq<seq<string>>, n: nat)
    requires i < |vs|
    ensures Members(vs[..i + 1], groups, n) ==
            Members(vs[..i], groups, n) + if GroupOf(vs[i], groups) == n then [vs[i]] else []
  {
    assert vs[..i + 1][..i] == vs[..i];
  }

  /** Deals the values out to the first group that lists them, the others to `rest`. */
  method Deal(vs: seq<string>, groups: seq<seq<string>>)
    returns (specialGroups: seq<seq<string>>, rest: seq<string>)
    ensures |specialGroups| == |groups|
    ensures forall n :: 0 <= n < |groups| ==> specialGroups[n] == Members(vs, groups, n)
    ensures rest == Members(vs, groups, |groups|)
  {
    specialGroups, rest := seq(|groups|, n => []), [];
    for i := 0 to |vs|
      invariant |specialGroups| == |groups|
      invariant forall n :: 0 <= n < |groups| ==> specialGroups[n] == Members(vs[..i], groups, n)
      invariant rest == Members(vs[..i], groups, |groups|)
    {
      var v, isSpecial := vs[i], false;
      var g := 0;
      while g < |groups|
        invariant g <= |groups| && !isSpecial
        invariant forall m :: 0 <= m < g ==> v !in groups[m]
      {
        if v in groups[g] {
          isSpecial := true;
          break;
        }
        g := g + 1;
      }
      GroupOfFirst(v, groups, g);
      forall n | 0 <= n <= |groups|
        ensures Members(vs[..i + 1], groups, n) == Members(vs[..i], groups, n) + if g == n then [v] else []
      {
        MembersSnoc(vs, i, groups, n);
      }
      if isSpecial {
        specialGroups := specialGroups[g := specialGroups[g] + [v]];
      } else {
        rest := rest + [v];
      }
    }
    assert vs[..|vs|] == vs;
  }

  lemma NextGroup(n: nat, part: nat -> seq<Clause>)
    ensures ClauseTexts(Gather(n + 1, part)) == ClauseTexts(Gather(n, part)) + ClauseTexts(part(n))
  {
    TextsBoth(Gather(n, part), part(n));
  }

  /** Goes on with the clause of group `n`, if the group has a member. */
  method AppendGroup(key: string, ghost vs: seq<string>, ghost groups: seq<seq<string>>, ghost n: nat,
                     members: seq<string>, ghost part: nat -> seq<Clause>, all: seq<string>)
    returns (all': seq<string>)
    requires members == Members(vs, groups, n) && part(n) == OneGroup(key, vs, groups, n)
    requires all == ClauseTexts(Gather(n, part))
    ensures all' == ClauseTexts(Gather(n + 1, part))
  {
    NextGroup(n, part);
    if |members| == 0 { return all; }
    var text := GroupWithOr(key, members);
    all' := all + [text];
  }

  /** The clauses of the groups that have a member, in the order of the groups. */
  method FormatGroups(key: string, ghost vs: seq<string>, ghost groups: seq<seq<string>>,
                      specialGroups: seq<seq<string>>)
    returns (all: seq<string>)
    requires |specialGroups| == |groups|
    requires forall n :: 0 <= n < |groups| ==> specialGroups[n] == Members(vs, groups, n)
    ensures all == ClauseTexts(Gather(|groups|, ByGroup(key, vs, groups)))
  {
    all := [];
    ghost var part := ByGroup(key, vs, groups);
    assert all == ClauseTexts(Gather(0, part));
    for n := 0 to |specialGroups|
      invariant all == ClauseTexts(Gather(n, part))
    {
      all := AppendGroup(key, vs, groups, n, specialGroups[n], part, all);
    }
  }

  method FormatSpecialQualifiers(key: string, vs: seq<string>, groups: seq<seq<string>>) returns (all: seq<string>)
    ensures all == ClauseTexts(SortBy(SpecialClauses(key, vs, groups), ClauseText))
  {
    var specialGroups, rest := Deal(vs, groups);
    all := FormatGroups(key, vs, groups, specialGroups);
    var others := FormatTerms(key, rest);
    TextsBoth(Gather(|groups|, ByGroup(key, vs, groups)), Singles(key, rest));
    SortedTexts(SpecialClauses(key, vs, groups));
    all := Sort(all + others);
  }

  /** The clauses of one qualifier. */
  method FormatKey(key: string, vs: seq<string>) returns (all: seq<string>)
    requires vs != []
    ensures all == ClauseTexts(KeyClauses(key, vs))
  {
    if key == "in" {
      all := FormatSpecialQualifiers(key, vs, IN_GROUPS);
    } else if key == "is" {
      all := FormatSpecialQualifiers(key, vs, IS_GROUPS);
    } else if key == "user" || key == "repo" {
      var text := GroupWithOr(key, vs);
      all := [text];
    } else {
      all := FormatTerms(key, vs);
      SortedTexts(Singles(key, vs));
      if |all| > 1 {
        all := Sort(all);
      }
    }
  }

  datatype Entry = Entry(key: string, values: seq<string>)

  function KeyOf(e: Entry): string { e.key }

  predicate Formatted(e: Entry, q: Qualifiers) {
    e.key in q && q[e.key] != [] && e.values == ClauseTexts(KeyClauses(e.key, q[e.key]))
  }

  lemma SortEntries(all: seq<Entry>, q: Qualifiers)
    requires forall e :: e in all ==> Formatted(e, q)
    requires multiset(Map(all, KeyOf)) == multiset(Used(q))
    ensures var sorted, keys := SortBy(all, KeyOf), SortedElements(Used(q));
            |sorted| == |keys| && forall i :: 0 <= i < |keys| ==> sorted[i].key == keys[i] && Formatted(sorted[i], q)
  {
    var sorted, keys := SortBy(all, KeyOf), SortedElements(Used(q));
    SortByText(all, KeyOf);
    SortSorted(Map(all, KeyOf));
    SortedUnique(Map(sorted, KeyOf), keys);
    SameElements(sorted, all);
    forall i | 0 <= i < |keys|
      ensures sorted[i].key == keys[i] && Formatted(sorted[i], q)
    {
      assert Map(sorted, KeyOf)[i] == keys[i];
      assert sorted[i] in all;
    }
  }

  lemma OneMoreEntry(all: seq<Entry>, e: Entry, q: Qualifiers, left: set<string>)
    requires e.key in left && e.key in Used(q)
    requires multiset(Map(all, KeyOf)) == multiset(Used(q) - left)
    ensures multiset(Map(all + [e], KeyOf)) == multiset(Used(q) - (left - {e.key}))
  {
    assert Map(all + [e], KeyOf) == Map(all, KeyOf) + [e.key];
    assert Used(q) - (left - {e.key}) == (Used(q) - left) + {e.key};
  }

  /** Takes the qualifiers out of the map in an order of its own choosing. */
  method CollectEntries(q: Qualifiers) returns (all: seq<Entry>)
    ensures forall e :: e in all ==> Formatted(e, q)
    ensures multiset(Map(all, KeyOf)) == multiset(Used(q))
  {
    all := [];
    var left := q.Keys;
    while left != {}
      invariant left <= q.Keys
      invariant forall e :: e in all ==> Formatted(e, q)
      invariant multiset(Map(all, KeyOf)) == multiset(Used(q) - left)
      decreases |left|
    {
      var k :| k in left;
      if |q[k]| == 0 {
        assert Used(q) - (left - {k}) == Used(q) - left;
        left := left - {k};
        continue;
      }
      var values := FormatKey(k, q[k]);
      OneMoreEntry(all, Entry(k, values), q, left);
      all := all + [Entry(k, values)];
      left := left - {k};
    }
    assert Used(q) - {} == Used(q);
  }

  /** What each key stands for, in the order of the keys. */
  ghost function InOrder(keys: seq<string>, part: string -> seq<Clause>): seq<Clause> {
    if keys == [] then [] else InOrder(keys[..|keys| - 1], part) + part(keys[|keys| - 1])
  }

  ghost function PartOf(q: Qualifiers): string -> seq<Clause> {
    (k: string) => if k in q then KeyClauses(k, q[k]) else []
  }

  lemma {:induction false} InOrderClauses(keys: seq<string>, q: Qualifiers)
    requires AllIn(keys, q)
    ensures InOrder(keys, PartOf(q)) == ClausesInOrder(keys, q)
  {
    if keys != [] {
      var before, k := keys[..|keys| - 1], keys[|keys| - 1];
      InOrderClauses(before, q);
      assert PartOf(q)(k) == KeyClauses(k, q[k]);
    }
  }

  function AllValues(entries: seq<Entry>): seq<string> {
    if entries == [] then [] else AllValues(entries[..|entries| - 1]) + entries[|entries| - 1].values
  }

  /** Entries that stand in the order of the keys hold the texts of all clauses. */
  lemma {:induction false} ValuesInOrder(entries: seq<Entry>, keys: seq<string>, part: string -> seq<Clause>)
    requires |entries| == |keys|
    requires forall j :: 0 <= j < |keys| ==> entries[j].values == ClauseTexts(part(keys[j]))
    ensures AllValues(entries) == ClauseTexts(InOrder(keys, part))
    decreases |entries|
  {
    if entries != [] {
      var last := |keys| - 1;
      ValuesInOrder(entries[..last], keys[..last], part);
      TextsBoth(InOrder(keys[..last], part), part(keys[last]));
    }
  }

  lemma EntriesInOrder(entries: seq<Entry>, keys: seq<string>, q: Qualifiers)
    requires |entries| == |keys|
    requires forall j :: 0 <= j < |keys| ==> entries[j].key == keys[j] && Formatted(entries[j], q)
    ensures AllIn(keys, q) && AllValues(entries) == ClauseTexts(ClausesInOrder(keys, q))
  {
    forall j | 0 <= j < |keys|
      ensures keys[j] in q && entries[j].values == ClauseTexts(PartOf(q)(keys[j]))
    {
      assert Formatted(entries[j], q);
    }
    ValuesInOrder(entries, keys, PartOf(q));
    InOrderClauses(keys, q);
  }

  method Concatenate(entries: seq<Entry>) returns (result: seq<string>)
    ensures result == AllValues(entries)
  {
    result := [];
    for i := 0 to |entries|
      invariant result == AllValues(entries[..i])
    {
      assert entries[..i + 1][..i] == entries[..i];
      result := result + entries[i].values;
    }
    assert entries[..|entries|] == entries;
  }

  /** The result is the same whatever order the map gives its entries in. */
  method FormatQualifiers(q: Qualifiers) returns (result: seq<string>)
    ensures result == ClauseTexts(AllClauses(q))
  {
    var all := CollectEntries(q);
    SortEntries(all, q);
    UsedKeys(q);
    EntriesInOrder(SortBy(all, KeyOf), SortedElements(Used(q)), q);
    result := Concatenate(SortBy(all, KeyOf));
  }

  /** The whole query: the keywords, in brackets when qualifiers follow. */
  method AdvancedIssueSearchString(immutableKeywords: string, ks: seq<string>, q: Qualifiers) returns (text: string)
    ensures var keywords := KeywordPart(immutableKeywords, ks);
            text == if QualifierText(q) == "" then keywords
                    else if keywords == "" then QualifierText(q)
                    else Query(keywords, QualifierText(q))
    ensures SayAll(KeywordTexts(ks), ks)
  {
    TextsSay(ks);
    var parts := FormatQualifiers(q);
    var qualifiers := Join(parts, " ");
    var keywords := immutableKeywords;
    if keywords == "" {
      var texts := FormatKeywords(ks);
      keywords := Join(texts, " ");
    }
    if qualifiers == "" && keywords == "" { return ""; }
    if qualifiers != "" && keywords != "" { return "( " + keywords + " ) " + qualifiers; }
    if keywords != "" { return keywords; }
    return qualifiers;
  }
}

/** Formatting the qualifiers of an advanced issue search: some values of a qualifier are alternatives of each other,
    the rest must all hold. */
module SearchQuery {
  import opened Wrappers
  import opened Strings
  import opened Sorting
  import opened SearchReader

  type Qualifiers = map<string, seq<string>>

  const IN_GROUPS: seq<seq<string>> := [["title", "body", "comments"]]

  const IS_GROUPS: seq<seq<string>> :=
    [["blocked", "blocking"], ["closed", "open"], ["issue", "pr"], ["locked", "unlocked"], ["merged", "unmerged"],
     ["private", "public"]]

  // ---------------------------------------------------------------- the clauses of one qualifier

  function Terms(key: string, vs: seq<string>): (r: seq<Term>)
    ensures |r| == |vs| && forall i :: 0 <= i < |vs| ==> r[i] == Term(key, vs[i])
  {
    seq(|vs|, i requires 0 <= i < |vs| => Term(key, vs[i]))
  }

  function Singles(key: string, vs: seq<string>): (r: seq<Clause>)
    ensures |r| == |vs| && forall i :: 0 <= i < |vs| ==> r[i] == [Term(key, vs[i])]
  {
    seq(|vs|, i requires 0 <= i < |vs| => [Term(key, vs[i])])
  }

  /** The values as alternatives, in the order of their texts. */
  function GroupClause(key: string, vs: seq<string>): Clause {
    SortBy(Terms(key, vs), TermText)
  }

  /** The first group that lists the value, or the number of groups. */
  function GroupOf(v: string, groups: seq<seq<string>>): (n: nat)
    ensures n <= |groups|
  {
    if groups == [] then 0 else if v in groups[0] then 0 else 1 + GroupOf(v, groups[1..])
  }

  function Members(vs: seq<string>, groups: seq<seq<string>>, n: nat): seq<string> {
    if vs == [] then []
    else
      var last := |vs| - 1;
      Members(vs[..last], groups, n) + if GroupOf(vs[last], groups) == n then [vs[last]] else []
  }

  function OneGroup(key: string, vs: seq<string>, groups: seq<seq<string>>, n: nat): seq<Clause> {
    if Members(vs, groups, n) == [] then [] else [GroupClause(key, Members(vs, groups, n))]
  }

  function Gather(n: nat, part: nat -> seq<Clause>): seq<Clause> {
    if n == 0 then [] else Gather(n - 1, part) + part(n - 1)
  }

  function ByGroup(key: string, vs: seq<string>, groups: seq<seq<string>>): nat -> seq<Clause> {
    (n: nat) => OneGroup(key, vs, groups, n)
  }

  function SpecialClauses(key: string, vs: seq<string>, groups: seq<seq<string>>): seq<Clause> {
    Gather(|groups|, ByGroup(key, vs, groups)) + Singles(key, Members(vs, groups, |groups|))
  }

  function KeyClauses(key: string, vs: seq<string>): seq<Clause> {
    if key == "in" then SortBy(SpecialClauses(key, vs, IN_GROUPS), ClauseText)
    else if key == "is" then SortBy(SpecialClauses(key, vs, IS_GROUPS), ClauseText)
    else if key == "user" || key == "repo" then [GroupClause(key, vs)]
    else SortBy(Singles(key, vs), ClauseText)
  }

  predicate AllIn(keys: seq<string>, q: Qualifiers) {
    forall i :: 0 <= i < |keys| ==> keys[i] in q
  }

  function ClausesInOrder(keys: seq<string>, q: Qualifiers): seq<Clause>
    requires AllIn(keys, q)
  {
    if keys == [] then []
    else
      var last := |keys| - 1;
      ClausesInOrder(keys[..last], q) + KeyClauses(keys[last], q[keys[last]])
  }

  /** The qualifiers that have a value. */
  function Used(q: Qualifiers): set<string> {
    set k | k in q && q[k] != []
  }

  ghost function AllClauses(q: Qualifiers): seq<Clause> {
    UsedKeys(q);
    ClausesInOrder(SortedElements(Used(q)), q)
  }

  lemma UsedKeys(q: Qualifiers)
    ensures forall k :: k in SortedElements(Used(q)) <==> k in Used(q)
    ensures forall i :: 0 <= i < |SortedElements(Used(q))| ==> SortedElements(Used(q))[i] in Used(q)
  {
    assert forall k :: k in SortedElements(Used(q)) <==> k in multiset(Used(q));
  }

  // ---------------------------------------------------------------- what the map asks for

  /** Of the values that group `n` lists, if there are any, one must match. */
  ghost predicate GroupAsks(key: string, vs: seq<string>, groups: seq<seq<string>>, n: nat, matches: Term -> bool) {
    (exists v :: v in vs && GroupOf(v, groups) == n) ==>
      exists v :: v in vs && GroupOf(v, groups) == n && matches(Term(key, v))
  }

  /** The qualifier read with the groups: each asks for one of its values, and every value in no group must match. */
  ghost predicate GroupsAsk(key: string, vs: seq<string>, groups: seq<seq<string>>, matches: Term -> bool) {
    && (forall n :: 0 <= n < |groups| ==> GroupAsks(key, vs, groups, n, matches))
    && (forall v :: v in vs && GroupOf(v, groups) == |groups| ==> matches(Term(key, v)))
  }

  ghost predicate KeyAsks(key: string, vs: seq<string>, matches: Term -> bool) {
    if key == "in" then GroupsAsk(key, vs, IN_GROUPS, matches)
    else if key == "is" then GroupsAsk(key, vs, IS_GROUPS, matches)
    else if key == "user" || key == "repo" then exists v :: v in vs && matches(Term(key, v))
    else forall v :: v in vs ==> matches(Term(key, v))
  }

  ghost predicate MapAsks(q: Qualifiers, matches: Term -> bool) {
    forall k :: k in q && q[k] != [] ==> KeyAsks(k, q[k], matches)
  }

  lemma SameElements<T>(a: seq<T>, b: seq<T>)
    requires multiset(a) == multiset(b)
    ensures forall x :: x in a <==> x in b
  {
    assert forall x :: (x in a <==> x in multiset(a)) && (x in b <==> x in multiset(b));
  }

  lemma AsksAll(cs: seq<Clause>, matches: Term -> bool)
    ensures Asks(cs, matches) <==> forall c :: c in cs ==> Holds(c, matches)
  {
  }

  lemma AsksBoth(a: seq<Clause>, b: seq<Clause>, matches: Term -> bool)
    ensures Asks(a + b, matches) <==> Asks(a, matches) && Asks(b, matches)
  {
    AsksAll(a, matches);
    AsksAll(b, matches);
    AsksAll(a + b, matches);
  }

  lemma AsksSorted(cs: seq<Clause>, matches: Term -> bool)
    ensures Asks(SortBy(cs, ClauseText), matches) <==> Asks(cs, matches)
  {
    SameElements(SortBy(cs, ClauseText), cs);
    AsksAll(cs, matches);
    AsksAll(SortBy(cs, ClauseText), matches);
  }

  lemma GroupHolds(key: string, vs: seq<string>, matches: Term -> bool)
    ensures Holds(GroupClause(key, vs), matches) <==> exists v :: v in vs && matches(Term(key, v))
  {
    SameElements(GroupClause(key, vs), Terms(key, vs));
    if Holds(GroupClause(key, vs), matches) {
      var t :| t in GroupClause(key, vs) && matches(t);
      var i :| 0 <= i < |vs| && Terms(key, vs)[i] == t;
      assert vs[i] in vs;
    }
    if v :| v in vs && matches(Term(key, v)) {
      var i :| 0 <= i < |vs| && vs[i] == v;
      assert Terms(key, vs)[i] in Terms(key, vs);
    }
  }

  lemma SinglesAsk(key: string, vs: seq<string>, matches: Term -> bool)
    ensures Asks(Singles(key, vs), matches) <==> forall v :: v in vs ==> matches(Term(key, v))
  {
    if Asks(Singles(key, vs), matches) {
      forall v | v in vs
        ensures matches(Term(key, v))
      {
        var i :| 0 <= i < |vs| && vs[i] == v;
        assert Holds(Singles(key, vs)[i], matches);
      }
    }
    if forall v :: v in vs ==> matches(Term(key, v)) {
      forall i | 0 <= i < |vs|
        ensures Holds(Singles(key, vs)[i], matches)
      {
        assert Term(key, vs[i]) in Singles(key, vs)[i];
      }
    }
  }

  lemma {:induction false} MembersExact(vs: seq<string>, groups: seq<seq<string>>, n: nat)
    ensures forall v :: v in Members(vs, groups, n) <==> v in vs && GroupOf(v, groups) == n
  {
    if vs == [] {
    } else {
      MembersExact(vs[..|vs| - 1], groups, n);
      assert vs == vs[..|vs| - 1] + [vs[|vs| - 1]];
    }
  }

  lemma OneGroupAsks(key: string, vs: seq<string>, groups: seq<seq<string>>, n: nat,
                                        matches: Term -> bool)
    ensures Asks(OneGroup(key, vs, groups, n), matches) <==> GroupAsks(key, vs, groups, n, matches)
  {
    var members := Members(vs, groups, n);
    MembersExact(vs, groups, n);
    AsksAll(OneGroup(key, vs, groups, n), matches);
    if members != [] {
      GroupHolds(key, members, matches);
      assert members[0] in members;
    }
  }

  lemma {:induction false} GatherAsks(n: nat, part: nat -> seq<Clause>, matches: Term -> bool)
    ensures Asks(Gather(n, part), matches) <==> forall m: nat :: m < n ==> Asks(part(m), matches)
  {
    if n > 0 {
      GatherAsks(n - 1, part, matches);
      AsksBoth(Gather(n - 1, part), part(n - 1), matches);
    }
  }

  /** The clauses of one qualifier ask for what its values ask for. */
  lemma KeyMeaning(key: string, vs: seq<string>, matches: Term -> bool)
    ensures Asks(KeyClauses(key, vs), matches) <==> KeyAsks(key, vs, matches)
  {
    if key == "in" || key == "is" {
      var groups := if key == "in" then IN_GROUPS else IS_GROUPS;
      SpecialMeaning(key, vs, groups, matches);
      AsksSorted(SpecialClauses(key, vs, groups), matches);
    } else if key == "user" || key == "repo" {
      GroupHolds(key, vs, matches);
      AsksAll([GroupClause(key, vs)], matches);
    } else {
      AsksSorted(Singles(key, vs), matches);
      SinglesAsk(key, vs, matches);
    }
  }

  lemma SpecialMeaning(key: string, vs: seq<string>, groups: seq<seq<string>>, matches: Term -> bool)
    ensures Asks(SpecialClauses(key, vs, groups), matches) <==> GroupsAsk(key, vs, groups, matches)
  {
    var rest := Members(vs, groups, |groups|);
    var part := ByGroup(key, vs, groups);
    AsksBoth(Gather(|groups|, part), Singles(key, rest), matches);
    GatherAsks(|groups|, part, matches);
    forall n | 0 <= n < |groups|
      ensures Asks(part(n), matches) <==> GroupAsks(key, vs, groups, n, matches)
    {
      OneGroupAsks(key, vs, groups, n, matches);
    }
    SinglesAsk(key, rest, matches);
    MembersExact(vs, groups, |groups|);
  }

  lemma {:induction false} InOrderMeaning(keys: seq<string>, q: Qualifiers, matches: Term -> bool)
    requires forall i :: 0 <= i < |keys| ==> keys[i] in q
    ensures Asks(ClausesInOrder(keys, q), matches) <==> forall k :: k in keys ==> KeyAsks(k, q[k], matches)
  {
    if keys == [] {
    } else {
      var before, k := keys[..|keys| - 1], keys[|keys| - 1];
      InOrderMeaning(before, q, matches);
      assert Asks(KeyClauses(k, q[k]), matches) <==> KeyAsks(k, q[k], matches) by {
        KeyMeaning(k, q[k], matches);
      }
      AsksBoth(ClausesInOrder(before, q), KeyClauses(k, q[k]), matches);
      assert forall x :: x in keys <==> x in before || x == k;
    }
  }

  /** The clauses, taken together, ask of every item exactly what the qualifier map asks. */
  lemma ClausesMeaning(q: Qualifiers, matches: Term -> bool)
    ensures Asks(AllClauses(q), matches) <==> MapAsks(q, matches)
  {
    UsedKeys(q);
    InOrderMeaning(SortedElements(Used(q)), q, matches);
  }

  // ---------------------------------------------------------------- every value once

  function Flat(cs: seq<Clause>): seq<Term> {
    if cs == [] then [] else cs[0] + Flat(cs[1..])
  }

  lemma {:induction false} FlatBoth(a: seq<Clause>, b: seq<Clause>)
    ensures Flat(a + b) == Flat(a) + Flat(b)
  {
    if a == [] {
      assert a + b == b;
    } else {
      assert (a + b)[1..] == a[1..] + b;
      FlatBoth(a[1..], b);
    }
  }

  lemma {:induction false} FlatInserted(c: Clause, cs: seq<Clause>)
    ensures multiset(Flat(InsertBy(c, cs, ClauseText))) == multiset(c) + multiset(Flat(cs))
  {
    if cs == [] {
      assert Flat([c]) == c + Flat([]) by { assert [c][1..] == []; }
    } else if Leq(ClauseText(c), ClauseText(cs[0])) {
      assert ([c] + cs)[1..] == cs;
    } else {
      FlatInserted(c, cs[1..]);
      var rest := InsertBy(c, cs[1..], ClauseText);
      assert ([cs[0]] + rest)[1..] == rest;
    }
  }

  lemma {:induction false} FlatSorted(cs: seq<Clause>)
    ensures multiset(Flat(SortBy(cs, ClauseText))) == multiset(Flat(cs))
  {
    if cs != [] {
      FlatSorted(cs[1..]);
      FlatInserted(cs[0], SortBy(cs[1..], ClauseText));
    }
  }

  lemma FlatOne(c: Clause)
    ensures Flat([c]) == c
  {
    assert [c][1..] == [];
  }

  /** How often a term stands for the values `vs` of a qualifier. */
  function Times(key: string, vs: seq<string>, t: Term): nat {
    if t.key == key then multiset(vs)[t.value] else 0
  }

  lemma {:induction false} TermsCount(key: string, vs: seq<string>, t: Term)
    ensures multiset(Terms(key, vs))[t] == Times(key, vs, t)
  {
    if vs == [] {
    } else {
      var last := |vs| - 1;
      TermsCount(key, vs[..last], t);
      assert vs == vs[..last] + [vs[last]];
      assert Terms(key, vs) == Terms(key, vs[..last]) + [Term(key, vs[last])];
    }
  }

  lemma {:induction false} SinglesFlat(key: string, vs: seq<string>)
    ensures Flat(Singles(key, vs)) == Terms(key, vs)
  {
    if vs == [] {
    } else {
      SinglesFlat(key, vs[1..]);
      assert Singles(key, vs)[1..] == Singles(key, vs[1..]);
      assert Terms(key, vs) == [Term(key, vs[0])] + Terms(key, vs[1..]);
    }
  }

  lemma {:induction false} MembersCount(vs: seq<string>, groups: seq<seq<string>>, n: nat, v: string)
    ensures multiset(Members(vs, groups, n))[v] == if GroupOf(v, groups) == n then multiset(vs)[v] else 0
  {
    if vs == [] {
    } else {
      var last := |vs| - 1;
      MembersCount(vs[..last], groups, n, v);
      assert vs == vs[..last] + [vs[last]];
    }
  }

  lemma OneGroupCount(key: string, vs: seq<string>, groups: seq<seq<string>>, n: nat, t: Term)
    ensures multiset(Flat(OneGroup(key, vs, groups, n)))[t] ==
            if GroupOf(t.value, groups) == n then Times(key, vs, t) else 0
  {
    var members := Members(vs, groups, n);
    MembersCount(vs, groups, n, t.value);
    TermsCount(key, members, t);
    if members != [] {
      FlatOne(GroupClause(key, members));
    }
  }

  lemma {:induction false} GatherCount(n: nat, part: nat -> seq<Clause>, t: Term, home: nat, times: nat)
    requires forall m: nat :: m < n ==> multiset(Flat(part(m)))[t] == if m == home then times else 0
    ensures multiset(Flat(Gather(n, part)))[t] == if home < n then times else 0
  {
    if n > 0 {
      GatherCount(n - 1, part, t, home, times);
      FlatBoth(Gather(n - 1, part), part(n - 1));
    }
  }

  lemma SpecialCount(key: string, vs: seq<string>, groups: seq<seq<string>>, t: Term)
    ensures multiset(Flat(SpecialClauses(key, vs, groups)))[t] == Times(key, vs, t)
  {
    var rest := Members(vs, groups, |groups|);
    var part := ByGroup(key, vs, groups);
    FlatBoth(Gather(|groups|, part), Singles(key, rest));
    forall m: nat | m < |groups|
      ensures multiset(Flat(part(m)))[t] == if m == GroupOf(t.value, groups) then Times(key, vs, t) else 0
    {
      OneGroupCount(key, vs, groups, m, t);
    }
    GatherCount(|groups|, part, t, GroupOf(t.value, groups), Times(key, vs, t));
    SinglesFlat(key, rest);
    TermsCount(key, rest, t);
    MembersCount(vs, groups, |groups|, t.value);
  }

  lemma KeyCount(key: string, vs: seq<string>, t: Term)
    ensures multiset(Flat(KeyClauses(key, vs)))[t] == Times(key, vs, t)
  {
    if key == "in" || key == "is" {
      var groups := if key == "in" then IN_GROUPS else IS_GROUPS;
      SpecialCount(key, vs, groups, t);
      FlatSorted(SpecialClauses(key, vs, groups));
    } else if key == "user" || key == "repo" {
      FlatOne(GroupClause(key, vs));
      TermsCount(key, vs, t);
    } else {
      FlatSorted(Singles(key, vs));
      SinglesFlat(key, vs);
      TermsCount(key, vs, t);
    }
  }

  lemma {:induction false} InOrderCount(keys: seq<string>, q: Qualifiers, t: Term)
    requires forall i :: 0 <= i < |keys| ==> keys[i] in q
    requires forall i, j :: 0 <= i < j < |keys| ==> keys[i] != keys[j]
    ensures multiset(Flat(ClausesInOrder(keys, q)))[t] == if t.key in keys then multiset(q[t.key])[t.value] else 0
  {
    if keys == [] {
    } else {
      var before, k := keys[..|keys| - 1], keys[|keys| - 1];
      InOrderCount(before, q, t);
      KeyCount(k, q[k], t);
      FlatBoth(ClausesInOrder(before, q), KeyClauses(k, q[k]));
      assert t.key in keys <==> t.key in before || t.key == k;
    }
  }

  lemma UsedDistinct(q: Qualifiers)
    ensures forall i, j :: 0 <= i < j < |SortedElements(Used(q))| ==>
              SortedElements(Used(q))[i] != SortedElements(Used(q))[j]
  {
    SetDistinct(SortedElements(Used(q)), Used(q));
  }

  lemma SetDistinct(r: seq<string>, s: set<string>)
    requires multiset(r) == multiset(s)
    ensures forall i, j :: 0 <= i < j < |r| ==> r[i] != r[j]
  {
    forall i, j | 0 <= i < j < |r|
      ensures r[i] != r[j]
    {
      assert r == r[..j] + [r[j]] + r[j + 1..];
      assert multiset(r) == multiset(r[..j]) + multiset{r[j]} + multiset(r[j + 1..]);
      assert r[..j][i] == r[i] && r[i] in multiset(r[..j]);
      assert multiset(s)[r[j]] <= 1;
    }
  }

  /** Each value of each qualifier is used as often as it was given, and nothing else is. */
  lemma EveryValueOnce(q: Qualifiers, t: Term)
    ensures multiset(Flat(AllClauses(q)))[t] == if t.key in q then multiset(q[t.key])[t.value] else 0
  {
    UsedKeys(q);
    UsedDistinct(q);
    InOrderCount(SortedElements(Used(q)), q, t);
  }

  // ---------------------------------------------------------------- the text

  ghost function QualifierText(q: Qualifiers): string {
    Join(ClauseTexts(AllClauses(q)), " ")
  }

  /** Among several users, or several repositories, only the last in the order of the texts may be a value that ends in
      a closing bracket without being quoted. */
  predicate Unambiguous(q: Qualifiers) {
    && ("user" in q ==> Bracketed(GroupClause("user", q["user"])))
    && ("repo" in q ==> Bracketed(GroupClause("repo", q["repo"])))
  }

  lemma ClosingValue(t: Term)
    requires t.value != "" && t.value[|t.value| - 1] != ')'
    ensures !Closes(TermText(t))
  {
    var text := TermText(t);
    assert text[|text| - 1] == Quote(t.value)[|Quote(t.value)| - 1];
  }

  predicate Word(v: string) {
    v != "" && v[|v| - 1] != ')'
  }

  lemma {:induction false} ListedWord(v: string, groups: seq<seq<string>>)
    requires forall g :: g in groups ==> forall w :: w in g ==> Word(w)
    requires GroupOf(v, groups) < |groups|
    ensures Word(v)
  {
    if v in groups[0] {
      assert groups[0] in groups;
    } else {
      assert forall g :: g in groups[1..] ==> g in groups;
      ListedWord(v, groups[1..]);
    }
  }

  predicate Shaped(key: string, c: Clause) {
    c != [] && forall i :: 0 <= i < |c| ==> c[i].key == key
  }

  lemma GroupShaped(key: string, vs: seq<string>)
    requires vs != []
    ensures Shaped(key, GroupClause(key, vs))
    ensures (forall v :: v in vs ==> Word(v)) ==> Bracketed(GroupClause(key, vs))
  {
    var c := GroupClause(key, vs);
    SameElements(c, Terms(key, vs));
    assert |c| == |vs|;
    forall i | 0 <= i < |c|
      ensures c[i].key == key && c[i].value in vs
    {
      assert c[i] in Terms(key, vs);
    }
    if forall v :: v in vs ==> Word(v) {
      forall i | 0 <= i < |c| - 1
        ensures !Closes(TermText(c[i]))
      {
        ClosingValue(c[i]);
      }
    }
  }

  predicate AllShaped(key: string, cs: seq<Clause>) {
    forall c :: c in cs ==> Shaped(key, c)
  }

  predicate EachBracketed(cs: seq<Clause>) {
    forall c :: c in cs ==> Bracketed(c)
  }

  lemma {:induction false} GatherShaped(n: nat, part: nat -> seq<Clause>, key: string)
    requires forall m: nat :: m < n ==> AllShaped(key, part(m)) && EachBracketed(part(m))
    ensures AllShaped(key, Gather(n, part)) && EachBracketed(Gather(n, part))
  {
    if n > 0 {
      GatherShaped(n - 1, part, key);
      assert forall c :: c in Gather(n, part) ==> c in Gather(n - 1, part) || c in part(n - 1);
    }
  }

  predicate GroupsOfWords(groups: seq<seq<string>>) {
    forall g :: g in groups ==> forall w :: w in g ==> Word(w)
  }

  lemma OneGroupShaped(key: string, vs: seq<string>, groups: seq<seq<string>>, n: nat)
    requires n < |groups| && GroupsOfWords(groups)
    ensures AllShaped(key, OneGroup(key, vs, groups, n)) && EachBracketed(OneGroup(key, vs, groups, n))
  {
    var members := Members(vs, groups, n);
    MembersExact(vs, groups, n);
    if members != [] {
      forall v | v in members
        ensures Word(v)
      {
        ListedWord(v, groups);
      }
      GroupShaped(key, members);
    }
  }

  lemma KnownWords()
    ensures GroupsOfWords(IN_GROUPS) && GroupsOfWords(IS_GROUPS)
  {
  }

  lemma SpecialShaped(key: string, vs: seq<string>, groups: seq<seq<string>>)
    requires GroupsOfWords(groups)
    ensures AllShaped(key, SpecialClauses(key, vs, groups)) && EachBracketed(SpecialClauses(key, vs, groups))
  {
    var part := ByGroup(key, vs, groups);
    forall m: nat | m < |groups|
      ensures AllShaped(key, part(m)) && EachBracketed(part(m))
    {
      OneGroupShaped(key, vs, groups, m);
    }
    GatherShaped(|groups|, part, key);
    var singles := Singles(key, Members(vs, groups, |groups|));
    assert forall c :: c in SpecialClauses(key, vs, groups) ==> c in Gather(|groups|, part) || c in singles;
    assert forall c :: c in singles ==> Shaped(key, c) && Bracketed(c);
  }

  lemma SortedShaped(key: string, cs: seq<Clause>)
    requires AllShaped(key, cs) && EachBracketed(cs)
    ensures AllShaped(key, SortBy(cs, ClauseText)) && EachBracketed(SortBy(cs, ClauseText))
  {
    SameElements(SortBy(cs, ClauseText), cs);
  }

  /** The clauses of a qualifier are made of its terms, and those of every qualifier but two can always be read. */
  lemma KeyShaped(key: string, vs: seq<string>)
    requires vs != []
    ensures AllShaped(key, KeyClauses(key, vs))
    ensures EachBracketed(KeyClauses(key, vs)) <==>
            (key == "user" || key == "repo" ==> Bracketed(GroupClause(key, vs)))
  {
    if key == "in" || key == "is" {
      var groups := if key == "in" then IN_GROUPS else IS_GROUPS;
      KnownWords();
      SpecialShaped(key, vs, groups);
      SortedShaped(key, SpecialClauses(key, vs, groups));
    } else if key == "user" || key == "repo" {
      GroupShaped(key, vs);
      assert GroupClause(key, vs) in KeyClauses(key, vs);
    } else {
      SortedShaped(key, Singles(key, vs));
    }
  }

  lemma {:induction false} InOrderNamed(keys: seq<string>, q: Qualifiers)
    requires forall i :: 0 <= i < |keys| ==> keys[i] in q && q[keys[i]] != [] && Name(keys[i])
    ensures forall c :: c in ClausesInOrder(keys, q) ==> Named(c)
  {
    if keys == [] {
    } else {
      var before, k := keys[..|keys| - 1], keys[|keys| - 1];
      InOrderNamed(before, q);
      KeyShaped(k, q[k]);
      forall c | c in ClausesInOrder(keys, q)
        ensures Named(c)
      {
        assert c in ClausesInOrder(before, q) || Shaped(k, c);
      }
    }
  }

  predicate UsersBracketed(k: string, q: Qualifiers)
    requires k in q
  {
    k == "user" || k == "repo" ==> Bracketed(GroupClause(k, q[k]))
  }

  predicate AllUsersBracketed(keys: seq<string>, q: Qualifiers)
    requires forall i :: 0 <= i < |keys| ==> keys[i] in q
  {
    forall i :: 0 <= i < |keys| ==> UsersBracketed(keys[i], q)
  }

  lemma OneMoreKey(keys: seq<string>, q: Qualifiers)
    requires keys != [] && forall i :: 0 <= i < |keys| ==> keys[i] in q
    ensures AllUsersBracketed(keys, q) <==>
            AllUsersBracketed(keys[..|keys| - 1], q) && UsersBracketed(keys[|keys| - 1], q)
  {
  }

  lemma {:induction false} InOrderBracketed(keys: seq<string>, q: Qualifiers)
    requires forall i :: 0 <= i < |keys| ==> keys[i] in q && q[keys[i]] != []
    ensures EachBracketed(ClausesInOrder(keys, q)) <==> AllUsersBracketed(keys, q)
  {
    if keys == [] {
    } else {
      var before, k := keys[..|keys| - 1], keys[|keys| - 1];
      InOrderBracketed(before, q);
      KeyShaped(k, q[k]);
      EachOfBoth(ClausesInOrder(before, q), KeyClauses(k, q[k]));
      OneMoreKey(keys, q);
    }
  }

  lemma EachOfBoth(a: seq<Clause>, b: seq<Clause>)
    ensures EachBracketed(a + b) <==> EachBracketed(a) && EachBracketed(b)
  {
  }

  /** Read as an AND of clauses with OR inside brackets, the text of the qualifiers asks of every item what the map
      asks, with each value used as often as it was given. The text can be read so if and only if it is unambiguous. */
  lemma TextMeaning(q: Qualifiers)
    requires forall k :: k in q ==> Name(k)
    ensures Read(QualifierText(q)) == Some(AllClauses(q)) <==> Unambiguous(q)
    ensures forall matches: Term -> bool :: Asks(AllClauses(q), matches) <==> MapAsks(q, matches)
    ensures forall t :: multiset(Flat(AllClauses(q)))[t] == if t.key in q then multiset(q[t.key])[t.value] else 0
  {
    var keys := SortedElements(Used(q));
    UsedKeys(q);
    InOrderNamed(keys, q);
    InOrderBracketed(keys, q);
    var cs := AllClauses(q);
    ReadBack(cs);
    assert AllBracketed(cs) <==> EachBracketed(cs);
    forall matches: Term -> bool
      ensures Asks(cs, matches) <==> MapAsks(q, matches)
    {
      ClausesMeaning(q, matches);
    }
    forall t
      ensures multiset(Flat(cs))[t] == if t.key in q then multiset(q[t.key])[t.value] else 0
    {
      EveryValueOnce(q, t);
    }
    assert "user" in keys <==> "user" in q && q["user"] != [];
    assert "repo" in keys <==> "repo" in q && q["repo"] != [];
  }

  lemma {:induction false} LeqBehind(lead: string, a: string, b: string)
    requires Leq(a, b)
    ensures Leq(lead + a, lead + b)
  {
    if lead == "" {
      assert lead + a == a && lead + b == b;
    } else {
      LeqBehind(lead[1..], a, b);
      assert (lead + a)[1..] == lead[1..] + a && (lead + b)[1..] == lead[1..] + b;
    }
  }

  lemma GroupOfTwo(key: string, v: string, w: string)
    requires Leq(TermText(Term(key, v)), TermText(Term(key, w)))
    ensures GroupClause(key, [v, w]) == [Term(key, v), Term(key, w)]
  {
    var t, u := Term(key, v), Term(key, w);
    assert Terms(key, [v, w]) == [t, u];
    assert [t, u][1..] == [u] && [u][1..] == [];
    assert SortBy([u], TermText) == [u];
  }

  lemma TwoUsersAmbiguous()
    ensures !Unambiguous(map["user" := ["a)", "b"]])
  {
    assert TermText(Term("user", "a)")) == "user:" + "a)" && TermText(Term("user", "b")) == "user:" + "b";
    LeqBehind("user:", "a)", "b");
    GroupOfTwo("user", "a)", "b");
    assert Closes(TermText(GroupClause("user", ["a)", "b"])[0]));
  }

  /** Not every text is: of two users, the first of whom ends in a closing bracket, something else is read. */
  lemma MisreadUsers()
    ensures var q := map["user" := ["a)", "b"]];
            !Unambiguous(q) && Read(QualifierText(q)) != Some(AllClauses(q))
  {
    TwoUsersAmbiguous();
    TextMeaning(map["user" := ["a)", "b"]]);
  }
}

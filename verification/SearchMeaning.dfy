/** What the text of the qualifiers says, without the groups and the order of the formatter: each value asks for itself
    or for one of its alternatives, and the text is the same in whatever order the values are given. */
module SearchMeaning {
  import opened Wrappers
  import opened Strings
  import opened Sorting
  import opened SearchReader
  import opened SearchQuery
  import opened SearchFormat

  // ---------------------------------------------------------------- alternatives

  predicate Either(v: string, w: string, a: string, b: string) {
    (v == a || v == b) && (w == a || w == b)
  }

  /** Two values of a qualifier of which an item can have only one, or of which one is enough. */
  predicate Alternatives(key: string, v: string, w: string) {
    key == "user" || key == "repo" ||
    (key == "in" && (v == "title" || v == "body" || v == "comments") &&
     (w == "title" || w == "body" || w == "comments")) ||
    (key == "is" &&
     (Either(v, w, "open", "closed") || Either(v, w, "issue", "pr") || Either(v, w, "private", "public") ||
      Either(v, w, "merged", "unmerged") || Either(v, w, "locked", "unlocked") || Either(v, w, "blocked", "blocking")))
  }

  /** Every value is matched, or one of those that were given as alternatives to it. */
  ghost predicate ValuesAsk(key: string, vs: seq<string>, matches: Term -> bool) {
    forall v :: v in vs ==> ValueAsks(key, vs, v, matches)
  }

  ghost predicate ValueAsks(key: string, vs: seq<string>, v: string, matches: Term -> bool) {
    exists w :: w in vs && (w == v || Alternatives(key, v, w)) && matches(Term(key, w))
  }

  predicate SameGroup(v: string, w: string, groups: seq<seq<string>>) {
    GroupOf(v, groups) == GroupOf(w, groups) < |groups|
  }

  lemma {:induction false} GroupLists(v: string, groups: seq<seq<string>>)
    ensures GroupOf(v, groups) < |groups| ==> v in groups[GroupOf(v, groups)]
    ensures forall m :: 0 <= m < GroupOf(v, groups) ==> v !in groups[m]
  {
    if groups != [] && v !in groups[0] {
      GroupLists(v, groups[1..]);
      forall m | 0 <= m < GroupOf(v, groups) ensures v !in groups[m] {
        if m > 0 { assert groups[1..][m - 1] == groups[m]; }
      }
    }
  }

  lemma ListedIn(v: string, groups: seq<seq<string>>, n: nat)
    requires n < |groups| && v in groups[n] && forall m :: 0 <= m < n ==> v !in groups[m]
    ensures GroupOf(v, groups) == n
  {
    GroupLists(v, groups);
  }

  lemma InGroups(v: string, w: string)
    ensures SameGroup(v, w, IN_GROUPS) <==> Alternatives("in", v, w)
  {
    GroupLists(v, IN_GROUPS);
    GroupLists(w, IN_GROUPS);
  }

  lemma ListedOnce(v: string, n: nat)
    requires n < |IS_GROUPS| && v in IS_GROUPS[n]
    ensures GroupOf(v, IS_GROUPS) == n
  {
    ListedIn(v, IS_GROUPS, n);
  }

  /** The two values of a group of "is". */
  function Pair(n: nat): (string, string)
    requires n < 6
  {
    if n == 0 then ("blocked", "blocking")
    else if n == 1 then ("closed", "open")
    else if n == 2 then ("issue", "pr")
    else if n == 3 then ("locked", "unlocked")
    else if n == 4 then ("merged", "unmerged")
    else ("private", "public")
  }

  lemma PairListed(n: nat, v: string)
    requires n < 6
    ensures |IS_GROUPS| == 6 && (v in IS_GROUPS[n] <==> v == Pair(n).0 || v == Pair(n).1)
  {
  }

  lemma PairAlternatives(v: string, w: string)
    ensures Alternatives("is", v, w) <==> exists n: nat :: n < 6 && Either(v, w, Pair(n).0, Pair(n).1)
  {
    if Alternatives("is", v, w) { AlternativesPair(v, w); }
  }

  lemma AlternativesPair(v: string, w: string)
    requires Alternatives("is", v, w)
    ensures exists n: nat :: n < 6 && Either(v, w, Pair(n).0, Pair(n).1)
  {
    assert "is"[1] != "in"[1] && |"user"| == |"repo"| == 4;
    assert Either(v, w, Pair(0).0, Pair(0).1) || Either(v, w, Pair(1).0, Pair(1).1) ||
           Either(v, w, Pair(2).0, Pair(2).1) || Either(v, w, Pair(3).0, Pair(3).1) ||
           Either(v, w, Pair(4).0, Pair(4).1) || Either(v, w, Pair(5).0, Pair(5).1);
  }

  lemma IsGroups(v: string, w: string)
    ensures SameGroup(v, w, IS_GROUPS) <==> Alternatives("is", v, w)
  {
    PairAlternatives(v, w);
    if SameGroup(v, w, IS_GROUPS) {
      var n := GroupOf(v, IS_GROUPS);
      GroupLists(v, IS_GROUPS);
      GroupLists(w, IS_GROUPS);
      PairListed(n, v);
      PairListed(n, w);
    }
    if n: nat :| n < 6 && Either(v, w, Pair(n).0, Pair(n).1) {
      PairListed(n, v);
      PairListed(n, w);
      ListedOnce(v, n);
      ListedOnce(w, n);
    }
  }

  // ---------------------------------------------------------------- what the map asks

  lemma GroupsAskAlternatives(key: string, vs: seq<string>, groups: seq<seq<string>>, matches: Term -> bool)
    requires forall v, w :: SameGroup(v, w, groups) <==> Alternatives(key, v, w)
    ensures GroupsAsk(key, vs, groups, matches) <==> ValuesAsk(key, vs, matches)
  {
    if GroupsAsk(key, vs, groups, matches) {
      forall v | v in vs ensures ValueAsks(key, vs, v, matches) {
        var n := GroupOf(v, groups);
        if n < |groups| {
          assert GroupAsks(key, vs, groups, n, matches);
          var w :| w in vs && GroupOf(w, groups) == n && matches(Term(key, w));
          assert SameGroup(v, w, groups);
        }
      }
    }
    if ValuesAsk(key, vs, matches) {
      forall n | 0 <= n < |groups| ensures GroupAsks(key, vs, groups, n, matches) {
        if v :| v in vs && GroupOf(v, groups) == n { AskedInGroup(key, vs, groups, v, matches); }
      }
      forall v | v in vs && GroupOf(v, groups) == |groups| ensures matches(Term(key, v)) {
        assert ValueAsks(key, vs, v, matches);
        var w :| w in vs && (w == v || Alternatives(key, v, w)) && matches(Term(key, w));
        assert !SameGroup(v, w, groups);
      }
    }
  }

  lemma AskedInGroup(key: string, vs: seq<string>, groups: seq<seq<string>>, v: string, matches: Term -> bool)
    requires forall v, w :: SameGroup(v, w, groups) <==> Alternatives(key, v, w)
    requires v in vs && GroupOf(v, groups) < |groups| && ValueAsks(key, vs, v, matches)
    ensures GroupAsks(key, vs, groups, GroupOf(v, groups), matches)
  {
    var w :| w in vs && (w == v || Alternatives(key, v, w)) && matches(Term(key, w));
    assert w == v || SameGroup(v, w, groups);
  }

  lemma KeyAsksAlternatives(key: string, vs: seq<string>, matches: Term -> bool)
    requires vs != []
    ensures KeyAsks(key, vs, matches) <==> ValuesAsk(key, vs, matches)
  {
    if key == "in" {
      forall v, w ensures SameGroup(v, w, IN_GROUPS) <==> Alternatives(key, v, w) { InGroups(v, w); }
      GroupsAskAlternatives(key, vs, IN_GROUPS, matches);
    } else if key == "is" {
      forall v, w ensures SameGroup(v, w, IS_GROUPS) <==> Alternatives(key, v, w) { IsGroups(v, w); }
      GroupsAskAlternatives(key, vs, IS_GROUPS, matches);
    } else {
      PlainKeyAsks(key, vs, matches);
    }
  }

  lemma PlainKeyAsks(key: string, vs: seq<string>, matches: Term -> bool)
    requires vs != [] && key != "in" && key != "is"
    ensures KeyAsks(key, vs, matches) <==> ValuesAsk(key, vs, matches)
  {
    if key == "user" || key == "repo" {
      assert vs[0] in vs;
      if ValuesAsk(key, vs, matches) { assert ValueAsks(key, vs, vs[0], matches); }
    } else {
      forall v ensures ValueAsks(key, vs, v, matches) <==> v in vs && matches(Term(key, v)) {
        OnlyItself(key, vs, v, matches);
      }
    }
  }

  lemma OnlyItself(key: string, vs: seq<string>, v: string, matches: Term -> bool)
    requires key != "in" && key != "is" && key != "user" && key != "repo"
    ensures ValueAsks(key, vs, v, matches) <==> v in vs && matches(Term(key, v))
  {
    assert forall w :: !Alternatives(key, v, w);
  }

  /** What is asked of an item by the text that reads back: every value of every qualifier, or one of its alternatives
      that were given too. */
  ghost predicate QualifiersAsk(q: Qualifiers, matches: Term -> bool) {
    forall k :: k in q ==> ValuesAsk(k, q[k], matches)
  }

  lemma QualifiersMeaning(q: Qualifiers, matches: Term -> bool)
    ensures Asks(AllClauses(q), matches) <==> QualifiersAsk(q, matches)
  {
    ClausesMeaning(q, matches);
    forall k | k in q && q[k] != [] ensures KeyAsks(k, q[k], matches) <==> ValuesAsk(k, q[k], matches) {
      KeyAsksAlternatives(k, q[k], matches);
    }
  }

  // ---------------------------------------------------------------- whatever the order of the values

  predicate SameValues(q: Qualifiers, r: Qualifiers) {
    q.Keys == r.Keys && forall k :: k in q ==> multiset(q[k]) == multiset(r[k])
  }

  lemma TermTextsOf(key: string, vs: seq<string>)
    ensures multiset(TermTexts(Terms(key, vs))) == multiset(Map(vs, (v: string) => TermText(Term(key, v))))
  {
    assert TermTexts(Terms(key, vs)) == Map(vs, (v: string) => TermText(Term(key, v)));
  }

  lemma WithoutOne(s: seq<string>, i: nat)
    requires i < |s|
    ensures multiset(s[..i] + s[i + 1..]) == multiset(s) - multiset{s[i]}
  {
    assert s == s[..i] + [s[i]] + s[i + 1..];
  }

  lemma MapBoth(a: seq<string>, b: seq<string>, f: string -> string)
    ensures Map(a + b, f) == Map(a, f) + Map(b, f)
  {
  }

  lemma MapWithoutOne(s: seq<string>, i: nat, f: string -> string)
    requires i < |s|
    ensures multiset(Map(s[..i] + s[i + 1..], f)) == multiset(Map(s, f)) - multiset{f(s[i])}
    ensures f(s[i]) in multiset(Map(s, f))
  {
    MapBoth(s[..i], s[i + 1..], f);
    assert Map(s, f)[..i] == Map(s[..i], f) && Map(s, f)[i + 1..] == Map(s[i + 1..], f);
    WithoutOne(Map(s, f), i);
    assert Map(s, f)[i] == f(s[i]);
  }

  lemma {:induction false} MapForgetsOrder(a: seq<string>, b: seq<string>, f: string -> string)
    requires multiset(a) == multiset(b)
    ensures multiset(Map(a, f)) == multiset(Map(b, f))
    decreases |a|
  {
    SameLength(a, b);
    if a != [] {
      var i := Partner(a, b);
      MapForgetsOrder(a[1..], b[..i] + b[i + 1..], f);
      MapWithoutFirst(a, f);
      MapWithoutOne(b, i, f);
      PutBack(multiset(Map(a, f)), multiset(Map(b, f)), f(a[0]));
    }
  }

  lemma Partner(a: seq<string>, b: seq<string>) returns (i: nat)
    requires multiset(a) == multiset(b) && a != []
    ensures i < |b| && b[i] == a[0] && multiset(a[1..]) == multiset(b[..i] + b[i + 1..])
  {
    assert a[0] in multiset(b);
    i :| i < |b| && b[i] == a[0];
    assert a[..0] + a[1..] == a[1..];
    WithoutOne(a, 0);
    WithoutOne(b, i);
  }

  lemma MapWithoutFirst(s: seq<string>, f: string -> string)
    requires s != []
    ensures multiset(Map(s[1..], f)) == multiset(Map(s, f)) - multiset{f(s[0])} && f(s[0]) in multiset(Map(s, f))
  {
    assert [s[0]] + s[1..] == s;
    MapFront(s[0], s[1..], f);
    FirstOut(f(s[0]), Map(s[1..], f));
  }

  lemma FirstOut(x: string, s: seq<string>)
    ensures multiset(s) == multiset([x] + s) - multiset{x} && x in multiset([x] + s)
  {
  }

  lemma PutBack(x: multiset<string>, y: multiset<string>, e: string)
    requires e in x && e in y && x - multiset{e} == y - multiset{e}
    ensures x == y
  {
    assert x == (x - multiset{e}) + multiset{e} && y == (y - multiset{e}) + multiset{e};
  }

  lemma GroupForgetsOrder(key: string, a: seq<string>, b: seq<string>)
    requires multiset(a) == multiset(b)
    ensures TermTexts(GroupClause(key, a)) == TermTexts(GroupClause(key, b))
  {
    SortedTerms(key, a);
    SortedTerms(key, b);
    TermTextsOf(key, a);
    TermTextsOf(key, b);
    MapForgetsOrder(a, b, (v: string) => TermText(Term(key, v)));
    SortForgetsOrder(TermTexts(Terms(key, a)), TermTexts(Terms(key, b)));
  }

  lemma {:induction false} MembersCount(vs: seq<string>, groups: seq<seq<string>>, n: nat, v: string)
    ensures multiset(Members(vs, groups, n))[v] == if GroupOf(v, groups) == n then multiset(vs)[v] else 0
  {
    if vs != [] {
      MembersCount(vs[..|vs| - 1], groups, n, v);
      assert vs == vs[..|vs| - 1] + [vs[|vs| - 1]];
    }
  }

  lemma MembersForgetOrder(a: seq<string>, b: seq<string>, groups: seq<seq<string>>, n: nat)
    requires multiset(a) == multiset(b)
    ensures multiset(Members(a, groups, n)) == multiset(Members(b, groups, n))
  {
    forall v ensures multiset(Members(a, groups, n))[v] == multiset(Members(b, groups, n))[v] {
      MembersCount(a, groups, n, v);
      MembersCount(b, groups, n, v);
    }
  }

  lemma OneGroupForgetsOrder(key: string, a: seq<string>, b: seq<string>, groups: seq<seq<string>>, n: nat)
    requires multiset(a) == multiset(b)
    ensures ClauseTexts(OneGroup(key, a, groups, n)) == ClauseTexts(OneGroup(key, b, groups, n))
  {
    var x, y := Members(a, groups, n), Members(b, groups, n);
    MembersForgetOrder(a, b, groups, n);
    SameLength(x, y);
    if x != [] { ClauseForgetsOrder(key, x, y); }
  }

  lemma SameLength<T>(a: seq<T>, b: seq<T>)
    requires multiset(a) == multiset(b)
    ensures |a| == |b|
  {
    assert |multiset(a)| == |a| && |multiset(b)| == |b|;
  }

  lemma ClauseForgetsOrder(key: string, a: seq<string>, b: seq<string>)
    requires multiset(a) == multiset(b)
    ensures ClauseText(GroupClause(key, a)) == ClauseText(GroupClause(key, b))
  {
    var c, d := GroupClause(key, a), GroupClause(key, b);
    GroupForgetsOrder(key, a, b);
    assert |c| == |TermTexts(c)| == |TermTexts(d)| == |d|;
    if |c| == 1 { assert TermTexts(c)[0] == TermTexts(d)[0]; }
  }

  lemma {:induction false} GatherForgetsOrder(n: nat, p: nat -> seq<Clause>, r: nat -> seq<Clause>)
    requires forall m: nat :: m < n ==> ClauseTexts(p(m)) == ClauseTexts(r(m))
    ensures ClauseTexts(Gather(n, p)) == ClauseTexts(Gather(n, r))
  {
    if n > 0 {
      GatherForgetsOrder(n - 1, p, r);
      TextsBoth(Gather(n - 1, p), p(n - 1));
      TextsBoth(Gather(n - 1, r), r(n - 1));
    }
  }

  lemma SinglesForgetOrder(key: string, a: seq<string>, b: seq<string>)
    requires multiset(a) == multiset(b)
    ensures multiset(ClauseTexts(Singles(key, a))) == multiset(ClauseTexts(Singles(key, b)))
  {
    var text := (v: string) => TermText(Term(key, v));
    assert ClauseTexts(Singles(key, a)) == Map(a, text) && ClauseTexts(Singles(key, b)) == Map(b, text);
    MapForgetsOrder(a, b, text);
  }

  lemma SpecialForgetsOrder(key: string, a: seq<string>, b: seq<string>, groups: seq<seq<string>>)
    requires multiset(a) == multiset(b)
    ensures multiset(ClauseTexts(SpecialClauses(key, a, groups))) ==
            multiset(ClauseTexts(SpecialClauses(key, b, groups)))
  {
    var p, r := ByGroup(key, a, groups), ByGroup(key, b, groups);
    forall m: nat | m < |groups| ensures ClauseTexts(p(m)) == ClauseTexts(r(m)) {
      OneGroupForgetsOrder(key, a, b, groups, m);
    }
    GatherForgetsOrder(|groups|, p, r);
    MembersForgetOrder(a, b, groups, |groups|);
    SinglesForgetOrder(key, Members(a, groups, |groups|), Members(b, groups, |groups|));
    TextsBoth(Gather(|groups|, p), Singles(key, Members(a, groups, |groups|)));
    TextsBoth(Gather(|groups|, r), Singles(key, Members(b, groups, |groups|)));
  }

  lemma SortedForgetsOrder(a: seq<Clause>, b: seq<Clause>)
    requires multiset(ClauseTexts(a)) == multiset(ClauseTexts(b))
    ensures ClauseTexts(SortBy(a, ClauseText)) == ClauseTexts(SortBy(b, ClauseText))
  {
    SortedTexts(a);
    SortedTexts(b);
    SortForgetsOrder(ClauseTexts(a), ClauseTexts(b));
  }

  lemma KeyForgetsOrder(key: string, a: seq<string>, b: seq<string>)
    requires multiset(a) == multiset(b)
    ensures ClauseTexts(KeyClauses(key, a)) == ClauseTexts(KeyClauses(key, b))
  {
    if key == "in" || key == "is" {
      var groups := if key == "in" then IN_GROUPS else IS_GROUPS;
      SpecialForgetsOrder(key, a, b, groups);
      SortedForgetsOrder(SpecialClauses(key, a, groups), SpecialClauses(key, b, groups));
    } else if key == "user" || key == "repo" {
      ClauseForgetsOrder(key, a, b);
    } else {
      SinglesForgetOrder(key, a, b);
      SortedForgetsOrder(Singles(key, a), Singles(key, b));
    }
  }

  lemma {:induction false} InOrderForgetsOrder(keys: seq<string>, q: Qualifiers, r: Qualifiers)
    requires SameValues(q, r) && AllIn(keys, q) && AllIn(keys, r)
    ensures ClauseTexts(ClausesInOrder(keys, q)) == ClauseTexts(ClausesInOrder(keys, r))
  {
    if keys != [] {
      var before, k := keys[..|keys| - 1], keys[|keys| - 1];
      InOrderForgetsOrder(before, q, r);
      KeyForgetsOrder(k, q[k], r[k]);
      TextsBoth(ClausesInOrder(before, q), KeyClauses(k, q[k]));
      TextsBoth(ClausesInOrder(before, r), KeyClauses(k, r[k]));
    }
  }

  /** The text does not depend on the order in which the values of a qualifier are given. */
  lemma TextForgetsOrder(q: Qualifiers, r: Qualifiers)
    requires SameValues(q, r)
    ensures QualifierText(q) == QualifierText(r)
  {
    forall k | k in q ensures q[k] == [] <==> r[k] == [] { SameLength(q[k], r[k]); }
    assert Used(q) == Used(r);
    UsedKeys(q);
    UsedKeys(r);
    InOrderForgetsOrder(SortedElements(Used(q)), q, r);
  }
}

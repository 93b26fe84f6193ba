/** Strings in byte order, and sorting them. */
module Sorting {
  predicate Leq(a: string, b: string) {
    a == "" || (b != "" && (a[0] < b[0] || (a[0] == b[0] && Leq(a[1..], b[1..]))))
  }

  lemma {:induction false} LeqTotal(a: string, b: string)
    ensures Leq(a, b) || Leq(b, a)
    ensures Leq(a, b) && Leq(b, a) ==> a == b
  {
    if a != "" && b != "" {
      LeqTotal(a[1..], b[1..]);
      assert a == [a[0]] + a[1..] && b == [b[0]] + b[1..];
    }
  }

  lemma {:induction false} LeqTransitive(a: string, b: string, c: string)
    requires Leq(a, b) && Leq(b, c)
    ensures Leq(a, c)
  {
    if a != "" && a[0] == b[0] == c[0] {
      LeqTransitive(a[1..], b[1..], c[1..]);
    }
  }

  predicate Sorted(s: seq<string>) {
    forall i, j :: 0 <= i < j < |s| ==> Leq(s[i], s[j])
  }

  function Insert(x: string, s: seq<string>): (r: seq<string>)
    ensures multiset(r) == multiset(s) + multiset{x}
  {
    if s == [] then [x]
    else if Leq(x, s[0]) then [x] + s
    else
      assert s == [s[0]] + s[1..];
      [s[0]] + Insert(x, s[1..])
  }

  function Sort(s: seq<string>): (r: seq<string>)
    ensures multiset(r) == multiset(s) && |r| == |s|
  {
    if s == [] then []
    else
      assert s == [s[0]] + s[1..];
      var r := Insert(s[0], Sort(s[1..]));
      assert |multiset(r)| == |multiset(s)|;
      r
  }

  lemma {:induction false} InsertSorted(x: string, s: seq<string>)
    requires Sorted(s)
    ensures Sorted(Insert(x, s))
  {
    if s == [] {
    } else if Leq(x, s[0]) {
      forall j | 0 <= j < |s|
        ensures Leq(x, s[j])
      {
        if j > 0 {
          LeqTransitive(x, s[0], s[j]);
        }
      }
    } else {
      var r := Insert(x, s[1..]);
      InsertSorted(x, s[1..]);
      LeqTotal(x, s[0]);
      forall j | 0 <= j < |r|
        ensures Leq(s[0], r[j])
      {
        assert r[j] in multiset(r);
        assert r[j] == x || r[j] in s[1..];
      }
    }
  }

  lemma {:induction false} SortSorted(s: seq<string>)
    ensures Sorted(Sort(s))
  {
    if s != [] {
      SortSorted(s[1..]);
      InsertSorted(s[0], Sort(s[1..]));
    }
  }

  /** A multiset of strings has one sorted list only. */
  lemma {:induction false} SortedUnique(a: seq<string>, b: seq<string>)
    requires Sorted(a) && Sorted(b) && multiset(a) == multiset(b)
    ensures a == b
  {
    assert |multiset(a)| == |a| && |multiset(b)| == |b|;
    if a == [] {
    } else {
      assert a[0] in multiset(b) && b[0] in multiset(a);
      FirstLeast(a, b[0]);
      FirstLeast(b, a[0]);
      LeqTotal(a[0], b[0]);
      TailMultiset(a);
      TailMultiset(b);
      SortedUnique(a[1..], b[1..]);
      assert a == [a[0]] + a[1..] && b == [b[0]] + b[1..];
    }
  }

  lemma TailMultiset(s: seq<string>)
    requires s != []
    ensures multiset(s[1..]) == multiset(s) - multiset{s[0]}
  {
    assert s == [s[0]] + s[1..];
  }

  lemma FirstLeast(s: seq<string>, x: string)
    requires Sorted(s) && x in s
    ensures Leq(s[0], x)
  {
    LeqTotal(x, x);
  }

  /** So the result of sorting does not depend on the order of the input. */
  lemma SortForgetsOrder(a: seq<string>, b: seq<string>)
    requires multiset(a) == multiset(b)
    ensures Sort(a) == Sort(b)
  {
    SortSorted(a);
    SortSorted(b);
    SortedUnique(Sort(a), Sort(b));
  }

  /** The elements of a set, sorted. By `SortedUnique` the order in which they are taken out makes no difference. */
  ghost function SortedElements(s: set<string>): (r: seq<string>)
    ensures Sorted(r) && multiset(r) == multiset(s)
  {
    if s == {} then []
    else
      var x :| x in s;
      var rest := SortedElements(s - {x});
      InsertSorted(x, rest);
      assert s == (s - {x}) + {x};
      Insert(x, rest)
  }

  method SortElements(s: set<string>) returns (r: seq<string>)
    ensures r == SortedElements(s)
  {
    r := [];
    var left := s;
    while left != {}
      invariant left <= s && multiset(r) + multiset(left) == multiset(s)
      decreases |left|
    {
      var x :| x in left;
      r := r + [x];
      left := left - {x};
    }
    SortSorted(r);
    r := Sort(r);
    SortedUnique(r, SortedElements(s));
  }

  // ---------------------------------------------------------------- sorting by a text

  function Map<T>(s: seq<T>, text: T -> string): (r: seq<string>)
    ensures |r| == |s| && forall i :: 0 <= i < |s| ==> r[i] == text(s[i])
  {
    seq(|s|, i requires 0 <= i < |s| => text(s[i]))
  }

  function InsertBy<T>(x: T, s: seq<T>, text: T -> string): (r: seq<T>)
    ensures multiset(r) == multiset(s) + multiset{x}
  {
    if s == [] then [x]
    else if Leq(text(x), text(s[0])) then [x] + s
    else
      assert s == [s[0]] + s[1..];
      [s[0]] + InsertBy(x, s[1..], text)
  }

  function SortBy<T>(s: seq<T>, text: T -> string): (r: seq<T>)
    ensures multiset(r) == multiset(s) && |r| == |s|
  {
    if s == [] then []
    else
      assert s == [s[0]] + s[1..];
      var r := InsertBy(s[0], SortBy(s[1..], text), text);
      assert |multiset(r)| == |multiset(s)|;
      r
  }

  lemma MapFront<T>(x: T, s: seq<T>, text: T -> string)
    ensures Map([x] + s, text) == [text(x)] + Map(s, text)
  {
  }

  lemma MapTail<T>(s: seq<T>, text: T -> string)
    requires s != []
    ensures Map(s, text)[1..] == Map(s[1..], text) && Map(s, text)[0] == text(s[0])
  {
  }

  lemma InsertByText<T>(x: T, s: seq<T>, text: T -> string)
    ensures Map(InsertBy(x, s, text), text) == Insert(text(x), Map(s, text))
  {
    if s == [] {
    } else if Leq(text(x), text(s[0])) {
      MapFront(x, s, text);
    } else {
      InsertByText(x, s[1..], text);
      MapTail(s, text);
      MapFront(s[0], InsertBy(x, s[1..], text), text);
    }
  }

  /** Sorting the things by their texts sorts the texts. */
  lemma SortByText<T>(s: seq<T>, text: T -> string)
    ensures Map(SortBy(s, text), text) == Sort(Map(s, text))
  {
    if s == [] {
    } else {
      SortByText(s[1..], text);
      InsertByText(s[0], SortBy(s[1..], text), text);
      MapTail(s, text);
    }
  }
}

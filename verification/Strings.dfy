/** Splitting and joining strings, shared by the path and query models. */
module Strings {
  lemma Associate<T>(a: seq<T>, b: seq<T>, c: seq<T>)
    ensures a + b + c == a + (b + c)
  {
  }

  function Join(parts: seq<string>, separator: string): string {
    if parts == [] then ""
    else if |parts| == 1 then parts[0]
    else parts[0] + separator + Join(parts[1..], separator)
  }

  lemma {:induction false} JoinSnoc(parts: seq<string>, separator: string, last: string)
    requires parts != []
    ensures Join(parts + [last], separator) == Join(parts, separator) + separator + last
  {
    var all := parts + [last];
    assert all[1..] == parts[1..] + [last];
    if |parts| > 1 {
      JoinSnoc(parts[1..], separator, last);
      assert parts[0] + separator + (Join(parts[1..], separator) + separator + last) ==
             parts[0] + separator + Join(parts[1..], separator) + separator + last;
    }
  }

  /** The pieces of `s` between the separators; there is always at least one. */
  function Split(s: string, c: char): (parts: seq<string>)
    ensures parts != []
    ensures forall i :: 0 <= i < |parts| ==> c !in parts[i]
  {
    if s == [] then [""]
    else
      var rest := Split(s[1..], c);
      if s[0] == c then [""] + rest else [[s[0]] + rest[0]] + rest[1..]
  }

  lemma {:induction false} SplitWhole(s: string, c: char)
    requires c !in s
    ensures Split(s, c) == [s]
  {
    if s == [] {
    } else {
      SplitWhole(s[1..], c);
      assert [s[0]] + s[1..] == s;
    }
  }

  lemma {:induction false} SplitAfter(s: string, c: char, rest: string)
    requires c !in s
    ensures Split(s + [c] + rest, c) == [s] + Split(rest, c)
  {
    if s == [] {
      assert s + [c] + rest == [c] + rest && ([c] + rest)[1..] == rest;
    } else {
      SplitAfter(s[1..], c, rest);
      assert (s + [c] + rest)[1..] == s[1..] + [c] + rest;
      assert [s[0]] + s[1..] == s;
    }
  }

  /** Joining and then splitting gives the parts back, so long as none contains the separator. */
  lemma {:induction false} SplitJoin(parts: seq<string>, c: char)
    requires parts != [] && forall i :: 0 <= i < |parts| ==> c !in parts[i]
    ensures Split(Join(parts, [c]), c) == parts
  {
    if |parts| == 1 {
      SplitWhole(parts[0], c);
    } else {
      var rest := Join(parts[1..], [c]);
      SplitJoin(parts[1..], c);
      SplitAfter(parts[0], c, rest);
      assert Split(rest, c) == parts[1..];
      assert [parts[0]] + parts[1..] == parts;
    }
  }

  /** And splitting and then joining gives the string back. */
  lemma {:induction false} JoinSplit(s: string, c: char)
    ensures Join(Split(s, c), [c]) == s
  {
    if s == [] {
    } else {
      JoinSplit(s[1..], c);
      var rest := Split(s[1..], c);
      if s[0] == c {
        assert ([""] + rest)[1..] == rest;
        assert "" + [c] + s[1..] == s;
      } else {
        var all := [[s[0]] + rest[0]] + rest[1..];
        assert all[1..] == rest[1..];
        if |rest| > 1 {
          assert [s[0]] + rest[0] + [c] + Join(rest[1..], [c]) == [s[0]] + (rest[0] + [c] + Join(rest[1..], [c]));
        }
        assert [s[0]] + s[1..] == s;
      }
    }
  }
}

/** The lexical half of the rooted file system: which names clean to a path that stays below the root. */
module RootedPaths {
  import opened Strings

  predicate Real(part: string) {
    part != "" && part != "."
  }

  /** One step of path cleaning over the parts kept so far. */
  function CleanStep(kept: seq<string>, part: string, rooted: bool): seq<string> {
    if !Real(part) then kept
    else if part != ".." then kept + [part]
    else if kept != [] && kept[|kept| - 1] != ".." then kept[..|kept| - 1]
    else if rooted then kept
    else kept + [part]
  }

  function CleanParts(kept: seq<string>, parts: seq<string>, rooted: bool): seq<string>
    decreases |parts|
  {
    if parts == [] then kept else CleanParts(CleanStep(kept, parts[0], rooted), parts[1..], rooted)
  }

  function Clean(name: string): string {
    var rooted := name != "" && name[0] == '/';
    var kept := CleanParts([], Split(name, '/'), rooted);
    if rooted then "/" + Join(kept, "/")
    else if kept == [] then "."
    else Join(kept, "/")
  }

  /** A cleaned path stays below the directory it is taken from. */
  predicate IsLocal(path: string) {
    path != "" && path[0] != '/' && Split(path, '/')[0] != ".."
  }

  /** The components to descend through; a cleaned path other than "." has no others. */
  function Components(parts: seq<string>): (r: seq<string>)
    ensures forall i :: 0 <= i < |r| ==> Real(r[i])
    ensures (forall i :: 0 <= i < |parts| ==> Real(parts[i])) ==> r == parts
  {
    if parts == [] then []
    else
      var last := parts[|parts| - 1];
      Components(parts[..|parts| - 1]) + if Real(last) then [last] else []
  }

  lemma ComponentsSnoc(parts: seq<string>, i: nat)
    requires i < |parts|
    ensures Components(parts[..i + 1]) ==
            if Real(parts[i]) then Components(parts[..i]) + [parts[i]] else Components(parts[..i])
  {
    assert parts[..i + 1][..i] == parts[..i];
  }

  predicate Kept(kept: seq<string>) {
    && (forall i :: 0 <= i < |kept| ==> Real(kept[i]) && '/' !in kept[i])
    && (forall i :: 0 < i < |kept| && kept[i] == ".." ==> kept[i - 1] == "..")
  }

  lemma {:induction false} CleanKeeps(kept: seq<string>, parts: seq<string>, rooted: bool)
    requires Kept(kept) && forall i :: 0 <= i < |parts| ==> '/' !in parts[i]
    ensures Kept(CleanParts(kept, parts, rooted))
    decreases |parts|
  {
    if parts == [] {
    } else {
      CleanKeeps(CleanStep(kept, parts[0], rooted), parts[1..], rooted);
    }
  }

  lemma {:induction false} DotsFirst(kept: seq<string>, i: nat)
    requires Kept(kept) && i < |kept| && kept[i] == ".."
    ensures kept[0] == ".."
  {
    if i > 0 {
      DotsFirst(kept, i - 1);
    }
  }

  /** The cleaned path is the root itself, or a list of real names none of which goes up. */
  predicate Descends(path: string) {
    path == "." ||
    forall i :: 0 <= i < |Split(path, '/')| ==> Real(Split(path, '/')[i]) && Split(path, '/')[i] != ".."
  }

  /** Whatever the name, once it has passed the lexical check it descends. */
  lemma LocalDescends(name: string)
    requires IsLocal(Clean(name))
    ensures Descends(Clean(name))
  {
    var rooted := name != "" && name[0] == '/';
    var kept := CleanParts([], Split(name, '/'), rooted);
    CleanKeeps([], Split(name, '/'), rooted);
    if !rooted && kept != [] {
      SplitJoin(kept, '/');
      forall i | 0 <= i < |kept| && kept[i] == ".."
        ensures false
      {
        DotsFirst(kept, i);
      }
    }
  }

  /** A path that is already clean is left alone, so that checking it twice changes nothing. */
  lemma CleanIdempotent(name: string)
    requires IsLocal(Clean(name))
    ensures Clean(Clean(name)) == Clean(name)
  {
    LocalDescends(name);
    var path := Clean(name);
    if path != "." {
      var parts := Split(path, '/');
      NamesStay([], parts, false);
      assert [] + parts == parts;
      JoinSplit(path, '/');
    } else {
      assert Split(".", '/') == ["."] by {
        SplitWhole(".", '/');
      }
      assert CleanParts([], ["."], false) == [];
    }
  }

  // ---------------------------------------------------------------- exactly which names are accepted, and as what

  /** Going through the parts from `depth` levels below the root never leads above it. */
  predicate StaysBelow(parts: seq<string>, depth: nat)
    decreases |parts|
  {
    if parts == [] then true
    else if parts[0] == "" || parts[0] == "." then StaysBelow(parts[1..], depth)
    else if parts[0] == ".." then depth > 0 && StaysBelow(parts[1..], depth - 1)
    else StaysBelow(parts[1..], depth + 1)
  }

  lemma {:induction false} DotsStay(kept: seq<string>, parts: seq<string>)
    requires kept != [] && kept[0] == ".."
    ensures CleanParts(kept, parts, false) != [] && CleanParts(kept, parts, false)[0] == ".."
    decreases |parts|
  {
    if parts != [] { DotsStay(CleanStep(kept, parts[0], false), parts[1..]); }
  }

  predicate Names(kept: seq<string>) {
    forall i :: 0 <= i < |kept| ==> Real(kept[i]) && kept[i] != ".."
  }

  lemma {:induction false} GoesUpIff(kept: seq<string>, parts: seq<string>)
    requires Names(kept)
    ensures var end := CleanParts(kept, parts, false); (end != [] && end[0] == "..") <==> !StaysBelow(parts, |kept|)
    decreases |parts|
  {
    if parts != [] {
      if parts[0] == ".." && kept == [] {
        DotsStay([".."], parts[1..]);
        assert CleanStep(kept, parts[0], false) == [".."];
      } else {
        GoesUpIff(CleanStep(kept, parts[0], false), parts[1..]);
      }
    }
  }

  /** A name is accepted if and only if it is relative and no part of it leads above the root. */
  lemma LocalIff(name: string)
    ensures IsLocal(Clean(name)) <==> (name == "" || name[0] != '/') && StaysBelow(Split(name, '/'), 0)
  {
    var rooted := name != "" && name[0] == '/';
    var kept := CleanParts([], Split(name, '/'), rooted);
    CleanKeeps([], Split(name, '/'), rooted);
    if !rooted {
      GoesUpIff([], Split(name, '/'));
      if kept == [] {
        SplitWhole(".", '/');
      } else {
        SplitJoin(kept, '/');
        JoinStarts(kept);
      }
    }
  }

  lemma JoinStarts(kept: seq<string>)
    requires kept != [] && Real(kept[0]) && '/' !in kept[0]
    ensures Join(kept, "/") != "" && Join(kept, "/")[0] != '/'
  {
    assert Join(kept, "/")[0] == kept[0][0];
  }

  lemma {:induction false} CleanConcat(kept: seq<string>, a: seq<string>, b: seq<string>, rooted: bool)
    ensures CleanParts(kept, a + b, rooted) == CleanParts(CleanParts(kept, a, rooted), b, rooted)
    decreases |a|
  {
    if a == [] {
      assert a + b == b;
    } else {
      assert (a + b)[1..] == a[1..] + b;
      CleanConcat(CleanStep(kept, a[0], rooted), a[1..], b, rooted);
    }
  }

  /** Cleaning leaves real names alone, drops what names no step, and drops a name together with the step up that
      follows it, wherever they stand. */
  lemma CleanMeaning(a: seq<string>, x: string, b: seq<string>, rooted: bool)
    ensures Names(a) ==> CleanParts([], a, rooted) == a
    ensures x == "" || x == "." ==> CleanParts([], a + [x] + b, rooted) == CleanParts([], a + b, rooted)
    ensures Real(x) && x != ".." ==> CleanParts([], a + [x, ".."] + b, rooted) == CleanParts([], a + b, rooted)
  {
    var kept := CleanParts([], a, rooted);
    CleanConcat([], a, b, rooted);
    Associate(a, [x], b);
    CleanConcat([], a, [x] + b, rooted);
    assert ([x] + b)[1..] == b;
    Associate(a, [x, ".."], b);
    CleanConcat([], a, [x, ".."] + b, rooted);
    if Real(x) && x != ".." { TwoSteps(kept, x, b, rooted); }
    if Names(a) {
      NamesStay([], a, rooted);
      assert [] + a == a;
    }
  }

  lemma TwoSteps(kept: seq<string>, x: string, b: seq<string>, rooted: bool)
    requires Real(x) && x != ".."
    ensures CleanParts(kept, [x, ".."] + b, rooted) == CleanParts(kept, b, rooted)
  {
    var parts := [x, ".."] + b;
    assert parts[1..] == [".."] + b && parts[1..][1..] == b;
    assert (kept + [x])[..|kept|] == kept;
  }

  lemma {:induction false} NamesStay(kept: seq<string>, parts: seq<string>, rooted: bool)
    requires Names(parts)
    ensures CleanParts(kept, parts, rooted) == kept + parts
    decreases |parts|
  {
    if parts == [] {
    } else {
      NamesStay(kept + [parts[0]], parts[1..], rooted);
      assert kept + [parts[0]] + parts[1..] == kept + parts;
    }
  }
}

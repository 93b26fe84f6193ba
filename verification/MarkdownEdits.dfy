/** Planned replacements of byte ranges, sorted, filtered for overlap and applied back to front. */
module MarkdownEdits {
  import opened Strings
  import opened MarkdownScan

  /** `ref` records which reference planned the edit; only the proofs read it. */
  datatype Edit = Edit(arg: nat, at: ByteRange, text: string, ref: nat)

  // ---------------------------------------------------------------- sorting

  /** By start, and the wider of two edits with the same start first. */
  predicate Before(a: Edit, b: Edit) {
    a.at.start < b.at.start || (a.at.start == b.at.start && a.at.stop > b.at.stop)
  }

  function Insert(e: Edit, es: seq<Edit>): seq<Edit> {
    if es == [] || !Before(es[0], e) then [e] + es else [es[0]] + Insert(e, es[1..])
  }

  /** A stable sort: an edit goes in front of the later ones that are not strictly before it. */
  function Sort(es: seq<Edit>): seq<Edit> {
    if es == [] then [] else Insert(es[0], Sort(es[1..]))
  }

  ghost predicate Sorted(es: seq<Edit>) {
    forall i, j :: 0 <= i < j < |es| ==> !Before(es[j], es[i])
  }

  lemma {:induction false} InsertElements(e: Edit, es: seq<Edit>)
    ensures multiset(Insert(e, es)) == multiset{e} + multiset(es)
    ensures forall f :: f in Insert(e, es) <==> f == e || f in es
  {
    if es != [] && Before(es[0], e) {
      InsertElements(e, es[1..]);
      assert es == [es[0]] + es[1..];
    }
  }

  lemma {:induction false} InsertSorts(e: Edit, es: seq<Edit>)
    requires Sorted(es)
    ensures Sorted(Insert(e, es)) && multiset(Insert(e, es)) == multiset{e} + multiset(es)
  {
    InsertElements(e, es);
    if es != [] && Before(es[0], e) {
      var rest := Insert(e, es[1..]);
      InsertSorts(e, es[1..]);
      InsertElements(e, es[1..]);
      forall j | 0 <= j < |rest| ensures !Before(rest[j], es[0]) {
        assert rest[j] in rest;
      }
      SortedBehind(es[0], rest);
    } else {
      assert forall j :: 0 <= j < |es| ==> !Before(es[j], e) by { InsertedFirst(e, es); }
      SortedBehind(e, es);
    }
  }

  lemma InsertedFirst(e: Edit, es: seq<Edit>)
    requires Sorted(es) && (es != [] ==> !Before(es[0], e))
    ensures forall j :: 0 <= j < |es| ==> !Before(es[j], e)
  {
    forall j | 0 <= j < |es| ensures !Before(es[j], e) {
      assert j > 0 ==> !Before(es[j], es[0]);
    }
  }

  lemma SortedBehind(first: Edit, rest: seq<Edit>)
    requires Sorted(rest) && forall j :: 0 <= j < |rest| ==> !Before(rest[j], first)
    ensures Sorted([first] + rest)
  {
  }

  lemma {:induction false} SortSorts(es: seq<Edit>)
    ensures Sorted(Sort(es)) && multiset(Sort(es)) == multiset(es)
  {
    if es != [] {
      SortSorts(es[1..]);
      InsertSorts(es[0], Sort(es[1..]));
      assert es == [es[0]] + es[1..];
    }
  }

  /** The relation holds between the edits at any two positions. */
  ghost predicate Pairwise(r: (Edit, Edit) -> bool, es: seq<Edit>) {
    forall p, q :: 0 <= p < |es| && 0 <= q < |es| && p != q ==> r(es[p], es[q])
  }

  lemma {:induction false} InsertPairwise(r: (Edit, Edit) -> bool, e: Edit, es: seq<Edit>)
    requires Pairwise(r, es) && forall f :: f in es ==> r(e, f) && r(f, e)
    ensures Pairwise(r, Insert(e, es)) && forall f :: f in Insert(e, es) <==> f == e || f in es
  {
    if es != [] && Before(es[0], e) {
      InsertPairwise(r, e, es[1..]);
      var rest := Insert(e, es[1..]);
      assert es == [es[0]] + es[1..];
      forall f | f in rest ensures r(es[0], f) && r(f, es[0]) {
        if f != e {
          var m :| 0 <= m < |es[1..]| && es[1..][m] == f;
          assert r(es[0], es[m + 1]) && r(es[m + 1], es[0]);
        }
      }
    }
  }

  /** Sorting keeps whatever holds between any two edits. */
  lemma {:induction false} SortPairwise(r: (Edit, Edit) -> bool, es: seq<Edit>)
    requires Pairwise(r, es)
    ensures Pairwise(r, Sort(es)) && forall f :: f in Sort(es) <==> f in es
  {
    if es != [] {
      SortPairwise(r, es[1..]);
      forall f | f in Sort(es[1..]) ensures r(es[0], f) && r(f, es[0]) {
        var m :| 0 <= m < |es[1..]| && es[1..][m] == f;
        assert r(es[0], es[m + 1]) && r(es[m + 1], es[0]);
      }
      InsertPairwise(r, es[0], Sort(es[1..]));
      assert es == [es[0]] + es[1..];
    }
  }

  function Flatten(parts: seq<seq<Edit>>): seq<Edit> {
    if parts == [] then [] else Flatten(parts[..|parts| - 1]) + parts[|parts| - 1]
  }

  ghost predicate Tagged(parts: seq<seq<Edit>>) {
    forall i, e :: 0 <= i < |parts| && e in parts[i] ==> e.ref == i
  }

  lemma {:induction false} FlattenMembers(parts: seq<seq<Edit>>, e: Edit)
    requires Tagged(parts)
    ensures e in Flatten(parts) <==> e.ref < |parts| && e in parts[e.ref]
  {
    if parts != [] {
      var front := parts[..|parts| - 1];
      FlattenMembers(front, e);
      assert e in Flatten(parts) <==> e in Flatten(front) || e in parts[|front|];
    }
  }

  lemma {:induction false} FlattenPairwise(r: (Edit, Edit) -> bool, parts: seq<seq<Edit>>)
    requires Tagged(parts) && forall i :: 0 <= i < |parts| ==> Pairwise(r, parts[i])
    requires forall i, j, e, f :: 0 <= i < |parts| && 0 <= j < |parts| && i != j && e in parts[i] && f in parts[j] ==>
               r(e, f)
    ensures Pairwise(r, Flatten(parts))
  {
    if parts != [] {
      var front, last := parts[..|parts| - 1], parts[|parts| - 1];
      assert forall i :: 0 <= i < |front| ==> front[i] == parts[i];
      FlattenPairwise(r, front);
      var es := Flatten(front);
      forall e | e in es ensures e.ref < |front| && e in parts[e.ref] { FlattenMembers(front, e); }
      forall p, q | 0 <= p < |es + last| && 0 <= q < |es + last| && p != q ensures r((es + last)[p], (es + last)[q]) {
        if p < |es| && q < |es| {
          assert r(es[p], es[q]);
        } else if p >= |es| && q >= |es| {
          assert r(last[p - |es|], last[q - |es|]);
        } else if p < |es| {
          assert es[p] in es && last[q - |es|] in last;
        } else {
          assert es[q] in es && last[p - |es|] in last;
        }
      }
    }
  }

  /** The edits that compete for one range, in the order in which they were planned. */
  function AtRange(es: seq<Edit>, r: ByteRange): seq<Edit> {
    if es == [] then [] else (if es[0].at == r then [es[0]] else []) + AtRange(es[1..], r)
  }

  lemma {:induction false} InsertStable(e: Edit, es: seq<Edit>, r: ByteRange)
    ensures AtRange(Insert(e, es), r) == (if e.at == r then [e] else []) + AtRange(es, r)
  {
    if es != [] && Before(es[0], e) {
      InsertStable(e, es[1..], r);
    }
  }

  /** Edits of the same range keep the order in which they were planned. */
  lemma {:induction false} SortStable(es: seq<Edit>, r: ByteRange)
    ensures AtRange(Sort(es), r) == AtRange(es, r)
  {
    if es != [] {
      SortStable(es[1..], r);
      InsertStable(es[0], Sort(es[1..]), r);
    }
  }

  // ---------------------------------------------------------------- filtering

  predicate InRange(e: Edit, size: nat) {
    0 <= e.at.start <= e.at.stop <= size
  }

  /** The edit at `k` survives: it starts where or after the last survivor ends. */
  predicate Kept(es: seq<Edit>, size: nat, k: nat)
    requires k < |es|
    decreases k, 1
  {
    End(es, size, k) <= es[k].at.start <= es[k].at.stop <= size
  }

  function End(es: seq<Edit>, size: nat, k: nat): int
    requires k <= |es|
    decreases k, 0
  {
    if k == 0 then 0 else if Kept(es, size, k - 1) then es[k - 1].at.stop else End(es, size, k - 1)
  }

  function Survivors(es: seq<Edit>, size: nat, k: nat): seq<Edit>
    requires k <= |es|
  {
    if k == 0 then []
    else Survivors(es, size, k - 1) + if Kept(es, size, k - 1) then [es[k - 1]] else []
  }

  lemma {:induction false} EndBounds(es: seq<Edit>, size: nat, j: nat, k: nat)
    requires j <= k <= |es|
    ensures 0 <= End(es, size, j) <= End(es, size, k)
    ensures j < k && Kept(es, size, j) ==> es[j].at.stop <= End(es, size, k)
    decreases k
  {
    if j < k {
      EndBounds(es, size, j, k - 1);
    } else if k > 0 {
      EndBounds(es, size, 0, k - 1);
    }
  }

  lemma {:induction false} EndAttained(es: seq<Edit>, size: nat, k: nat)
    requires k <= |es|
    ensures End(es, size, k) == 0 || exists j :: 0 <= j < k && Kept(es, size, j) && es[j].at.stop == End(es, size, k)
  {
    if k > 0 && !Kept(es, size, k - 1) {
      EndAttained(es, size, k - 1);
    }
  }

  /** An edit is dropped only if it lies outside the text or overlaps a kept edit that sorts before it. */
  lemma KeptIff(es: seq<Edit>, size: nat, k: nat)
    requires k < |es|
    ensures Kept(es, size, k) <==>
            InRange(es[k], size) && forall j :: 0 <= j < k && Kept(es, size, j) ==> es[j].at.stop <= es[k].at.start
  {
    EndBounds(es, size, 0, k);
    EndAttained(es, size, k);
    forall j | 0 <= j < k && Kept(es, size, j) ensures es[j].at.stop <= End(es, size, k) {
      EndBounds(es, size, j, k);
    }
  }

  // ---------------------------------------------------------------- substitution

  /** Disjoint ranges inside `[from, size]`, in order. */
  ghost predicate Disjoint(kept: seq<Edit>, from: int, size: nat) {
    (forall i :: 0 <= i < |kept| ==> from <= kept[i].at.start <= kept[i].at.stop <= size) &&
    (forall i, j :: 0 <= i < j < |kept| ==> kept[i].at.stop <= kept[j].at.start)
  }

  lemma {:induction false} SurvivorsDisjoint(es: seq<Edit>, size: nat, k: nat)
    requires k <= |es|
    ensures Disjoint(Survivors(es, size, k), 0, size)
    ensures forall i :: 0 <= i < |Survivors(es, size, k)| ==> Survivors(es, size, k)[i].at.stop <= End(es, size, k)
  {
    if k > 0 {
      SurvivorsDisjoint(es, size, k - 1);
      EndBounds(es, size, 0, k - 1);
      EndBounds(es, size, k - 1, k);
      if Kept(es, size, k - 1) { DisjointSnoc(Survivors(es, size, k - 1), es[k - 1], End(es, size, k - 1), size); }
    }
  }

  lemma DisjointSnoc(kept: seq<Edit>, e: Edit, end: int, size: nat)
    requires Disjoint(kept, 0, size) && 0 <= end <= e.at.start <= e.at.stop <= size
    requires forall i :: 0 <= i < |kept| ==> kept[i].at.stop <= end
    ensures Disjoint(kept + [e], 0, size)
    ensures forall i :: 0 <= i < |kept| + 1 ==> (kept + [e])[i].at.stop <= e.at.stop
  {
  }

  lemma {:induction false} KeptSurvives(es: seq<Edit>, size: nat, k: nat, j: nat)
    requires j < k <= |es| && Kept(es, size, j)
    ensures es[j] in Survivors(es, size, k)
    decreases k
  {
    if j < k - 1 { KeptSurvives(es, size, k - 1, j); }
  }

  lemma {:induction false} SurvivorWasKept(es: seq<Edit>, size: nat, k: nat, e: Edit) returns (j: nat)
    requires k <= |es| && e in Survivors(es, size, k)
    ensures j < k && Kept(es, size, j) && es[j] == e
    decreases k
  {
    if e in Survivors(es, size, k - 1) {
      j := SurvivorWasKept(es, size, k - 1, e);
    } else {
      j := k - 1;
    }
  }

  /** All replacements at once: the text from `from` on with each range exchanged for its text. */
  function Substitute(md: string, kept: seq<Edit>, from: int): string
    requires 0 <= from <= |md| && Disjoint(kept, from, |md|)
    decreases |kept|
  {
    if kept == [] then md[from..]
    else md[from..kept[0].at.start] + kept[0].text + Substitute(md, kept[1..], kept[0].at.stop)
  }

  lemma DisjointTail(kept: seq<Edit>, from: int, size: nat)
    requires Disjoint(kept, from, size) && kept != []
    ensures Disjoint(kept[1..], kept[0].at.stop, size)
  {
  }

  /** By how much the replacements of `kept[..n]` move what follows them. */
  function Shift(kept: seq<Edit>, n: nat): int
    requires n <= |kept|
  {
    if n == 0 then 0 else Shift(kept, n - 1) + |kept[n - 1].text| - (kept[n - 1].at.stop - kept[n - 1].at.start)
  }

  lemma {:induction false} ShiftTail(kept: seq<Edit>, n: nat)
    requires 0 < n <= |kept|
    ensures Shift(kept, n) == |kept[0].text| - (kept[0].at.stop - kept[0].at.start) + Shift(kept[1..], n - 1)
  {
    if n > 1 {
      ShiftTail(kept, n - 1);
    }
  }

  /** The length changes by exactly what the replacements add and remove. */
  lemma {:induction false} SubstituteLength(md: string, kept: seq<Edit>, from: int)
    requires 0 <= from <= |md| && Disjoint(kept, from, |md|)
    ensures |Substitute(md, kept, from)| == |md| - from + Shift(kept, |kept|)
    decreases |kept|
  {
    if kept != [] {
      SubstituteLength(md, kept[1..], kept[0].at.stop);
      ShiftTail(kept, |kept|);
    }
  }

  /** `n` counts the kept edits before position `p`, which none of them covers. */
  ghost predicate Outside(kept: seq<Edit>, p: int, n: nat) {
    n <= |kept| && (forall i :: 0 <= i < n ==> kept[i].at.stop <= p) &&
    (forall i :: n <= i < |kept| ==> p < kept[i].at.start)
  }

  lemma OutsideTail(kept: seq<Edit>, from: int, size: nat, p: int, n: nat)
    requires 0 < n && 0 <= from && Outside(kept, p, n) && Disjoint(kept, from, size)
    ensures Outside(kept[1..], p, n - 1) && 0 <= kept[0].at.stop <= p && Disjoint(kept[1..], kept[0].at.stop, size)
  {
    DisjointTail(kept, from, size);
  }

  /** Every byte outside the kept ranges survives, moved by the edits before it and by nothing else. */
  lemma {:induction false} BytesSurvive(md: string, kept: seq<Edit>, from: int, p: int, n: nat)
    requires 0 <= from <= p < |md| && Disjoint(kept, from, |md|) && Outside(kept, p, n)
    ensures 0 <= p - from + Shift(kept, n) < |Substitute(md, kept, from)|
    ensures Substitute(md, kept, from)[p - from + Shift(kept, n)] == md[p]
    decreases |kept|
  {
    if kept != [] {
      if n == 0 {
        BeforeFirst(md, kept, from, p);
      } else {
        OutsideTail(kept, from, |md|, p, n);
        BytesSurvive(md, kept[1..], kept[0].at.stop, p, n - 1);
        BehindFirst(md, kept, from, p, n);
      }
    }
  }

  lemma BeforeFirst(md: string, kept: seq<Edit>, from: int, p: int)
    requires 0 <= from <= p < |md| && Disjoint(kept, from, |md|) && kept != [] && Outside(kept, p, 0)
    ensures 0 <= p - from + Shift(kept, 0) < |Substitute(md, kept, from)|
    ensures Substitute(md, kept, from)[p - from + Shift(kept, 0)] == md[p]
  {
    DisjointTail(kept, from, |md|);
    ByteInFront(md[from..kept[0].at.start], kept[0].text, Substitute(md, kept[1..], kept[0].at.stop), p - from);
  }

  lemma BehindFirst(md: string, kept: seq<Edit>, from: int, p: int, n: nat)
    requires 0 <= from <= p < |md| && Disjoint(kept, from, |md|) && 0 < n <= |kept|
    requires Disjoint(kept[1..], kept[0].at.stop, |md|)
    requires 0 <= p - kept[0].at.stop + Shift(kept[1..], n - 1) < |Substitute(md, kept[1..], kept[0].at.stop)|
    requires Substitute(md, kept[1..], kept[0].at.stop)[p - kept[0].at.stop + Shift(kept[1..], n - 1)] == md[p]
    ensures 0 <= p - from + Shift(kept, n) < |Substitute(md, kept, from)|
    ensures Substitute(md, kept, from)[p - from + Shift(kept, n)] == md[p]
  {
    ShiftTail(kept, n);
    ByteInRest(md[from..kept[0].at.start], kept[0].text, Substitute(md, kept[1..], kept[0].at.stop),
               p - kept[0].at.stop + Shift(kept[1..], n - 1));
  }

  lemma ByteInFront(lead: string, text: string, rest: string, q: int)
    requires 0 <= q < |lead|
    ensures (lead + text + rest)[q] == lead[q]
  {
  }

  lemma ByteInRest(lead: string, text: string, rest: string, q: int)
    requires 0 <= q < |rest|
    ensures (lead + text + rest)[|lead| + |text| + q] == rest[q]
  {
  }

  predicate HasAt(s: string, p: int, t: string) {
    0 <= p && p + |t| <= |s| && s[p..p + |t|] == t
  }

  lemma HasBehind(lead: string, rest: string, p: int, t: string)
    requires HasAt(rest, p, t)
    ensures HasAt(lead + rest, |lead| + p, t)
  {
    assert (lead + rest)[|lead| + p..|lead| + p + |t|] == rest[p..p + |t|];
  }

  /** The result up to the text of edit `n`. */
  function Front(md: string, kept: seq<Edit>, from: int, n: nat): string
    requires 0 <= from <= |md| && Disjoint(kept, from, |md|) && n < |kept|
    decreases n
  {
    var lead := md[from..kept[0].at.start];
    if n == 0 then lead else lead + kept[0].text + Front(md, kept[1..], kept[0].at.stop, n - 1)
  }

  lemma {:induction false} FrontLength(md: string, kept: seq<Edit>, from: int, n: nat)
    requires 0 <= from <= |md| && Disjoint(kept, from, |md|) && n < |kept|
    ensures |Front(md, kept, from, n)| == kept[n].at.start - from + Shift(kept, n)
    decreases n
  {
    if n > 0 {
      FrontLength(md, kept[1..], kept[0].at.stop, n - 1);
      ShiftTail(kept, n);
    }
  }

  lemma {:induction false} FrontSplit(md: string, kept: seq<Edit>, from: int, n: nat)
    requires 0 <= from <= |md| && Disjoint(kept, from, |md|) && n < |kept|
    ensures Disjoint(kept[n + 1..], kept[n].at.stop, |md|)
    ensures Substitute(md, kept, from) ==
            Front(md, kept, from, n) + (kept[n].text + Substitute(md, kept[n + 1..], kept[n].at.stop))
    decreases n
  {
    DisjointTail(kept, from, |md|);
    if n == 0 {
      Associate(md[from..kept[0].at.start], kept[0].text, Substitute(md, kept[1..], kept[0].at.stop));
    } else {
      assert kept[1..][n - 1] == kept[n] && kept[1..][n..] == kept[n + 1..];
      FrontSplit(md, kept[1..], kept[0].at.stop, n - 1);
      FrontStep(md, kept, from, n, kept[n].text + Substitute(md, kept[n + 1..], kept[n].at.stop));
    }
  }

  lemma FrontStep(md: string, kept: seq<Edit>, from: int, n: nat, rest: string)
    requires 0 <= from <= |md| && Disjoint(kept, from, |md|) && 0 < n < |kept|
    requires Disjoint(kept[1..], kept[0].at.stop, |md|)
    requires Substitute(md, kept[1..], kept[0].at.stop) == Front(md, kept[1..], kept[0].at.stop, n - 1) + rest
    ensures Substitute(md, kept, from) == Front(md, kept, from, n) + rest
  {
    Associate(md[from..kept[0].at.start] + kept[0].text, Front(md, kept[1..], kept[0].at.stop, n - 1), rest);
  }

  /** Every kept text stands where its range was, moved by the edits before it. */
  lemma TextsAppear(md: string, kept: seq<Edit>, from: int, n: nat)
    requires 0 <= from <= |md| && Disjoint(kept, from, |md|) && n < |kept|
    ensures HasAt(Substitute(md, kept, from), kept[n].at.start - from + Shift(kept, n), kept[n].text)
  {
    FrontLength(md, kept, from, n);
    FrontSplit(md, kept, from, n);
    HasBetween(Front(md, kept, from, n), kept[n].text, Substitute(md, kept[n + 1..], kept[n].at.stop));
  }

  lemma HasBetween(front: string, text: string, rest: string)
    ensures HasAt(front + (text + rest), |front|, text)
  {
    assert (front + (text + rest))[|front|..|front| + |text|] == text;
  }

  /** The same two facts for the whole text. */
  lemma TextAt(md: string, kept: seq<Edit>, n: nat)
    requires Disjoint(kept, 0, |md|) && n < |kept|
    ensures HasAt(Substitute(md, kept, 0), kept[n].at.start + Shift(kept, n), kept[n].text)
  {
    var p := kept[n].at.start + Shift(kept, n);
    assert kept[n].at.start - 0 + Shift(kept, n) == p;
    TextsAppear(md, kept, 0, n);
  }

  lemma ByteAt(md: string, kept: seq<Edit>, p: int, n: nat)
    requires 0 <= p < |md| && Disjoint(kept, 0, |md|) && Outside(kept, p, n)
    ensures 0 <= p + Shift(kept, n) < |Substitute(md, kept, 0)|
    ensures Substitute(md, kept, 0)[p + Shift(kept, n)] == md[p]
  {
    BytesSurvive(md, kept, 0, p, n);
  }

  /** The text stands at the place to which the kept edits move the range, between the same bytes as before. */
  predicate StandsBetween(md: string, out: string, at: ByteRange, p: int, text: string) {
    0 < at.start <= at.stop < |md| && HasAt(out, p, text) && 0 < p && p + |text| < |out| &&
    out[p - 1] == md[at.start - 1] && out[p + |text|] == md[at.stop]
  }

  lemma ByteBefore(md: string, kept: seq<Edit>, n: nat)
    requires Disjoint(kept, 0, |md|) && n < |kept| && 0 < kept[n].at.start
    requires Outside(kept, kept[n].at.start - 1, n)
    ensures var out, p := Substitute(md, kept, 0), kept[n].at.start + Shift(kept, n);
            0 < p <= |out| && out[p - 1] == md[kept[n].at.start - 1]
  {
    ByteAt(md, kept, kept[n].at.start - 1, n);
  }

  lemma ByteBehind(md: string, kept: seq<Edit>, n: nat)
    requires Disjoint(kept, 0, |md|) && n < |kept| && kept[n].at.stop < |md|
    requires Outside(kept, kept[n].at.stop, n + 1)
    ensures var out, p := Substitute(md, kept, 0), kept[n].at.start + Shift(kept, n) + |kept[n].text|;
            0 <= p < |out| && out[p] == md[kept[n].at.stop]
  {
    ByteAt(md, kept, kept[n].at.stop, n + 1);
  }

  lemma TextsStandBetween(md: string, kept: seq<Edit>, n: nat)
    requires Disjoint(kept, 0, |md|) && n < |kept|
    requires 0 < kept[n].at.start && kept[n].at.stop < |md|
    requires Outside(kept, kept[n].at.start - 1, n) && Outside(kept, kept[n].at.stop, n + 1)
    ensures StandsBetween(md, Substitute(md, kept, 0), kept[n].at, kept[n].at.start + Shift(kept, n), kept[n].text)
  {
    ByteBefore(md, kept, n);
    ByteBehind(md, kept, n);
    TextAt(md, kept, n);
  }

  // ---------------------------------------------------------------- the method

  function Replaced(md: string, e: Edit): string
    requires 0 <= e.at.start <= e.at.stop <= |md|
  {
    md[..e.at.start] + e.text + md[e.at.stop..]
  }

  lemma BeforeReplaced(md: string, e: Edit, from: int, to: int)
    requires 0 <= from <= to <= e.at.start <= e.at.stop <= |md|
    ensures to <= |Replaced(md, e)| && Replaced(md, e)[from..to] == md[from..to]
  {
  }

  lemma DisjointFront(md: string, kept: seq<Edit>, from: int)
    requires 0 <= from <= |md| && kept != [] && Disjoint(kept, from, |md|)
    ensures var out := Replaced(md, kept[|kept| - 1]);
            from <= |out| && Disjoint(kept[..|kept| - 1], from, |out|)
  {
    var e := kept[|kept| - 1];
    assert |Replaced(md, e)| >= e.at.start;
    var front := kept[..|kept| - 1];
    forall i | 0 <= i < |front| ensures from <= front[i].at.start <= front[i].at.stop <= e.at.start {
      assert front[i] == kept[i];
    }
  }

  lemma SubstituteOne(md: string, e: Edit, from: int)
    requires 0 <= from <= e.at.start <= e.at.stop <= |md|
    ensures Substitute(md, [e], from) == Replaced(md, e)[from..]
  {
    assert [e][1..] == [];
    assert Substitute(md, [e][1..], e.at.stop) == md[e.at.stop..];
  }

  lemma SubstituteFirst(md: string, out: string, kept: seq<Edit>, front: seq<Edit>, from: int)
    requires 0 <= from <= |md| && from <= |out| && kept != [] && front != [] && kept[0] == front[0]
    requires Disjoint(kept, from, |md|) && Disjoint(front, from, |out|)
    requires kept[0].at.stop <= |out|
    requires out[from..kept[0].at.start] == md[from..kept[0].at.start]
    requires Substitute(out, front[1..], kept[0].at.stop) == Substitute(md, kept[1..], kept[0].at.stop)
    ensures Substitute(out, front, from) == Substitute(md, kept, from)
  {
  }

  /** Applying the last edit first leaves the others in place. */
  lemma {:induction false} SubstituteSnoc(md: string, kept: seq<Edit>, from: int)
    requires 0 <= from <= |md| && kept != [] && Disjoint(kept, from, |md|)
    ensures var out := Replaced(md, kept[|kept| - 1]);
            from <= |out| && Disjoint(kept[..|kept| - 1], from, |out|) &&
            Substitute(out, kept[..|kept| - 1], from) == Substitute(md, kept, from)
    decreases |kept|
  {
    DisjointFront(md, kept, from);
    var e, f := kept[|kept| - 1], kept[0];
    var out := Replaced(md, e);
    if |kept| == 1 {
      assert kept == [e];
      SubstituteOne(md, e, from);
    } else {
      SubstituteSnoc(md, kept[1..], f.at.stop);
      var front := kept[..|kept| - 1];
      assert kept[1..][..|kept| - 2] == front[1..] && front[0] == f;
      assert f.at.start <= f.at.stop <= e.at.start;
      BeforeReplaced(md, e, from, f.at.start);
      SubstituteFirst(md, out, kept, front, from);
    }
  }

  /** The edits that get applied. */
  function KeptEdits(md: string, edits: seq<Edit>): (kept: seq<Edit>)
    ensures Disjoint(kept, 0, |md|)
  {
    var sorted := Sort(edits);
    SurvivorsDisjoint(sorted, |md|, |sorted|);
    Survivors(sorted, |md|, |sorted|)
  }

  function Owners(es: seq<Edit>): set<nat> { set e | e in es :: e.arg }

  /** The scan over the sorted edits. */
  method KeepDisjoint(sorted: seq<Edit>, size: nat) returns (kept: seq<Edit>, written: set<nat>)
    ensures kept == Survivors(sorted, size, |sorted|) && written == Owners(kept)
  {
    kept, written := [], {};
    var end := 0;
    for k := 0 to |sorted|
      invariant kept == Survivors(sorted, size, k) && end == End(sorted, size, k) && written == Owners(kept)
    {
      var e := sorted[k];
      if e.at.start < end || e.at.start > e.at.stop || e.at.stop > size { continue; }
      kept := kept + [e];
      written := written + {e.arg};
      end := e.at.stop;
    }
  }

  /** Rewrites the text back to front, which equals replacing all kept ranges at once, and reports the arguments whose
      edits were kept. */
  method ApplyEdits(md: string, edits: seq<Edit>) returns (out: string, written: set<nat>)
    ensures out == Substitute(md, KeptEdits(md, edits), 0)
    ensures written == Owners(KeptEdits(md, edits))
  {
    if |edits| == 0 { return md, {}; }
    var kept;
    kept, written := KeepDisjoint(Sort(edits), |md|);
    assert kept == KeptEdits(md, edits);
    out := md;
    var n := |kept|;
    assert kept[..n] == kept;
    while n > 0
      invariant 0 <= n <= |kept| && Disjoint(kept[..n], 0, |out|)
      invariant Substitute(out, kept[..n], 0) == Substitute(md, kept, 0)
    {
      n := n - 1;
      LastFirst(out, kept, n);
      out := Replaced(out, kept[n]);
    }
  }

  lemma LastFirst(out: string, kept: seq<Edit>, n: nat)
    requires n < |kept| && Disjoint(kept[..n + 1], 0, |out|)
    ensures 0 <= kept[n].at.start <= kept[n].at.stop <= |out|
    ensures Disjoint(kept[..n], 0, |Replaced(out, kept[n])|)
    ensures Substitute(Replaced(out, kept[n]), kept[..n], 0) == Substitute(out, kept[..n + 1], 0)
  {
    var front := kept[..n + 1];
    assert front[n] == kept[n] && front[..n] == kept[..n];
    SubstituteSnoc(out, front, 0);
  }
}

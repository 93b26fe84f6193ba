/** Where the edits of a reference end up in the rewritten text. */
module AttachPlaces {
  import opened Wrappers
  import opened MarkdownScan
  import opened MarkdownEdits
  import opened AttachPlan
  import opened AttachRewrite

  ghost function KeptInPlan(src: string, refs: seq<Reference>, args: seq<Argument>): seq<Edit>
    requires Indexed(src, refs, args)
  {
    KeptEdits(src, Plan(src, refs, args))
  }

  ghost function Rewritten(src: string, refs: seq<Reference>, args: seq<Argument>): string
    requires Indexed(src, refs, args)
  {
    Substitute(src, KeptInPlan(src, refs, args), 0)
  }

  /** An inline reference to a file that uploaded, outside the alt text of every player that is replaced as a whole. */
  ghost predicate Live(src: string, refs: seq<Reference>, args: seq<Argument>, i: nat) {
    i < |refs| && refs[i].Inline? && refs[i].arg < |args| && args[refs[i].arg].url != "" && !Covered(src, refs, args, i)
  }

  /** The range that the URL replaces: the destination, or the whole of a player that stands alone. */
  function Target(src: string, refs: seq<Reference>, args: seq<Argument>, i: nat): ByteRange
    requires i < |refs| && refs[i].Inline?
  {
    if Whole(src, refs, args, i) then refs[i].ranges.node else refs[i].ranges.dest
  }

  // ---------------------------------------------------------------- inline references

  /** The edit is kept, at this position. */
  lemma KeptAt(src: string, refs: seq<Reference>, args: seq<Argument>, i: nat, e: Edit) returns (n: nat)
    requires WellNested(src, refs, args) && Indexed(src, refs, args) && Live(src, refs, args, i)
    requires e in EditsOf(src, i, refs[i], args[refs[i].arg])
    ensures n < |KeptInPlan(src, refs, args)| && KeptInPlan(src, refs, args)[n] == e
  {
    EditsTagged(src, refs, args, i, e);
    KeptTogether(src, refs, args, e);
    n :| 0 <= n < |KeptInPlan(src, refs, args)| && KeptInPlan(src, refs, args)[n] == e;
  }

  lemma KeptPlanned(src: string, refs: seq<Reference>, args: seq<Argument>, f: Edit)
    requires WellNested(src, refs, args) && Indexed(src, refs, args) && f in KeptInPlan(src, refs, args)
    ensures PlannedBy(src, refs, args, f.ref, f)
  {
    PlanFacts(src, refs, args);
    var s := Sort(Plan(src, refs, args));
    var j := SurvivorWasKept(s, |src|, |s|, f);
    assert f in s;
  }

  /** No other edit touches the destination or the bytes next to it. */
  lemma DestinationClear(src: string, refs: seq<Reference>, args: seq<Argument>, i: nat, f: Edit)
    requires WellNested(src, refs, args) && Indexed(src, refs, args) && Live(src, refs, args, i)
    requires !Whole(src, refs, args, i) && PlannedBy(src, refs, args, f.ref, f) && f.at != refs[i].ranges.dest
    ensures f.at.stop < refs[i].ranges.dest.start || refs[i].ranges.dest.stop < f.at.start
  {
    var j, a, b := f.ref, refs[i], refs[f.ref];
    if j == i {
      assert InPlace(src, a);
    } else if b.ByDefinition? {
      assert Compatible(b, a);
      DefinitionEdit(b.arg, b.dests, args[b.arg].url, j, f);
    } else {
      assert Compatible(a, b) && !Covers(src, refs, args, i, j);
      InlineEdits(src, j, b, args[b.arg], f);
      if NestedIn(a, b) {
        PartEdits(src, j, b, args[b.arg], f);
      } else if NestedIn(b, a) {
        NestedReach(src, b, a, f.at);
      } else if a.ranges.node.stop <= b.ranges.node.start {
        assert src[a.ranges.node.stop - 1] == ')';
      }
    }
  }

  lemma {:induction false} SurvivorsPairwise(r: (Edit, Edit) -> bool, es: seq<Edit>, size: nat, k: nat)
    requires Pairwise(r, es) && k <= |es|
    ensures Pairwise(r, Survivors(es, size, k))
  {
    if k > 0 {
      SurvivorsPairwise(r, es, size, k - 1);
      var before := Survivors(es, size, k - 1);
      forall p | 0 <= p < |before| ensures r(before[p], es[k - 1]) && r(es[k - 1], before[p]) {
        var j := SurvivorWasKept(es, size, k - 1, before[p]);
      }
    }
  }

  lemma KeptRelated(src: string, refs: seq<Reference>, args: seq<Argument>, k: nat, n: nat)
    requires WellNested(src, refs, args) && Indexed(src, refs, args)
    requires k < |KeptInPlan(src, refs, args)| && n < |KeptInPlan(src, refs, args)| && k != n
    ensures Related(src, refs, args, KeptInPlan(src, refs, args)[k], KeptInPlan(src, refs, args)[n])
  {
    PlanFacts(src, refs, args);
    var s := Sort(Plan(src, refs, args));
    SurvivorsPairwise(Relation(src, refs, args), s, |src|, |s|);
    assert Relation(src, refs, args)(KeptInPlan(src, refs, args)[k], KeptInPlan(src, refs, args)[n]);
  }

  lemma NeighboursOutside(src: string, refs: seq<Reference>, args: seq<Argument>, i: nat, n: nat)
    requires WellNested(src, refs, args) && Indexed(src, refs, args) && Live(src, refs, args, i)
    requires !Whole(src, refs, args, i) && n < |KeptInPlan(src, refs, args)|
    requires KeptInPlan(src, refs, args)[n].at == refs[i].ranges.dest && KeptInPlan(src, refs, args)[n].ref == i
    ensures var at := refs[i].ranges.dest;
            0 < at.start && at.stop < |src| &&
            Outside(KeptInPlan(src, refs, args), at.start - 1, n) &&
            Outside(KeptInPlan(src, refs, args), at.stop, n + 1)
  {
    var kept, at := KeptInPlan(src, refs, args), refs[i].ranges.dest;
    assert InPlace(src, refs[i]);
    forall k | 0 <= k < |kept| && k != n
      ensures if k < n then kept[k].at.stop <= at.start - 1 else at.stop < kept[k].at.start
    {
      assert kept[k] in kept;
      KeptRelated(src, refs, args, k, n);
      KeptPlanned(src, refs, args, kept[k]);
      DestinationClear(src, refs, args, i, kept[k]);
      assert if k < n then kept[k].at.stop <= kept[n].at.start else kept[n].at.stop <= kept[k].at.start;
    }
  }

  /** Every inline reference that is not in the alt text of a replaced player has its URL: in place of the whole
      reference for a player that stands alone, else at its destination with the same bytes on both sides. */
  lemma UrlInPlace(src: string, refs: seq<Reference>, args: seq<Argument>, i: nat) returns (n: nat)
    requires WellNested(src, refs, args) && Indexed(src, refs, args) && Live(src, refs, args, i)
    ensures var kept, at, url := KeptInPlan(src, refs, args), Target(src, refs, args, i), args[refs[i].arg].url;
            n < |kept| && kept[n] == Edit(refs[i].arg, at, url, i) &&
            HasAt(Rewritten(src, refs, args), at.start + Shift(kept, n), url) &&
            (!Whole(src, refs, args, i) ==>
               StandsBetween(src, Rewritten(src, refs, args), at, at.start + Shift(kept, n), url))
  {
    var at, url := Target(src, refs, args, i), args[refs[i].arg].url;
    var es := EditsOf(src, i, refs[i], args[refs[i].arg]);
    assert es[|es| - 1] == Edit(refs[i].arg, at, url, i);
    n := KeptAt(src, refs, args, i, Edit(refs[i].arg, at, url, i));
    TextAt(src, KeptInPlan(src, refs, args), n);
    if !Whole(src, refs, args, i) {
      NeighboursOutside(src, refs, args, i, n);
      TextsStandBetween(src, KeptInPlan(src, refs, args), n);
    }
  }

  // ---------------------------------------------------------------- definitions

  /** The text of a kept edit is where its range went. */
  lemma KeptText(src: string, refs: seq<Reference>, args: seq<Argument>, e: Edit) returns (n: nat)
    requires Indexed(src, refs, args) && e in KeptInPlan(src, refs, args)
    ensures n < |KeptInPlan(src, refs, args)| && KeptInPlan(src, refs, args)[n] == e
    ensures HasAt(Rewritten(src, refs, args), e.at.start + Shift(KeptInPlan(src, refs, args), n), e.text)
  {
    n :| 0 <= n < |KeptInPlan(src, refs, args)| && KeptInPlan(src, refs, args)[n] == e;
    TextAt(src, KeptInPlan(src, refs, args), n);
  }

  /** Every definition that could be located has the URL at its destination. */
  lemma DefinitionInPlace(src: string, refs: seq<Reference>, args: seq<Argument>, i: nat, k: nat) returns (n: nat)
    requires WellNested(src, refs, args) && Indexed(src, refs, args)
    requires i < |refs| && refs[i].ByDefinition? && args[refs[i].arg].url != "" && k < |refs[i].dests|
    requires refs[i].dests[k].Some?
    ensures var kept, at, url := KeptInPlan(src, refs, args), refs[i].dests[k].value, args[refs[i].arg].url;
            n < |kept| && kept[n].at == at && kept[n].text == url &&
            HasAt(Rewritten(src, refs, args), at.start + Shift(kept, n), url)
  {
    var e := DefinitionKept(src, refs, args, i, k);
    n := KeptText(src, refs, args, e);
  }

  lemma DefinitionKept(src: string, refs: seq<Reference>, args: seq<Argument>, i: nat, k: nat) returns (e: Edit)
    requires WellNested(src, refs, args) && Indexed(src, refs, args)
    requires i < |refs| && refs[i].ByDefinition? && args[refs[i].arg].url != "" && k < |refs[i].dests|
    requires refs[i].dests[k].Some?
    ensures e in KeptInPlan(src, refs, args) && e.at == refs[i].dests[k].value && e.text == args[refs[i].arg].url
  {
    var s := Sort(Plan(src, refs, args));
    var planned := Edit(refs[i].arg, refs[i].dests[k].value, args[refs[i].arg].url, i);
    assert planned in s by {
      PlanFacts(src, refs, args);
      DefinitionPlanned(refs[i].arg, refs[i].dests, args[refs[i].arg].url, i, k);
    }
    var m := FirstAt(s, refs[i].dests[k].value);
    FirstDefinitionKept(src, refs, args, i, k, m);
    KeptSurvives(s, |src|, |s|, m);
    e := s[m];
  }

  lemma {:induction false} DefinitionPlanned(arg: nat, dests: seq<Option<ByteRange>>, url: string, i: nat, k: nat)
    requires k < |dests| && dests[k].Some?
    ensures Edit(arg, dests[k].value, url, i) in DefinitionEdits(arg, dests, url, i)
    decreases |dests|
  {
    if k < |dests| - 1 {
      DefinitionPlanned(arg, dests[..|dests| - 1], url, i, k);
    }
  }

  lemma {:induction false} FirstAt(s: seq<Edit>, at: ByteRange) returns (m: nat)
    requires exists e :: e in s && e.at == at
    ensures m < |s| && s[m].at == at && forall j :: 0 <= j < m ==> s[j].at != at
  {
    if s[0].at == at {
      m := 0;
    } else {
      var e :| e in s && e.at == at;
      assert s == [s[0]] + s[1..];
      assert e in s[1..];
      m := FirstAt(s[1..], at);
      m := m + 1;
    }
  }

  /** Of several edits of one definition the first is kept, and all of them carry the same URL. */
  lemma FirstDefinitionKept(src: string, refs: seq<Reference>, args: seq<Argument>, i: nat, k: nat, m: nat)
    requires WellNested(src, refs, args) && Indexed(src, refs, args)
    requires i < |refs| && refs[i].ByDefinition? && args[refs[i].arg].url != "" && k < |refs[i].dests|
    requires refs[i].dests[k].Some?
    requires var s := Sort(Plan(src, refs, args));
             m < |s| && s[m].at == refs[i].dests[k].value && forall j :: 0 <= j < m ==> s[j].at != s[m].at
    ensures var s := Sort(Plan(src, refs, args));
            Kept(s, |src|, m) && s[m].text == args[refs[i].arg].url
  {
    var s := Sort(Plan(src, refs, args));
    var e := Edit(refs[i].arg, s[m].at, args[refs[i].arg].url, i);
    PlanFacts(src, refs, args);
    DefinitionPlanned(refs[i].arg, refs[i].dests, args[refs[i].arg].url, i, k);
    assert s[m] in s;
    SameDefinition(src, refs, args, i, k, s[m]);
    forall j | 0 <= j < m ensures s[j].at.stop <= s[m].at.start {
      assert Relation(src, refs, args)(s[j], s[m]) && !Before(s[m], s[j]);
      ApartFromDefinition(src, refs, args, s[j], s[m]);
    }
    KeptIff(s, |src|, m);
  }

  lemma ApartFromDefinition(src: string, refs: seq<Reference>, args: seq<Argument>, e: Edit, f: Edit)
    requires Related(src, refs, args, e, f) && f.ref < |refs| && refs[f.ref].ByDefinition? && e.at != f.at
    requires !Before(f, e)
    ensures e.at.stop <= f.at.start
  {
  }

  lemma SameDefinition(src: string, refs: seq<Reference>, args: seq<Argument>, i: nat, k: nat, f: Edit)
    requires WellNested(src, refs, args) && Indexed(src, refs, args)
    requires i < |refs| && refs[i].ByDefinition? && k < |refs[i].dests| && refs[i].dests[k].Some?
    requires PlannedBy(src, refs, args, f.ref, f) && f.at == refs[i].dests[k].value
    ensures refs[f.ref].ByDefinition? && f.text == args[refs[i].arg].url
    ensures 0 <= f.at.start < f.at.stop <= |src|
  {
    var b := refs[f.ref];
    assert DestsInRange(src, refs[i].dests);
    if f.ref != i { assert Compatible(refs[i], b); }
    if b.ByDefinition? {
      DefinitionEdit(b.arg, b.dests, args[b.arg].url, f.ref, f);
      var m :| 0 <= m < |b.dests| && b.dests[m] == Some(f.at);
    } else {
      InlineEdits(src, f.ref, b, args[b.arg], f);
    }
  }

  // ---------------------------------------------------------------- files reported as written

  /** The edit at `n` carries the URL of the file to a reference that names it. */
  ghost predicate Lands(src: string, refs: seq<Reference>, args: seq<Argument>, n: nat, a: nat)
    requires Indexed(src, refs, args)
  {
    var kept := KeptInPlan(src, refs, args);
    n < |kept| && a < |args| && kept[n].arg == a && kept[n].text == args[a].url && kept[n].ref < |refs| &&
    refs[kept[n].ref].arg == a &&
    (match refs[kept[n].ref]
     case Inline(_, _, _, _) => kept[n].at == Target(src, refs, args, kept[n].ref)
     case ByDefinition(_, _, dests) => Some(kept[n].at) in dests) &&
    HasAt(Rewritten(src, refs, args), kept[n].at.start + Shift(kept, n), args[a].url)
  }

  /** A file reported as written has its URL at the destination of some reference to it. */
  lemma WrittenInPlace(src: string, refs: seq<Reference>, args: seq<Argument>, a: nat)
    requires WellNested(src, refs, args) && Indexed(src, refs, args) && a in Owners(KeptInPlan(src, refs, args))
    ensures exists n :: Lands(src, refs, args, n, a)
    ensures a < |args| && Mentions(Rewritten(src, refs, args), args[a].url)
  {
    var e :| e in KeptInPlan(src, refs, args) && e.arg == a;
    KeptPlanned(src, refs, args, e);
    EditsTagged(src, refs, args, e.ref, e);
    var n: nat;
    if refs[e.ref].Inline? {
      KeptTogether(src, refs, args, e);
      n := UrlInPlace(src, refs, args, e.ref);
    } else {
      n := KeptText(src, refs, args, e);
      DefinitionEdit(refs[e.ref].arg, refs[e.ref].dests, args[a].url, e.ref, e);
    }
    assert Lands(src, refs, args, n, a);
  }
}

/** Rewriting one document: the edits of a reference are kept or dropped together. */
module AttachRewrite {
  import opened Wrappers
  import opened MarkdownScan
  import opened MarkdownEdits
  import opened AttachPlan

  // ---------------------------------------------------------------- the plan is pairwise related, sorted or not

  ghost predicate AllApart(es: seq<Edit>) {
    forall p, q :: 0 <= p < q < |es| ==> Apart(es[p].at, es[q].at)
  }

  lemma {:induction false} DefinitionEditsApart(arg: nat, dests: seq<Option<ByteRange>>, url: string, i: nat)
    requires DestsApart(dests)
    ensures AllApart(DefinitionEdits(arg, dests, url, i))
    decreases |dests|
  {
    if dests != [] {
      var front := dests[..|dests| - 1];
      assert forall k :: 0 <= k < |front| ==> front[k] == dests[k];
      DefinitionEditsApart(arg, front, url, i);
      var es := DefinitionEdits(arg, front, url, i);
      forall p | 0 <= p < |es| && dests[|dests| - 1].Some? ensures Apart(es[p].at, dests[|dests| - 1].value) {
        DefinitionEdit(arg, front, url, i, es[p]);
        var k :| 0 <= k < |front| && front[k] == Some(es[p].at);
        assert dests[k].Some?;
      }
    }
  }

  lemma InlineEditsApart(src: string, i: nat, r: Reference, a: Argument)
    requires r.Inline? && InPlace(src, r)
    ensures AllApart(EditsOf(src, i, r, a))
  {
  }

  lemma EditsApart(src: string, refs: seq<Reference>, args: seq<Argument>, i: nat)
    requires WellNested(src, refs, args) && i < |refs|
    ensures AllApart(EditsOf(src, i, refs[i], args[refs[i].arg]))
  {
    if refs[i].ByDefinition? {
      assert DestsApart(refs[i].dests);
      DefinitionEditsApart(refs[i].arg, refs[i].dests, args[refs[i].arg].url, i);
    } else {
      InlineEditsApart(src, i, refs[i], args[refs[i].arg]);
    }
  }

  lemma EditsTagged(src: string, refs: seq<Reference>, args: seq<Argument>, i: nat, e: Edit)
    requires WellNested(src, refs, args) && i < |refs| && e in EditsOf(src, i, refs[i], args[refs[i].arg])
    ensures e.ref == i && e.arg == refs[i].arg
  {
    if refs[i].Inline? {
      InlineEdits(src, i, refs[i], args[refs[i].arg], e);
    } else {
      DefinitionEdit(refs[i].arg, refs[i].dests, args[refs[i].arg].url, i, e);
    }
  }

  ghost function Relation(src: string, refs: seq<Reference>, args: seq<Argument>): (Edit, Edit) -> bool {
    (e, f) => Related(src, refs, args, e, f)
  }

  lemma PartsRelated(src: string, refs: seq<Reference>, args: seq<Argument>)
    requires WellNested(src, refs, args)
    ensures Indexed(src, refs, args) && Tagged(Parts(src, refs, args))
    ensures Pairwise(Relation(src, refs, args), Plan(src, refs, args))
  {
    assert Indexed(src, refs, args) by {
      forall i | 0 <= i < |refs|
        ensures refs[i].arg < |args| && (refs[i].Inline? ==> 0 <= refs[i].ranges.node.start < |src|) {}
    }
    var parts := Parts(src, refs, args);
    forall i: nat, e: Edit | 0 <= i < |parts| && e in parts[i] ensures e.ref == i {
      EditsTagged(src, refs, args, i, e);
    }
    forall i | 0 <= i < |parts| ensures Pairwise(Relation(src, refs, args), parts[i]) {
      EditsApart(src, refs, args, i);
      ApartIsRelated(src, refs, args, parts[i]);
    }
    forall i: nat, j: nat, e: Edit, f: Edit |
      0 <= i < |parts| && 0 <= j < |parts| && i != j && e in parts[i] && f in parts[j]
      ensures Related(src, refs, args, e, f)
    {
      CrossRelated(src, refs, args, i, j, e, f);
    }
    FlattenPairwise(Relation(src, refs, args), parts);
  }

  lemma ApartIsRelated(src: string, refs: seq<Reference>, args: seq<Argument>, es: seq<Edit>)
    requires AllApart(es)
    ensures Pairwise(Relation(src, refs, args), es)
  {
    forall p, q | 0 <= p < |es| && 0 <= q < |es| && p != q ensures Related(src, refs, args, es[p], es[q]) {
      assert if p < q then Apart(es[p].at, es[q].at) else Apart(es[q].at, es[p].at);
    }
  }

  // ---------------------------------------------------------------- kept or dropped together

  /** The reference lies in the alt text of a player that is replaced as a whole. */
  ghost predicate Covered(src: string, refs: seq<Reference>, args: seq<Argument>, i: nat) {
    i < |refs| && refs[i].Inline? && exists j: nat :: Covers(src, refs, args, i, j)
  }

  predicate Covers(src: string, refs: seq<Reference>, args: seq<Argument>, i: nat, j: nat) {
    i < |refs| && refs[i].Inline? && j != i && Whole(src, refs, args, j) && NestedIn(refs[i], refs[j])
  }

  predicate PlannedBy(src: string, refs: seq<Reference>, args: seq<Argument>, i: nat, e: Edit)
    requires Indexed(src, refs, args)
  {
    i < |refs| && e in EditsOf(src, i, refs[i], args[refs[i].arg])
  }

  /** What is known of the sorted plan. */
  lemma PlanFacts(src: string, refs: seq<Reference>, args: seq<Argument>)
    requires WellNested(src, refs, args)
    ensures Indexed(src, refs, args)
    ensures var s := Sort(Plan(src, refs, args));
            Sorted(s) && Pairwise(Relation(src, refs, args), s) &&
            forall e :: e in s <==> PlannedBy(src, refs, args, e.ref, e)
  {
    PartsRelated(src, refs, args);
    var parts := Parts(src, refs, args);
    var plan := Plan(src, refs, args);
    SortPairwise(Relation(src, refs, args), plan);
    SortSorts(plan);
    forall e ensures e in Sort(plan) <==> PlannedBy(src, refs, args, e.ref, e) {
      FlattenMembers(parts, e);
    }
  }

  lemma UncoveredKept(src: string, refs: seq<Reference>, args: seq<Argument>, k: nat)
    requires WellNested(src, refs, args) && Indexed(src, refs, args) && k < |Sort(Plan(src, refs, args))|
    requires var e := Sort(Plan(src, refs, args))[k];
             e.ref < |refs| && refs[e.ref].Inline? && !Covered(src, refs, args, e.ref)
    ensures Kept(Sort(Plan(src, refs, args)), |src|, k)
  {
    PlanFacts(src, refs, args);
    var s := Sort(Plan(src, refs, args));
    var e := s[k];
    assert e in s;
    InlineEdits(src, e.ref, refs[e.ref], args[refs[e.ref].arg], e);
    forall j | 0 <= j < k ensures s[j].at.stop <= e.at.start {
      assert Relation(src, refs, args)(s[j], e) && !Before(e, s[j]);
      assert !Covers(src, refs, args, e.ref, s[j].ref);
    }
    KeptIff(s, |src|, k);
  }

  lemma WholeUncovered(src: string, refs: seq<Reference>, args: seq<Argument>, j: nat)
    requires WellNested(src, refs, args) && Whole(src, refs, args, j)
    ensures !Covered(src, refs, args, j)
  {
    forall m: nat ensures !Covers(src, refs, args, j, m) {
      if m < |refs| && refs[m].Inline? && NestedIn(refs[j], refs[m]) { OuterIsNotAlone(src, refs[j], refs[m]); }
    }
  }

  lemma CoveredDropped(src: string, refs: seq<Reference>, args: seq<Argument>, k: nat)
    requires WellNested(src, refs, args) && Indexed(src, refs, args) && k < |Sort(Plan(src, refs, args))|
    requires Covered(src, refs, args, Sort(Plan(src, refs, args))[k].ref)
    ensures !Kept(Sort(Plan(src, refs, args)), |src|, k)
  {
    PlanFacts(src, refs, args);
    var s := Sort(Plan(src, refs, args));
    var e := s[k];
    var j: nat :| Covers(src, refs, args, e.ref, j);
    var f := Edit(refs[j].arg, refs[j].ranges.node, args[refs[j].arg].url, j);
    assert EditsOf(src, j, refs[j], args[refs[j].arg]) == [f];
    assert f in s && e in s;
    var m :| 0 <= m < |s| && s[m] == f;
    InlineEdits(src, e.ref, refs[e.ref], args[refs[e.ref].arg], e);
    NestedReach(src, refs[e.ref], refs[j], e.at);
    assert m < k by { assert Before(f, e); }
    WholeUncovered(src, refs, args, j);
    UncoveredKept(src, refs, args, m);
    KeptIff(s, |src|, k);
  }

  /** The edits of one inline reference are kept or dropped together: dropped exactly when the reference lies in the alt
      text of a player that is replaced as a whole. */
  lemma KeptTogether(src: string, refs: seq<Reference>, args: seq<Argument>, e: Edit)
    requires WellNested(src, refs, args) && Indexed(src, refs, args) && e.ref < |refs| && refs[e.ref].Inline?
    requires PlannedBy(src, refs, args, e.ref, e)
    ensures e in KeptEdits(src, Plan(src, refs, args)) <==> !Covered(src, refs, args, e.ref)
  {
    PlanFacts(src, refs, args);
    var s := Sort(Plan(src, refs, args));
    var kept := KeptEdits(src, Plan(src, refs, args));
    assert e in s;
    if Covered(src, refs, args, e.ref) {
      if e in kept {
        var j := SurvivorWasKept(s, |src|, |s|, e);
        CoveredDropped(src, refs, args, j);
      }
    } else {
      var k :| 0 <= k < |s| && s[k] == e;
      UncoveredKept(src, refs, args, k);
      KeptSurvives(s, |src|, |s|, k);
    }
  }

  ghost predicate Mentions(s: string, t: string) {
    exists p :: HasAt(s, p, t)
  }
}

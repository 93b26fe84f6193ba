/** A video embed that cannot play becomes a link: no "!" that counts as markup is left before the bracket it had. */
module AttachDegrade {
  import opened Wrappers
  import opened MarkdownScan
  import opened MarkdownEdits
  import opened AttachPlan
  import opened AttachRewrite
  import opened AttachPlaces

  predicate Degraded(src: string, refs: seq<Reference>, args: seq<Argument>, i: nat) {
    i < |refs| && refs[i].Inline? && refs[i].arg < |args| && args[refs[i].arg].rendersAsPlayer && refs[i].isEmbed &&
    !Whole(src, refs, args, i)
  }

  /** The two ranges are on different lines. */
  predicate LineBetween(src: string, a: ByteRange, b: ByteRange) {
    exists p :: 0 <= p < |src| && a.stop <= p < b.start && src[p] == '\n'
  }

  predicate Follows(src: string, a: ByteRange, b: ByteRange) {
    a.stop <= b.start ==> LineBetween(src, a, b)
  }

  /** A definition, and a player that is a paragraph of its own, do not share a line with what follows in another
      block. */
  ghost predicate LinesApart(src: string, refs: seq<Reference>, args: seq<Argument>, i: nat)
    requires i < |refs| && refs[i].Inline?
  {
    (forall j: nat :: j < |refs| && refs[j].ByDefinition? ==> DefinitionsApart(src, refs[j], refs[i].ranges.node)) &&
    (forall j: nat :: Whole(src, refs, args, j) && refs[j].block != refs[i].block ==>
                        Follows(src, refs[j].ranges.node, refs[i].ranges.node))
  }

  predicate DefinitionsApart(src: string, r: Reference, node: ByteRange)
    requires r.ByDefinition?
  {
    forall k :: 0 <= k < |r.dests| && r.dests[k].Some? ==> Follows(src, r.dests[k].value, node)
  }

  // ---------------------------------------------------------------- backslashes that stay

  /** Equal bytes back to one that is no backslash, or to the start of both texts, hold as many backslashes. */
  lemma {:induction false} SameBackslashes(a: string, i: int, b: string, j: int, m: int)
    requires 0 <= m <= i <= |a| && m <= j <= |b| && a[i - m..i] == b[j - m..j]
    requires m == i == j || (m > 0 && a[i - m] != '\\')
    ensures Backslashes(a, i) == Backslashes(b, j)
    decreases m
  {
    if m > 0 {
      assert a[i - 1] == a[i - m..i][m - 1] == b[j - m..j][m - 1] == b[j - 1];
      if a[i - 1] == '\\' {
        assert a[i - m..i - 1] == a[i - m..i][..m - 1];
        assert b[j - m..j - 1] == b[j - m..j][..m - 1];
        SameBackslashes(a, i - 1, b, j - 1, m - 1);
      }
    }
  }

  /** Where the source between two kept edits goes. */
  lemma GapSurvives(md: string, kept: seq<Edit>, n: nat, p: int)
    requires Disjoint(kept, 0, |md|) && n < |kept|
    requires (if n == 0 then 0 else kept[n - 1].at.stop) <= p < kept[n].at.start
    ensures 0 <= p + Shift(kept, n) < |Substitute(md, kept, 0)|
    ensures Substitute(md, kept, 0)[p + Shift(kept, n)] == md[p]
  {
    ByteAt(md, kept, p, n);
  }

  /** The bytes of `a` from `start` to `stop` are in `b`, moved by `d`. */
  predicate Moved(a: string, start: int, stop: int, b: string, d: int) {
    0 <= start <= stop <= |a| && 0 <= start + d && stop + d <= |b| && a[start..stop] == b[start + d..stop + d]
  }

  lemma OneMoreMoved(a: string, start: int, stop: int, b: string, d: int)
    requires Moved(a, start, stop, b, d) && stop < |a| && stop + d < |b| && a[stop] == b[stop + d]
    ensures Moved(a, start, stop + 1, b, d)
  {
    assert a[start..stop + 1] == a[start..stop] + [a[stop]];
    assert b[start + d..stop + 1 + d] == b[start + d..stop + d] + [b[stop + d]];
  }

  /** A stretch of the source between two kept edits is in the result as a whole. */
  lemma {:induction false} GapMoves(md: string, kept: seq<Edit>, n: nat, start: int, p: int)
    requires Disjoint(kept, 0, |md|) && n < |kept|
    requires (if n == 0 then 0 else kept[n - 1].at.stop) <= start < p <= kept[n].at.start
    ensures Moved(md, start, p, Substitute(md, kept, 0), Shift(kept, n))
    decreases p
  {
    GapSurvives(md, kept, n, p - 1);
    if start < p - 1 {
      GapMoves(md, kept, n, start, p - 1);
    }
    OneMoreMoved(md, start, p - 1, Substitute(md, kept, 0), Shift(kept, n));
  }

  /** Between two kept edits a byte is escaped in the result exactly if it was in the source, if some byte before it
      that survives is not a backslash. */
  lemma EscapesSurvive(md: string, kept: seq<Edit>, n: nat, p: int, barrier: int)
    requires Disjoint(kept, 0, |md|) && n < |kept|
    requires (if n == 0 then 0 else kept[n - 1].at.stop) <= barrier <= p <= kept[n].at.start
    requires if n == 0 then barrier == 0 else barrier < p && md[barrier] != '\\'
    ensures 0 <= p + Shift(kept, n) <= |Substitute(md, kept, 0)|
    ensures Escaped(Substitute(md, kept, 0), p + Shift(kept, n)) <==> Escaped(md, p)
  {
    if barrier < p { GapMoves(md, kept, n, barrier, p); }
    SameBackslashes(md, p, Substitute(md, kept, 0), p + Shift(kept, n), p - barrier);
  }

  // ---------------------------------------------------------------- what stands before a degraded embed

  function BangOf(src: string, refs: seq<Reference>, i: nat): Edit
    requires i < |refs| && refs[i].Inline? && 0 <= refs[i].ranges.node.start < |src|
  {
    var bang := Bang(src, refs[i].ranges.node);
    Edit(refs[i].arg, bang, if bang.start < refs[i].ranges.node.start then "\\!" else "", i)
  }

  /** A byte that is neither a backslash nor a "!" separates an edit before the embed from it. */
  lemma BarrierBefore(src: string, refs: seq<Reference>, args: seq<Argument>, i: nat, f: Edit) returns (p: int)
    requires WellNested(src, refs, args) && Indexed(src, refs, args) && Live(src, refs, args, i)
    requires Degraded(src, refs, args, i) && LinesApart(src, refs, args, i)
    requires PlannedBy(src, refs, args, f.ref, f) && f.at.stop <= Bang(src, refs[i].ranges.node).start
    ensures 0 <= p && f.at.stop <= p < Bang(src, refs[i].ranges.node).start && src[p] != '\\' && src[p] != '!'
  {
    var j, a, b := f.ref, refs[i], refs[f.ref];
    assert InPlace(src, a);
    if b.ByDefinition? {
      assert Compatible(b, a);
      DefinitionEdit(b.arg, b.dests, args[b.arg].url, j, f);
      var k :| 0 <= k < |b.dests| && b.dests[k] == Some(f.at);
      assert DefinitionsApart(src, b, a.ranges.node) && Follows(src, b.dests[k].value, a.ranges.node);
      p :| 0 <= p < |src| && f.at.stop <= p < a.ranges.node.start && src[p] == '\n';
    } else {
      p := BarrierInline(src, refs, args, i, f);
    }
  }

  lemma BarrierInline(src: string, refs: seq<Reference>, args: seq<Argument>, i: nat, f: Edit) returns (p: int)
    requires WellNested(src, refs, args) && Indexed(src, refs, args) && Live(src, refs, args, i)
    requires Degraded(src, refs, args, i) && LinesApart(src, refs, args, i)
    requires PlannedBy(src, refs, args, f.ref, f) && f.at.stop <= Bang(src, refs[i].ranges.node).start
    requires refs[f.ref].Inline?
    ensures 0 <= p && f.at.stop <= p < Bang(src, refs[i].ranges.node).start && src[p] != '\\' && src[p] != '!'
  {
    var j, a, b := f.ref, refs[i], refs[f.ref];
    assert InPlace(src, a) && InPlace(src, b);
    assert j != i;
    assert Compatible(a, b) && !Covers(src, refs, args, i, j);
    InlineEdits(src, j, b, args[b.arg], f);
    if NestedIn(a, b) {
      PartEdits(src, j, b, args[b.arg], f);
      p := b.ranges.labelText.start - 1;
    } else if NestedIn(b, a) {
      NestedReach(src, b, a, f.at);
      assert false;
    } else if Whole(src, refs, args, j) {
      p := BarrierWhole(src, refs, args, i, j);
    } else {
      p := b.ranges.node.stop - 1;
    }
  }

  /** What follows a player that stands alone is in another block. */
  lemma BarrierWhole(src: string, refs: seq<Reference>, args: seq<Argument>, i: nat, j: nat) returns (p: int)
    requires i < |refs| && refs[i].Inline? && InPlace(src, refs[i]) && LinesApart(src, refs, args, i)
    requires Whole(src, refs, args, j) && refs[j].ranges.node.stop <= refs[i].ranges.node.start
    ensures 0 <= p && refs[j].ranges.node.stop <= p < refs[i].ranges.node.start && src[p] == '\n'
  {
    var a, b := refs[i], refs[j];
    var bracket := a.ranges.labelText.start - 1;
    if bracket < b.block.hi { SpaceBehind(src, b.block, b.ranges.node, bracket); }
    if b.block != a.block {
      assert Follows(src, b.ranges.node, a.ranges.node);
      p :| 0 <= p < |src| && b.ranges.node.stop <= p < a.ranges.node.start && src[p] == '\n';
    }
  }

  /** No edit starts at the bracket that is left behind. */
  lemma BracketClear(src: string, refs: seq<Reference>, args: seq<Argument>, i: nat, f: Edit)
    requires WellNested(src, refs, args) && Indexed(src, refs, args) && Live(src, refs, args, i)
    requires Degraded(src, refs, args, i) && PlannedBy(src, refs, args, f.ref, f)
    ensures f.at.start != refs[i].ranges.node.start + 1
  {
    var j, a, b := f.ref, refs[i], refs[f.ref];
    assert InPlace(src, a);
    if j == i {
    } else if b.ByDefinition? {
      assert Compatible(b, a);
      DefinitionEdit(b.arg, b.dests, args[b.arg].url, j, f);
    } else {
      assert Compatible(a, b) && !Covers(src, refs, args, i, j);
      InlineEdits(src, j, b, args[b.arg], f);
      if NestedIn(a, b) {
        PartEdits(src, j, b, args[b.arg], f);
      } else if NestedIn(b, a) {
        NestedReach(src, b, a, f.at);
      }
    }
  }

  lemma BracketOutside(src: string, refs: seq<Reference>, args: seq<Argument>, i: nat, n: nat)
    requires WellNested(src, refs, args) && Indexed(src, refs, args) && Live(src, refs, args, i)
    requires Degraded(src, refs, args, i) && n < |KeptInPlan(src, refs, args)|
    requires KeptInPlan(src, refs, args)[n] == BangOf(src, refs, i)
    ensures Outside(KeptInPlan(src, refs, args), refs[i].ranges.node.start + 1, n + 1)
  {
    var kept := KeptInPlan(src, refs, args);
    forall k | n < k < |kept| ensures refs[i].ranges.node.start + 1 < kept[k].at.start {
      assert kept[k] in kept;
      KeptPlanned(src, refs, args, kept[k]);
      BracketClear(src, refs, args, i, kept[k]);
    }
  }

  // ---------------------------------------------------------------- the result

  /** The bracket at `q` opens no image. */
  predicate OpensLink(out: string, q: int) {
    0 <= q < |out| && out[q] == '[' && (q > 0 ==> !Markup(out, q - 1, '!'))
  }

  /** The edit at `n` takes the "!" of the embed away, and `barrier` is a byte between it and the edit before it. */
  predicate TakesBang(src: string, kept: seq<Edit>, n: nat, node: ByteRange, barrier: int) {
    n < |kept| && 0 <= node.start < |src| && kept[n].at == Bang(src, node) &&
    (if n == 0 then 0 else kept[n - 1].at.stop) <= barrier <= kept[n].at.start <= |src| &&
    if n == 0 then barrier == 0
    else 0 <= barrier < kept[n].at.start && src[barrier] != '\\' && src[barrier] != '!'
  }

  /** A "!" before it that counts as markup becomes an escaped one. */
  lemma BangEscaped(src: string, kept: seq<Edit>, n: nat, node: ByteRange, barrier: int)
    requires Disjoint(kept, 0, |src|) && TakesBang(src, kept, n, node, barrier)
    requires kept[n].at.start < node.start && kept[n].text == "\\!"
    ensures var b := kept[n].at.start + Shift(kept, n);
            0 <= b && b + 2 <= |Substitute(src, kept, 0)| && !Markup(Substitute(src, kept, 0), b + 1, '!')
  {
    BangFound(src, kept, n, node, barrier);
    TextAt(src, kept, n);
    EscapesSurvive(src, kept, n, kept[n].at.start, barrier);
    BackslashEscapes(Substitute(src, kept, 0), kept[n].at.start + Shift(kept, n));
  }

  lemma BangFound(src: string, kept: seq<Edit>, n: nat, node: ByteRange, barrier: int)
    requires TakesBang(src, kept, n, node, barrier) && kept[n].at.start < node.start
    ensures 0 <= kept[n].at.start < |src| && Markup(src, kept[n].at.start, '!')
  {
  }

  lemma BackslashEscapes(out: string, b: int)
    requires HasAt(out, b, "\\!") && !Escaped(out, b)
    ensures !Markup(out, b + 1, '!')
  {
    assert out[b..b + 2][0] == out[b];
    ForwardAgreesWithBackward(out, b);
  }

  /** Any other byte before it stays what it was. */
  lemma NoBangBefore(src: string, kept: seq<Edit>, n: nat, node: ByteRange, barrier: int)
    requires Disjoint(kept, 0, |src|) && TakesBang(src, kept, n, node, barrier)
    requires kept[n].at.start == node.start && kept[n].text == ""
    ensures var b := kept[n].at.start + Shift(kept, n);
            0 <= b <= |Substitute(src, kept, 0)| && (b > 0 ==> !Markup(Substitute(src, kept, 0), b - 1, '!'))
  {
    TextAt(src, kept, n);
    if n > 0 || node.start > 0 {
      GapSurvives(src, kept, n, node.start - 1);
      if src[node.start - 1] == '!' { EscapesSurvive(src, kept, n, node.start - 1, barrier); }
    }
  }

  lemma BangTaken(src: string, refs: seq<Reference>, args: seq<Argument>, i: nat) returns (n: nat, barrier: int)
    requires WellNested(src, refs, args) && Indexed(src, refs, args) && Live(src, refs, args, i)
    requires Degraded(src, refs, args, i) && LinesApart(src, refs, args, i)
    ensures TakesBang(src, KeptInPlan(src, refs, args), n, refs[i].ranges.node, barrier)
    ensures KeptInPlan(src, refs, args)[n] == BangOf(src, refs, i)
  {
    var kept := KeptInPlan(src, refs, args);
    n := KeptAt(src, refs, args, i, BangOf(src, refs, i));
    barrier := 0;
    if n > 0 {
      assert kept[n - 1] in kept;
      KeptPlanned(src, refs, args, kept[n - 1]);
      barrier := BarrierBefore(src, refs, args, i, kept[n - 1]);
    }
  }

  lemma BracketStaysLink(src: string, kept: seq<Edit>, n: nat, node: ByteRange, barrier: int)
    requires Disjoint(kept, 0, |src|) && TakesBang(src, kept, n, node, barrier) && Outside(kept, node.start + 1, n + 1)
    requires kept[n].text == if kept[n].at.start < node.start then "\\!" else ""
    requires node.start + 1 < |src| && src[node.start + 1] == '['
    ensures OpensLink(Substitute(src, kept, 0), node.start + 1 + Shift(kept, n + 1))
  {
    ByteAt(src, kept, node.start + 1, n + 1);
    NoBangLeft(src, kept, n, node, barrier);
  }

  lemma NoBangLeft(src: string, kept: seq<Edit>, n: nat, node: ByteRange, barrier: int)
    requires Disjoint(kept, 0, |src|) && TakesBang(src, kept, n, node, barrier)
    requires kept[n].text == if kept[n].at.start < node.start then "\\!" else ""
    ensures var q := node.start + 1 + Shift(kept, n + 1);
            0 <= q <= |Substitute(src, kept, 0)| && (q > 0 ==> !Markup(Substitute(src, kept, 0), q - 1, '!'))
  {
    BehindBang(src, kept, n, node, barrier);
    if kept[n].at.start < node.start {
      BangEscaped(src, kept, n, node, barrier);
    } else {
      NoBangBefore(src, kept, n, node, barrier);
    }
  }

  lemma BehindBang(src: string, kept: seq<Edit>, n: nat, node: ByteRange, barrier: int)
    requires TakesBang(src, kept, n, node, barrier)
    requires kept[n].text == if kept[n].at.start < node.start then "\\!" else ""
    ensures node.start + 1 + Shift(kept, n + 1) ==
            kept[n].at.start + Shift(kept, n) + if kept[n].at.start < node.start then 2 else 0
  {
  }

  /** Wherever a player's embed degrades to a link, the bracket it leaves behind opens a link: no "!" that counts as
      markup stands before it in the result, whatever stood before it in the source. */
  lemma DegradedStaysLink(src: string, refs: seq<Reference>, args: seq<Argument>, i: nat) returns (q: int, n: nat)
    requires WellNested(src, refs, args) && Indexed(src, refs, args) && Live(src, refs, args, i)
    requires Degraded(src, refs, args, i) && LinesApart(src, refs, args, i)
    ensures OpensLink(Rewritten(src, refs, args), q)
    ensures Outside(KeptInPlan(src, refs, args), refs[i].ranges.node.start + 1, n)
    ensures q == refs[i].ranges.node.start + 1 + Shift(KeptInPlan(src, refs, args), n)
  {
    var m, barrier := BangTaken(src, refs, args, i);
    BracketOutside(src, refs, args, i, m);
    assert InPlace(src, refs[i]);
    BracketStaysLink(src, KeptInPlan(src, refs, args), m, refs[i].ranges.node, barrier);
    n := m + 1;
    q := refs[i].ranges.node.start + 1 + Shift(KeptInPlan(src, refs, args), n);
  }

  // ---------------------------------------------------------------- the caption

  /** No other edit touches an empty label or the brackets around it. */
  lemma LabelClear(src: string, refs: seq<Reference>, args: seq<Argument>, i: nat, f: Edit)
    requires WellNested(src, refs, args) && Indexed(src, refs, args) && Live(src, refs, args, i)
    requires Degraded(src, refs, args, i) && refs[i].ranges.labelText.start == refs[i].ranges.labelText.stop
    requires PlannedBy(src, refs, args, f.ref, f) && f.at != refs[i].ranges.labelText
    ensures f.at.stop < refs[i].ranges.labelText.start || refs[i].ranges.labelText.stop < f.at.start
  {
    var j, a, b := f.ref, refs[i], refs[f.ref];
    assert InPlace(src, a);
    if j == i {
    } else if b.ByDefinition? {
      assert Compatible(b, a);
      DefinitionEdit(b.arg, b.dests, args[b.arg].url, j, f);
    } else {
      assert Compatible(a, b) && !Covers(src, refs, args, i, j);
      InlineEdits(src, j, b, args[b.arg], f);
      if NestedIn(a, b) {
        PartEdits(src, j, b, args[b.arg], f);
      } else if NestedIn(b, a) {
        NestedReach(src, b, a, f.at);
      }
    }
  }

  lemma CaptionOutside(src: string, refs: seq<Reference>, args: seq<Argument>, i: nat, n: nat)
    requires WellNested(src, refs, args) && Indexed(src, refs, args) && Live(src, refs, args, i)
    requires Degraded(src, refs, args, i) && refs[i].ranges.labelText.start == refs[i].ranges.labelText.stop
    requires n < |KeptInPlan(src, refs, args)| && KeptInPlan(src, refs, args)[n].at == refs[i].ranges.labelText
    requires KeptInPlan(src, refs, args)[n].ref == i
    ensures var at := refs[i].ranges.labelText;
            0 < at.start && at.stop < |src| && src[at.start - 1] == '[' && src[at.stop] == ']' &&
            Outside(KeptInPlan(src, refs, args), at.start - 1, n) &&
            Outside(KeptInPlan(src, refs, args), at.stop, n + 1)
  {
    var kept, at := KeptInPlan(src, refs, args), refs[i].ranges.labelText;
    assert InPlace(src, refs[i]);
    forall k | 0 <= k < |kept| && k != n
      ensures if k < n then kept[k].at.stop <= at.start - 1 else at.stop < kept[k].at.start
    {
      assert kept[k] in kept;
      KeptRelated(src, refs, args, k, n);
      KeptPlanned(src, refs, args, kept[k]);
      LabelClear(src, refs, args, i, kept[k]);
      assert if k < n then kept[k].at.stop <= kept[n].at.start else kept[n].at.stop <= kept[k].at.start;
    }
  }

  function CaptionOf(r: Reference, alt: string, i: nat): Edit
    requires r.Inline?
  {
    Edit(r.arg, r.ranges.labelText, EscapeAlt(alt), i)
  }

  lemma CaptionPlanned(src: string, i: nat, r: Reference, a: Argument)
    requires r.Inline? && InPlace(src, r) && a.url != "" && a.rendersAsPlayer && r.isEmbed
    requires !StandsAlone(src, r.block, r.ranges.node) && r.ranges.labelText.start == r.ranges.labelText.stop
    ensures CaptionOf(r, a.alt, i) in EditsOf(src, i, r, a)
  {
    assert EditsOf(src, i, r, a)[1] == CaptionOf(r, a.alt, i);
  }

  lemma CaptionKept(src: string, refs: seq<Reference>, args: seq<Argument>, i: nat) returns (n: nat)
    requires WellNested(src, refs, args) && Indexed(src, refs, args) && Live(src, refs, args, i)
    requires Degraded(src, refs, args, i) && refs[i].ranges.labelText.start == refs[i].ranges.labelText.stop
    ensures n < |KeptInPlan(src, refs, args)|
    ensures KeptInPlan(src, refs, args)[n] == CaptionOf(refs[i], args[refs[i].arg].alt, i)
  {
    CaptionPlanned(src, i, refs[i], args[refs[i].arg]);
    n := KeptAt(src, refs, args, i, CaptionOf(refs[i], args[refs[i].arg].alt, i));
  }

  /** The text of the edit stands between the two brackets that its range lies between. */
  ghost predicate Bracketed(src: string, kept: seq<Edit>, n: nat)
    requires Disjoint(kept, 0, |src|) && n < |kept|
  {
    var out, p := Substitute(src, kept, 0), kept[n].at.start + Shift(kept, n);
    0 < p && p + |kept[n].text| < |out| && HasAt(out, p, kept[n].text) &&
    out[p - 1] == '[' && out[p + |kept[n].text|] == ']'
  }

  lemma BracketedStands(src: string, kept: seq<Edit>, n: nat)
    requires Disjoint(kept, 0, |src|) && n < |kept| && 0 < kept[n].at.start && kept[n].at.stop < |src|
    requires Outside(kept, kept[n].at.start - 1, n) && Outside(kept, kept[n].at.stop, n + 1)
    requires src[kept[n].at.start - 1] == '[' && src[kept[n].at.stop] == ']'
    ensures Bracketed(src, kept, n)
  {
    TextsStandBetween(src, kept, n);
  }

  /** An embed without alt text that degrades to a link gets a caption between its brackets: the alt text of the
      file. */
  lemma DegradedCaption(src: string, refs: seq<Reference>, args: seq<Argument>, i: nat) returns (n: nat)
    requires WellNested(src, refs, args) && Indexed(src, refs, args) && Live(src, refs, args, i)
    requires Degraded(src, refs, args, i) && refs[i].ranges.labelText.start == refs[i].ranges.labelText.stop
    ensures n < |KeptInPlan(src, refs, args)|
    ensures KeptInPlan(src, refs, args)[n].at == refs[i].ranges.labelText
    ensures Captions(KeptInPlan(src, refs, args)[n].text, args[refs[i].arg].alt)
    ensures Bracketed(src, KeptInPlan(src, refs, args), n)
  {
    AltCaptions(args[refs[i].arg].alt);
    n := CaptionKept(src, refs, args, i);
    CaptionOutside(src, refs, args, i, n);
    BracketedStands(src, KeptInPlan(src, refs, args), n);
  }
}

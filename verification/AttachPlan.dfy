/** Which edits repoint the references of one document at the uploaded files, and what becomes of them. */
module AttachPlan {
  import opened Wrappers
  import opened MarkdownScan
  import opened MarkdownEdits

  /** A file named on the command line. An empty URL means that it did not upload. */
  datatype Argument = Argument(path: string, url: string, alt: string, rendersAsPlayer: bool)

  datatype Block = Block(isParagraph: bool, lo: int, hi: int)

  /** A markdown reference to the `arg`-th file: written inline, or through link reference definitions, each with the
      range of its destination if that could be located safely. */
  datatype Reference =
    | Inline(arg: nat, isEmbed: bool, ranges: RefRanges, block: Block)
    | ByDefinition(arg: nat, isEmbed: bool, dests: seq<Option<ByteRange>>)

  predicate AllSpace(s: string) {
    forall i :: 0 <= i < |s| ==> IsSpace(s[i])
  }

  /** The node is the whole content of a paragraph. */
  predicate StandsAlone(src: string, block: Block, node: ByteRange) {
    block.isParagraph && 0 <= block.lo <= node.start <= node.stop <= block.hi <= |src| &&
    AllSpace(src[block.lo..node.start]) && AllSpace(src[node.stop..block.hi])
  }

  lemma SpaceBehind(src: string, block: Block, node: ByteRange, p: int)
    requires StandsAlone(src, block, node) && node.stop <= p < block.hi
    ensures IsSpace(src[p])
  {
    assert src[node.stop..block.hi][p - node.stop] == src[p];
  }

  method CheckStandsAlone(src: string, block: Block, node: ByteRange) returns (alone: bool)
    requires 0 <= block.lo <= block.hi <= |src| && node.start <= node.stop
    ensures alone == StandsAlone(src, block, node)
  {
    if !block.isParagraph || node.start < block.lo || node.stop > block.hi { return false; }
    for i := block.lo to node.start
      invariant forall j :: block.lo <= j < i ==> IsSpace(src[j])
    {
      if !IsSpace(src[i]) {
        assert src[block.lo..node.start][i - block.lo] == src[i];
        return false;
      }
    }
    for i := node.stop to block.hi
      invariant forall j :: node.stop <= j < i ==> IsSpace(src[j])
    {
      if !IsSpace(src[i]) {
        assert src[node.stop..block.hi][i - node.stop] == src[i];
        return false;
      }
    }
    alone := true;
  }

  // ---------------------------------------------------------------- the plan

  /** The "!" that makes an embed, together with a literal "!" before it that would pair with the bracket left
      behind. */
  function Bang(src: string, node: ByteRange): ByteRange
    requires 0 <= node.start < |src|
  {
    if node.start > 0 && Markup(src, node.start - 1, '!') then ByteRange(node.start - 1, node.start + 1)
    else ByteRange(node.start, node.start + 1)
  }

  /** A video embed that cannot play degrades to a link. */
  function Degrade(src: string, i: nat, r: Reference, a: Argument): seq<Edit>
    requires r.Inline? && 0 <= r.ranges.node.start < |src|
  {
    var bang := Bang(src, r.ranges.node);
    var caption := r.ranges.labelText;
    [Edit(r.arg, bang, if bang.start < r.ranges.node.start then "\\!" else "", i)] +
    (if caption.start == caption.stop then [Edit(r.arg, caption, EscapeAlt(a.alt), i)] else []) +
    [Edit(r.arg, r.ranges.dest, a.url, i)]
  }

  function DefinitionEdits(arg: nat, dests: seq<Option<ByteRange>>, url: string, i: nat): seq<Edit> {
    if dests == [] then []
    else DefinitionEdits(arg, dests[..|dests| - 1], url, i) +
         if dests[|dests| - 1].Some? then [Edit(arg, dests[|dests| - 1].value, url, i)] else []
  }

  function EditsOf(src: string, i: nat, r: Reference, a: Argument): seq<Edit>
    requires r.Inline? ==> 0 <= r.ranges.node.start < |src|
  {
    if a.url == "" then []
    else if r.ByDefinition? then DefinitionEdits(r.arg, r.dests, a.url, i)
    else if !(a.rendersAsPlayer && r.isEmbed) then [Edit(r.arg, r.ranges.dest, a.url, i)]
    else if StandsAlone(src, r.block, r.ranges.node) then [Edit(r.arg, r.ranges.node, a.url, i)]
    else Degrade(src, i, r, a)
  }

  /** What the parser's tree and the scanners guarantee about the references of one document. */
  ghost predicate WellNested(src: string, refs: seq<Reference>, args: seq<Argument>) {
    (forall i :: 0 <= i < |refs| ==> refs[i].arg < |args| && (refs[i].Inline? ==> InPlace(src, refs[i])) &&
                                     (refs[i].ByDefinition? ==> DestsInRange(src, refs[i].dests))) &&
    (forall i, j {:trigger Compatible(refs[i], refs[j])} ::
       0 <= i < |refs| && 0 <= j < |refs| && i != j ==> Compatible(refs[i], refs[j])) &&
    (forall i {:trigger DestsApart(refs[i].dests)} ::
       0 <= i < |refs| && refs[i].ByDefinition? ==> DestsApart(refs[i].dests))
  }

  predicate InPlace(src: string, r: Reference)
    requires r.Inline?
  {
    Located(src, r.block.hi, r.ranges) && 0 <= r.block.lo <= r.ranges.node.start &&
    (r.isEmbed <==> src[r.ranges.node.start] == '!')
  }

  ghost predicate DestsInRange(src: string, dests: seq<Option<ByteRange>>) {
    forall k :: 0 <= k < |dests| && dests[k].Some? ==> 0 <= dests[k].value.start < dests[k].value.stop <= |src|
  }

  ghost predicate DestsApart(dests: seq<Option<ByteRange>>) {
    forall k, m :: 0 <= k < |dests| && 0 <= m < |dests| && k != m && dests[k].Some? && dests[m].Some? ==>
      Apart(dests[k].value, dests[m].value)
  }

  predicate Apart(x: ByteRange, y: ByteRange) {
    (x.start < y.start && x.stop <= y.start) || (y.start < x.start && y.stop <= x.start)
  }

  predicate NestedIn(a: Reference, b: Reference)
    requires a.Inline? && b.Inline?
  {
    b.ranges.labelText.start <= a.ranges.node.start && a.ranges.node.stop <= b.ranges.labelText.stop &&
    a.block == b.block
  }

  /** Two references lie beside each other or one lies in the label of the other; a definition lies in a block of its
      own, and two references that share a definition name the same file. */
  ghost predicate Compatible(a: Reference, b: Reference) {
    match (a, b)
    case (Inline(_, _, r, _), Inline(_, _, s, _)) =>
      r.node.stop <= s.node.start || s.node.stop <= r.node.start || NestedIn(a, b) || NestedIn(b, a)
    case (Inline(_, _, r, _), ByDefinition(_, _, ds)) => Clear(r.node, ds)
    case (ByDefinition(_, _, ds), Inline(_, _, r, _)) => Clear(r.node, ds)
    case (ByDefinition(x, _, ds), ByDefinition(y, _, es)) =>
      forall k, m :: 0 <= k < |ds| && 0 <= m < |es| && ds[k].Some? && es[m].Some? ==>
        (ds[k].value == es[m].value && x == y) || Apart(ds[k].value, es[m].value)
  }

  ghost predicate Clear(node: ByteRange, ds: seq<Option<ByteRange>>) {
    forall k :: 0 <= k < |ds| && ds[k].Some? ==> ds[k].value.stop < node.start || node.stop <= ds[k].value.start
  }

  /** The edits planned for each reference, in document order. */
  function Parts(src: string, refs: seq<Reference>, args: seq<Argument>): seq<seq<Edit>>
    requires Indexed(src, refs, args)
  {
    seq(|refs|, i requires 0 <= i < |refs| => EditsOf(src, i, refs[i], args[refs[i].arg]))
  }

  ghost predicate Indexed(src: string, refs: seq<Reference>, args: seq<Argument>) {
    forall i :: 0 <= i < |refs| ==> refs[i].arg < |args| && (refs[i].Inline? ==> 0 <= refs[i].ranges.node.start < |src|)
  }

  function Plan(src: string, refs: seq<Reference>, args: seq<Argument>): seq<Edit>
    requires Indexed(src, refs, args)
  {
    Flatten(Parts(src, refs, args))
  }

  // ---------------------------------------------------------------- how planned edits relate

  /** The reference is replaced as a whole by the bare URL of a player. */
  predicate Whole(src: string, refs: seq<Reference>, args: seq<Argument>, i: nat) {
    i < |refs| && refs[i].Inline? && refs[i].arg < |args| && args[refs[i].arg].url != "" &&
    args[refs[i].arg].rendersAsPlayer && refs[i].isEmbed && StandsAlone(src, refs[i].block, refs[i].ranges.node)
  }

  predicate Swallowed(src: string, refs: seq<Reference>, args: seq<Argument>, e: Edit, f: Edit) {
    Whole(src, refs, args, f.ref) && !Whole(src, refs, args, e.ref) && e.ref < |refs| && refs[e.ref].Inline? &&
    NestedIn(refs[e.ref], refs[f.ref]) && f.at.start < e.at.start < f.at.stop
  }

  predicate Related(src: string, refs: seq<Reference>, args: seq<Argument>, e: Edit, f: Edit) {
    Apart(e.at, f.at) || Swallowed(src, refs, args, e, f) || Swallowed(src, refs, args, f, e) ||
    (e.ref < |refs| && refs[e.ref].ByDefinition? && f.ref < |refs| && refs[f.ref].ByDefinition? && e.at == f.at)
  }

  /** Where an edit of an inline reference can lie: inside its node, or one byte before it on a literal "!". */
  predicate InReach(src: string, node: ByteRange, at: ByteRange)
    requires 0 <= node.start < node.stop <= |src|
  {
    at.start <= at.stop <= node.stop && at.start < node.stop &&
    (node.start <= at.start || (0 <= at.start == node.start - 1 && src[at.start] == '!'))
  }

  lemma InlineEdits(src: string, i: nat, r: Reference, a: Argument, e: Edit)
    requires r.Inline? && InPlace(src, r) && e in EditsOf(src, i, r, a)
    ensures e.ref == i && e.arg == r.arg && InReach(src, r.ranges.node, e.at)
  {
  }

  lemma {:induction false} DefinitionEdit(arg: nat, dests: seq<Option<ByteRange>>, url: string, i: nat, e: Edit)
    requires e in DefinitionEdits(arg, dests, url, i)
    ensures e.ref == i && e.arg == arg && e.text == url
    ensures exists k :: 0 <= k < |dests| && dests[k] == Some(e.at)
    decreases |dests|
  {
    var front := dests[..|dests| - 1];
    if e in DefinitionEdits(arg, front, url, i) {
      DefinitionEdit(arg, front, url, i, e);
      var k :| 0 <= k < |front| && front[k] == Some(e.at);
      assert dests[k] == front[k];
    }
  }

  lemma OuterIsNotAlone(src: string, a: Reference, b: Reference)
    requires a.Inline? && b.Inline? && InPlace(src, a) && InPlace(src, b) && NestedIn(a, b)
    ensures !StandsAlone(src, a.block, a.ranges.node)
  {
    var p := b.ranges.labelText.start - 1;
    assert src[a.block.lo..a.ranges.node.start][p - a.block.lo] == '[';
  }

  /** An edit that leaves the label of its reference in place lies before or behind a label that is not empty. */
  lemma PartEdits(src: string, j: nat, b: Reference, a: Argument, f: Edit)
    requires b.Inline? && InPlace(src, b) && f in EditsOf(src, j, b, a)
    requires !(a.rendersAsPlayer && b.isEmbed && StandsAlone(src, b.block, b.ranges.node))
    requires b.ranges.labelText.start < b.ranges.labelText.stop
    ensures f.at.start <= f.at.stop
    ensures f.at.start < f.at.stop < b.ranges.labelText.start || b.ranges.labelText.stop < f.at.start
  {
  }

  lemma NestedReach(src: string, a: Reference, b: Reference, at: ByteRange)
    requires a.Inline? && b.Inline? && InPlace(src, a) && InPlace(src, b) && NestedIn(a, b)
    requires InReach(src, a.ranges.node, at)
    ensures b.ranges.labelText.start <= at.start <= at.stop <= b.ranges.labelText.stop
    ensures at.start < b.ranges.labelText.stop
  {
  }

  lemma NestedRelated(src: string, refs: seq<Reference>, args: seq<Argument>, i: nat, j: nat, e: Edit, f: Edit)
    requires WellNested(src, refs, args) && i < |refs| && j < |refs| && i != j
    requires refs[i].Inline? && refs[j].Inline? && NestedIn(refs[i], refs[j])
    requires e in EditsOf(src, i, refs[i], args[refs[i].arg]) && f in EditsOf(src, j, refs[j], args[refs[j].arg])
    ensures Related(src, refs, args, e, f)
  {
    var a, b := refs[i], refs[j];
    InlineEdits(src, i, a, args[a.arg], e);
    NestedReach(src, a, b, e.at);
    OuterIsNotAlone(src, a, b);
    if Whole(src, refs, args, j) {
      assert EditsOf(src, j, b, args[b.arg]) == [Edit(b.arg, b.ranges.node, args[b.arg].url, j)];
      assert Swallowed(src, refs, args, e, f);
    } else {
      PartEdits(src, j, b, args[b.arg], f);
    }
  }

  lemma BesideRelated(src: string, a: Reference, b: Reference, e: Edit, f: Edit)
    requires a.Inline? && b.Inline? && InPlace(src, a) && InPlace(src, b) && a.ranges.node.stop <= b.ranges.node.start
    requires InReach(src, a.ranges.node, e.at) && InReach(src, b.ranges.node, f.at)
    ensures Apart(e.at, f.at)
  {
    assert src[a.ranges.node.stop - 1] == ')';
  }

  lemma DefinitionsRelated(src: string, refs: seq<Reference>, args: seq<Argument>, i: nat, j: nat, e: Edit, f: Edit)
    requires WellNested(src, refs, args) && i < |refs| && j < |refs| && i != j && refs[i].ByDefinition?
    requires e in EditsOf(src, i, refs[i], args[refs[i].arg]) && f in EditsOf(src, j, refs[j], args[refs[j].arg])
    ensures Related(src, refs, args, e, f)
  {
    assert Compatible(refs[i], refs[j]);
    DefinitionEdit(refs[i].arg, refs[i].dests, args[refs[i].arg].url, i, e);
    var k :| 0 <= k < |refs[i].dests| && refs[i].dests[k] == Some(e.at);
    if refs[j].Inline? {
      InlineEdits(src, j, refs[j], args[refs[j].arg], f);
    } else {
      DefinitionEdit(refs[j].arg, refs[j].dests, args[refs[j].arg].url, j, f);
      var m :| 0 <= m < |refs[j].dests| && refs[j].dests[m] == Some(f.at);
    }
  }

  lemma CrossRelated(src: string, refs: seq<Reference>, args: seq<Argument>, i: nat, j: nat, e: Edit, f: Edit)
    requires WellNested(src, refs, args) && i < |refs| && j < |refs| && i != j
    requires e in EditsOf(src, i, refs[i], args[refs[i].arg]) && f in EditsOf(src, j, refs[j], args[refs[j].arg])
    ensures Related(src, refs, args, e, f)
  {
    var a, b := refs[i], refs[j];
    assert Compatible(a, b);
    if a.ByDefinition? {
      DefinitionsRelated(src, refs, args, i, j, e, f);
    } else if b.ByDefinition? {
      DefinitionsRelated(src, refs, args, j, i, f, e);
    } else if NestedIn(a, b) {
      NestedRelated(src, refs, args, i, j, e, f);
    } else if NestedIn(b, a) {
      NestedRelated(src, refs, args, j, i, f, e);
    } else {
      InlineEdits(src, i, a, args[a.arg], e);
      InlineEdits(src, j, b, args[b.arg], f);
      if a.ranges.node.stop <= b.ranges.node.start {
        BesideRelated(src, a, b, e, f);
      } else {
        BesideRelated(src, b, a, f, e);
      }
    }
  }
}

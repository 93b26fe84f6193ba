/** Several documents at once: checking them all before the first upload, uploading, and attaching to each. */
module AttachDocuments {
  import opened Wrappers
  import opened MarkdownScan
  import opened MarkdownEdits
  import opened AttachPlan
  import opened AttachRewrite
  import opened AttachPlaces
  import opened Attach

  /** A document as the parser read it: the references it makes to the attached files, or none if the scan failed. */
  datatype Document = Document(markdown: string, refs: Option<seq<Reference>>)

  datatype DocumentResult = DocumentResult(markdown: string, uploaded: seq<nat>, appendOperations: nat,
                                           replaceOperations: nat, failed: bool)

  datatype Refusal = ScanFailed | VideoReferenceImage(args: seq<nat>) | UnreferencedFiles(assets: seq<nat>)

  ghost predicate DistinctPaths(assets: seq<Asset>) {
    forall i, j :: 0 <= i < j < |assets| ==> assets[i].path != assets[j].path
  }

  /** The attachments with a URL, in the order in which they were attached. */
  function UploadedOf(isAttachment: seq<bool>, urls: seq<string>, n: nat): seq<nat>
    requires n <= |isAttachment| == |urls|
  {
    if n == 0 then []
    else UploadedOf(isAttachment, urls, n - 1) + if isAttachment[n - 1] && urls[n - 1] != "" then [n - 1] else []
  }

  lemma {:induction false} UploadedOfIff(isAttachment: seq<bool>, urls: seq<string>, n: nat, i: nat)
    requires n <= |isAttachment| == |urls|
    ensures i in UploadedOf(isAttachment, urls, n) <==> i < n && isAttachment[i] && urls[i] != ""
  {
    if n > 0 { UploadedOfIff(isAttachment, urls, n - 1, i); }
  }

  /** The files as the references are matched with them, those that the document lists with their URLs. */
  function Filled(assets: seq<Asset>, isAttachment: seq<bool>, urls: seq<string>): (r: seq<Argument>)
    requires |assets| == |isAttachment| == |urls|
    ensures |r| == |assets|
    ensures forall i :: 0 <= i < |r| ==>
              r[i].path == assets[i].path && r[i].alt == assets[i].alt && r[i].rendersAsPlayer == assets[i].isVideo &&
              r[i].url == if isAttachment[i] then urls[i] else ""
  {
    seq(|assets|, i requires 0 <= i < |assets| =>
      NewArgument(assets[i]).(url := if isAttachment[i] then urls[i] else ""))
  }

  lemma {:induction false} CountFilled(assets: seq<Asset>, isAttachment: seq<bool>, urls: seq<string>, n: nat)
    requires n <= |assets| == |isAttachment| == |urls|
    ensures CountUploaded(Filled(assets, isAttachment, urls), n) == |UploadedOf(isAttachment, urls, n)|
  {
    if n > 0 { CountFilled(assets, isAttachment, urls, n - 1); }
  }

  lemma {:induction false} UrlByPathFinds(args: seq<Argument>, a: Argument)
    requires a in args && forall x, y :: x in args && y in args && x.path == y.path ==> x.url == y.url
    ensures a.path in UrlByPath(args) && UrlByPath(args)[a.path] == a.url
  {
    var front := args[..|args| - 1];
    if a in front {
      assert forall x :: x in front ==> x in args;
      UrlByPathFinds(front, a);
    }
  }

  lemma {:induction false} UrlByPathNonEmpty(args: seq<Argument>)
    requires forall a :: a in args ==> a.url != ""
    ensures AllNonEmpty(UrlByPath(args))
  {
    if args != [] {
      assert forall x :: x in args[..|args| - 1] ==> x in args;
      UrlByPathNonEmpty(args[..|args| - 1]);
    }
  }

  /** The files that uploaded and are still to be appended once the references are repointed. */
  ghost function ToAppend(src: string, refs: seq<Reference>, args: seq<Argument>): seq<Argument>
    requires args != [] ==> Indexed(src, refs, args)
  {
    if args == [] then [] else Unreferenced(args, Owners(KeptInPlan(src, refs, args)), |args|)
  }

  /** What becomes of the text of a document. */
  ghost function AttachedText(src: string, refs: seq<Reference>, args: seq<Argument>, assets: seq<Asset>): string
    requires args != [] ==> Indexed(src, refs, args)
  {
    Appended(if args == [] then src else Rewritten(src, refs, args), UrlByPath(ToAppend(src, refs, args)), assets,
             |assets|)
  }

  /** The file is where the document names it, or it is displayed by a paragraph of its own. */
  ghost predicate Reached(src: string, refs: seq<Reference>, args: seq<Argument>, assets: seq<Asset>, i: nat)
    requires args != [] ==> Indexed(src, refs, args)
  {
    i < |args| && i < |assets| && args[i].url != "" &&
    if args[i] in ToAppend(src, refs, args) then
      Displayed(AttachedText(src, refs, args, assets), assets[i], args[i].url)
    else exists n :: Lands(src, refs, args, n, i)
  }

  lemma {:induction false} OnlyUnwritten(args: seq<Argument>, written: set<nat>, n: nat, a: Argument)
    requires n <= |args| && a in Unreferenced(args, written, n)
    ensures a.url != "" && exists k :: 0 <= k < n && args[k] == a && k !in written
  {
    if n > 0 && a in Unreferenced(args, written, n - 1) { OnlyUnwritten(args, written, n - 1, a); }
  }

  /** Every uploaded file of a document reaches its text. */
  lemma UploadReached(src: string, refs: seq<Reference>, args: seq<Argument>, assets: seq<Asset>, i: nat)
    requires WellNested(src, refs, args) && Indexed(src, refs, args) && DistinctPaths(assets)
    requires |args| == |assets| && i < |args| && args[i].url != ""
    requires forall k :: 0 <= k < |args| ==> args[k].path == assets[k].path
    ensures Reached(src, refs, args, assets, i)
  {
    var written := Owners(KeptInPlan(src, refs, args));
    var toAppend := ToAppend(src, refs, args);
    if args[i] in toAppend {
      SamePath(args, assets, toAppend, written);
      UrlByPathFinds(toAppend, args[i]);
      AppendedDisplays(Rewritten(src, refs, args), UrlByPath(toAppend), assets, |assets|, i);
    } else {
      if i !in written { UnreferencedHas(args, written, |args|, i); }
      WrittenInPlace(src, refs, args, i);
    }
  }

  lemma SamePath(args: seq<Argument>, assets: seq<Asset>, toAppend: seq<Argument>, written: set<nat>)
    requires |args| == |assets| && DistinctPaths(assets) && toAppend == Unreferenced(args, written, |args|)
    requires forall k :: 0 <= k < |args| ==> args[k].path == assets[k].path
    ensures forall x, y :: x in toAppend && y in toAppend && x.path == y.path ==> x.url == y.url
  {
    forall x, y | x in toAppend && y in toAppend && x.path == y.path ensures x.url == y.url {
      OnlyUnwritten(args, written, |args|, x);
      OnlyUnwritten(args, written, |args|, y);
      var k :| 0 <= k < |args| && args[k] == x;
      var m :| 0 <= m < |args| && args[m] == y;
      assert assets[k].path == assets[m].path;
    }
  }

  lemma AnyArguments(src: string, refs: seq<Reference>, a: seq<Argument>, b: seq<Argument>)
    requires WellNested(src, refs, a) && |a| == |b|
    ensures WellNested(src, refs, b)
  {
  }

  /** Whether a file was repointed in place or is still to be appended, its URL ends up in the result, except that white
      space at its end can get lost. */
  lemma AppendedOrWritten(rewritten: string, toAppend: seq<Argument>, args: seq<Argument>, assets: seq<Asset>, i: nat)
    requires |args| == |assets| && DistinctPaths(assets) && i < |args| && args[i].url != ""
    requires forall k :: 0 <= k < |args| ==> args[k].path == assets[k].path
    requires forall a :: a in toAppend ==> a in args && a.url != ""
    requires args[i] in toAppend || Mentions(rewritten, args[i].url)
    ensures Mentions(Appended(rewritten, UrlByPath(toAppend), assets, |assets|), LastingPart(args[i].url))
  {
    UrlByPathNonEmpty(toAppend);
    if args[i] in toAppend {
      forall x, y | x in toAppend && y in toAppend && x.path == y.path ensures x.url == y.url {
        var k :| 0 <= k < |args| && args[k] == x;
        var m :| 0 <= m < |args| && args[m] == y;
        assert assets[k].path == assets[m].path;
      }
      UrlByPathFinds(toAppend, args[i]);
      AppendedMentions(rewritten, UrlByPath(toAppend), assets, |assets|, i);
    } else {
      PartLasts(args[i].url);
      MentionsPart(rewritten, args[i].url, LastingPart(args[i].url));
      AppendedKeeps(rewritten, UrlByPath(toAppend), assets, |assets|, LastingPart(args[i].url));
    }
  }

  lemma AllMentioned(rewritten: string, toAppend: seq<Argument>, assets: seq<Asset>, isAttachment: seq<bool>,
                     urls: seq<string>)
    requires |assets| == |isAttachment| == |urls| && DistinctPaths(assets)
    requires forall a :: a in toAppend ==> a in Filled(assets, isAttachment, urls) && a.url != ""
    requires forall i :: 0 <= i < |assets| && Filled(assets, isAttachment, urls)[i].url != "" ==>
               Filled(assets, isAttachment, urls)[i] in toAppend ||
               Mentions(rewritten, Filled(assets, isAttachment, urls)[i].url)
    ensures forall i :: i in UploadedOf(isAttachment, urls, |urls|) ==>
              i < |urls| && Mentions(Appended(rewritten, UrlByPath(toAppend), assets, |assets|), LastingPart(urls[i]))
  {
    forall i | i in UploadedOf(isAttachment, urls, |urls|)
      ensures i < |urls| && Mentions(Appended(rewritten, UrlByPath(toAppend), assets, |assets|), LastingPart(urls[i]))
    {
      UploadedOfIff(isAttachment, urls, |urls|, i);
      AppendedOrWritten(rewritten, toAppend, Filled(assets, isAttachment, urls), assets, i);
    }
  }

  /** The text of the document with its references repointed and what is left appended, and every file that uploaded
      where it belongs. */
  ghost predicate Repointed(src: string, refs: seq<Reference>, args: seq<Argument>, assets: seq<Asset>,
                            r: DocumentResult)
  {
    (args != [] ==> Indexed(src, refs, args)) &&
    r.markdown == AttachedText(src, refs, args, assets) && r.appendOperations == |ToAppend(src, refs, args)| &&
    forall i :: i in r.uploaded ==> Reached(src, refs, args, assets, i)
  }

  lemma AllReached(src: string, refs: seq<Reference>, args: seq<Argument>, assets: seq<Asset>, r: DocumentResult,
                   isAttachment: seq<bool>, urls: seq<string>)
    requires |assets| == |isAttachment| == |urls| && DistinctPaths(assets)
    requires args == Filled(assets, isAttachment, urls) && (assets != [] ==> WellNested(src, refs, args))
    requires assets != [] ==> Indexed(src, refs, args)
    requires r.markdown == AttachedText(src, refs, args, assets)
    requires r.appendOperations == |ToAppend(src, refs, args)| && r.uploaded == UploadedOf(isAttachment, urls, |urls|)
    ensures Repointed(src, refs, args, assets, r)
  {
    forall i | i in r.uploaded ensures Reached(src, refs, args, assets, i) {
      UploadedOfIff(isAttachment, urls, |urls|, i);
      UploadReached(src, refs, args, assets, i);
    }
  }

  /** One of the first `n` files is an attachment that did not upload. */
  ghost predicate Missing(isAttachment: seq<bool>, urls: seq<string>, n: nat)
    requires n <= |urls| && n <= |isAttachment|
  {
    exists k :: 0 <= k < n && isAttachment[k] && urls[k] == ""
  }

  lemma MissingSnoc(isAttachment: seq<bool>, urls: seq<string>, n: nat)
    requires n < |urls| && n < |isAttachment|
    ensures Missing(isAttachment, urls, n + 1) <==> Missing(isAttachment, urls, n) || (isAttachment[n] && urls[n] == "")
  {
  }

  /** One document, the arguments it was scanned against, and which of the files are its attachments. */
  class AttachableDocument {
    const markdown: string
    const refs: seq<Reference>
    var args: seq<Argument>
    var isAttachment: seq<bool>

    constructor (markdown: string, refs: seq<Reference>, assets: seq<Asset>)
      ensures this.markdown == markdown && this.refs == refs && args == NewArguments(assets)
      ensures |isAttachment| == |assets| && forall i :: 0 <= i < |assets| ==> !isAttachment[i]
    {
      this.markdown, this.refs := markdown, refs;
      args, isAttachment := NewArguments(assets), seq(|assets|, _ => false);
    }

    ghost predicate Ready(assets: seq<Asset>)
      reads this
    {
      args == NewArguments(assets) && |isAttachment| == |assets|
    }

    /** Points the document at the URLs of its attachments; an empty URL stands for a file that did not upload. */
    method AttachUrls(assets: seq<Asset>, urls: seq<string>, uploadFailed: bool) returns (result: DocumentResult)
      requires Ready(assets) && |urls| == |assets| && DistinctPaths(assets)
      requires assets != [] ==> WellNested(markdown, refs, NewArguments(assets))
      modifies this`args
      ensures result.uploaded == UploadedOf(isAttachment, urls, |urls|)
      ensures args == Filled(assets, isAttachment, urls)
      ensures Repointed(markdown, refs, args, assets, result)
      ensures forall i :: i in result.uploaded ==> i < |urls| && Mentions(result.markdown, LastingPart(urls[i]))
      ensures result.appendOperations + result.replaceOperations == |result.uploaded|
      ensures result.failed <==> uploadFailed && exists i :: 0 <= i < |urls| && isAttachment[i] && urls[i] == ""
    {
      var uploaded, failed := FillUrls(assets, urls, uploadFailed);
      if assets != [] { AnyArguments(markdown, refs, NewArguments(assets), args); }
      var rewritten, toAppend, replaced := AttachAssetsToMarkdown(markdown, refs, args);
      var out := AppendUnreferenced(rewritten, toAppend, assets);
      CountFilled(assets, isAttachment, urls, |assets|);
      AllMentioned(rewritten, toAppend, assets, isAttachment, urls);
      result := DocumentResult(out, uploaded, |toAppend|, replaced, failed);
      AllReached(markdown, refs, args, assets, result, isAttachment, urls);
    }

    method FillUrls(assets: seq<Asset>, urls: seq<string>, uploadFailed: bool)
      returns (uploaded: seq<nat>, failed: bool)
      requires Ready(assets) && |urls| == |assets|
      modifies this`args
      ensures uploaded == UploadedOf(isAttachment, urls, |urls|) && args == Filled(assets, isAttachment, urls)
      ensures failed <==> uploadFailed && Missing(isAttachment, urls, |urls|)
    {
      uploaded, failed := [], false;
      for i := 0 to |assets|
        invariant |args| == |assets| && uploaded == UploadedOf(isAttachment, urls, i)
        invariant failed <==> uploadFailed && Missing(isAttachment, urls, i)
        invariant forall k :: 0 <= k < i ==> args[k] == Filled(assets, isAttachment, urls)[k]
        invariant forall k :: i <= k < |assets| ==> args[k] == NewArgument(assets[k])
      {
        MissingSnoc(isAttachment, urls, i);
        if !isAttachment[i] { continue; }
        if urls[i] == "" {
          failed := uploadFailed;
          continue;
        }
        args := args[i := args[i].(url := urls[i])];
        uploaded := uploaded + [i];
      }
    }
  }

  // ---------------------------------------------------------------- checking every document first

  /** An embed of a video through a definition would become a broken image. */
  predicate Broken(r: Reference, args: seq<Argument>) {
    r.ByDefinition? && r.isEmbed && r.arg < |args| && args[r.arg].rendersAsPlayer
  }

  /** The files that some of the first `n` references embed in a way that no URL can fix, each once, in the order in
      which they are met. */
  function BrokenFiles(refs: seq<Reference>, args: seq<Argument>, n: nat): seq<nat>
    requires n <= |refs|
  {
    if n == 0 then []
    else
      var before, r := BrokenFiles(refs, args, n - 1), refs[n - 1];
      if Broken(r, args) && r.arg !in before then before + [r.arg] else before
  }

  lemma {:induction false} BrokenFilesExact(refs: seq<Reference>, args: seq<Argument>, n: nat)
    requires n <= |refs|
    ensures forall a :: a in BrokenFiles(refs, args, n) <==>
                        exists i :: 0 <= i < n && Broken(refs[i], args) && refs[i].arg == a
  {
    if n > 0 {
      BrokenFilesExact(refs, args, n - 1);
    }
  }

  method CheckVideoReferenceImages(refs: seq<Reference>, args: seq<Argument>) returns (broken: seq<nat>)
    ensures broken == BrokenFiles(refs, args, |refs|)
  {
    broken := [];
    for i := 0 to |refs|
      invariant broken == BrokenFiles(refs, args, i)
    {
      if !Broken(refs[i], args) || refs[i].arg in broken { continue; }
      broken := broken + [refs[i].arg];
    }
  }

  ghost predicate ParsedOne(doc: Document, assets: seq<Asset>) {
    doc.refs.Some? ==> WellNested(doc.markdown, doc.refs.value, NewArguments(assets))
  }

  ghost predicate Parsed(docs: seq<Document>, assets: seq<Asset>) {
    forall d :: 0 <= d < |docs| ==> ParsedOne(docs[d], assets)
  }

  /** Every reference of the document names one of the files. */
  predicate NamesFiles(doc: Document, assets: seq<Asset>) {
    doc.refs.Some? ==> forall k :: 0 <= k < |doc.refs.value| ==> doc.refs.value[k].arg < |assets|
  }

  lemma ParsedNamesFiles(docs: seq<Document>, assets: seq<Asset>)
    requires Parsed(docs, assets)
    ensures forall d :: 0 <= d < |docs| ==> NamesFiles(docs[d], assets)
  {
    forall d | 0 <= d < |docs| ensures NamesFiles(docs[d], assets) {
      assert ParsedOne(docs[d], assets);
    }
  }

  /** The references that count: none are looked for when nothing is attached. */
  function References(doc: Document, assets: seq<Asset>): seq<Reference> {
    if assets == [] || doc.refs.None? then [] else doc.refs.value
  }

  predicate Refers(refs: seq<Reference>, i: nat) {
    exists k :: 0 <= k < |refs| && refs[k].arg == i
  }

  function Marks(refs: seq<Reference>, n: nat): seq<bool> {
    seq(n, i requires 0 <= i < n => Refers(refs, i))
  }

  /** Which files belong to a document: all of them if it is the only one, else those it references. */
  predicate BelongsTo(docs: seq<Document>, assets: seq<Asset>, d: nat, i: nat)
    requires d < |docs|
  {
    |docs| == 1 || Refers(References(docs[d], assets), i)
  }

  /** Some document has the file among its attachments. */
  predicate Wanted(docs: seq<Document>, assets: seq<Asset>, i: nat) {
    exists d: nat :: d < |docs| && BelongsTo(docs, assets, d, i)
  }

  predicate Referenced(docs: seq<Document>, assets: seq<Asset>, n: nat, i: nat)
    requires n <= |docs|
  {
    exists d :: 0 <= d < n && Refers(References(docs[d], assets), i)
  }

  function Attachments(docs: seq<Document>, assets: seq<Asset>, d: nat): seq<bool>
    requires d < |docs|
  {
    seq(|assets|, i requires 0 <= i < |assets| => BelongsTo(docs, assets, d, i))
  }

  method MarkReferenced(doc: AttachableDocument, refs: seq<Reference>, referenced: seq<bool>)
    returns (referenced': seq<bool>)
    requires |doc.isAttachment| == |referenced|
    requires forall k :: 0 <= k < |refs| ==> refs[k].arg < |referenced|
    requires forall i :: 0 <= i < |referenced| ==> !doc.isAttachment[i]
    modifies doc`isAttachment
    ensures doc.isAttachment == Marks(refs, |referenced|)
    ensures |referenced'| == |referenced|
    ensures forall i :: 0 <= i < |referenced| ==> (referenced'[i] <==> referenced[i] || Refers(refs, i))
  {
    referenced' := referenced;
    for k := 0 to |refs|
      invariant |doc.isAttachment| == |referenced'| == |referenced|
      invariant forall i :: 0 <= i < |referenced| ==> (doc.isAttachment[i] <==> Refers(refs[..k], i))
      invariant forall i :: 0 <= i < |referenced| ==> (referenced'[i] <==> referenced[i] || Refers(refs[..k], i))
    {
      forall i | 0 <= i < |referenced|
        ensures Refers(refs[..k + 1], i) <==> Refers(refs[..k], i) || refs[k].arg == i
      {
        RefersSnoc(refs, k, i);
      }
      doc.isAttachment := doc.isAttachment[refs[k].arg := true];
      referenced' := referenced'[refs[k].arg := true];
    }
    assert refs[..|refs|] == refs;
  }

  lemma RefersSnoc(refs: seq<Reference>, k: nat, i: nat)
    requires k < |refs|
    ensures Refers(refs[..k + 1], i) <==> Refers(refs[..k], i) || refs[k].arg == i
  {
    if refs[k].arg == i { assert refs[..k + 1][k].arg == i; }
    if Refers(refs[..k], i) {
      var m :| 0 <= m < k && refs[..k][m].arg == i;
      assert refs[..k + 1][m].arg == i;
    }
    if Refers(refs[..k + 1], i) && refs[k].arg != i {
      var m :| 0 <= m < k + 1 && refs[..k + 1][m].arg == i;
      assert refs[..k][m].arg == i;
    }
  }

  /** Why a document cannot take any upload, if it cannot. */
  function DocumentRefusal(doc: Document, assets: seq<Asset>): Option<Refusal> {
    if assets == [] then None
    else if doc.refs.None? then Some(ScanFailed)
    else
      var broken := BrokenFiles(doc.refs.value, NewArguments(assets), |doc.refs.value|);
      if broken != [] then Some(VideoReferenceImage(broken)) else None
  }

  /** The first refusal among the first `n` documents. */
  function FirstRefusal(docs: seq<Document>, assets: seq<Asset>, n: nat): Option<Refusal>
    requires n <= |docs|
  {
    if n == 0 then None
    else
      var before := FirstRefusal(docs, assets, n - 1);
      if before.Some? then before else DocumentRefusal(docs[n - 1], assets)
  }

  function UnreferencedBelow(docs: seq<Document>, assets: seq<Asset>, n: nat): seq<nat> {
    if n == 0 then []
    else
      UnreferencedBelow(docs, assets, n - 1) + if Referenced(docs, assets, |docs|, n - 1) then [] else [n - 1]
  }

  function RefusalOf(docs: seq<Document>, assets: seq<Asset>): Option<Refusal> {
    var first, left := FirstRefusal(docs, assets, |docs|), UnreferencedBelow(docs, assets, |assets|);
    if first.Some? then first
    else if |docs| != 1 && left != [] then Some(UnreferencedFiles(left))
    else None
  }

  /** Nothing in the document is beyond repair. */
  predicate Acceptable(doc: Document, assets: seq<Asset>) {
    assets == [] ||
    (doc.refs.Some? &&
     forall i :: 0 <= i < |doc.refs.value| ==> !Broken(doc.refs.value[i], NewArguments(assets)))
  }

  lemma DocumentRefusalIff(doc: Document, assets: seq<Asset>)
    ensures DocumentRefusal(doc, assets).None? <==> Acceptable(doc, assets)
  {
    if assets != [] && doc.refs.Some? {
      var refs, args := doc.refs.value, NewArguments(assets);
      var broken := BrokenFiles(refs, args, |refs|);
      BrokenFilesExact(refs, args, |refs|);
      forall i | 0 <= i < |refs| && Broken(refs[i], args)
        ensures refs[i].arg in broken
      {
      }
      if broken != [] {
        assert broken[0] in broken;
      }
    }
  }

  lemma {:induction false} FirstRefusalIff(docs: seq<Document>, assets: seq<Asset>, n: nat)
    requires n <= |docs|
    ensures FirstRefusal(docs, assets, n).None? <==> forall d :: 0 <= d < n ==> Acceptable(docs[d], assets)
  {
    if n > 0 {
      FirstRefusalIff(docs, assets, n - 1);
      DocumentRefusalIff(docs[n - 1], assets);
    }
  }

  lemma {:induction false} UnreferencedExact(docs: seq<Document>, assets: seq<Asset>, n: nat)
    ensures forall i: nat :: i in UnreferencedBelow(docs, assets, n) <==>
                             i < n && !Referenced(docs, assets, |docs|, i)
  {
    if n > 0 {
      UnreferencedExact(docs, assets, n - 1);
    }
  }

  /** Nothing uploads exactly when some document is beyond repair, or a file has no document to go to. */
  lemma RefusalIff(docs: seq<Document>, assets: seq<Asset>)
    ensures RefusalOf(docs, assets).None? <==>
            (forall d :: 0 <= d < |docs| ==> Acceptable(docs[d], assets)) &&
            (forall i: nat :: i < |assets| ==> Wanted(docs, assets, i))
  {
    FirstRefusalIff(docs, assets, |docs|);
    UnreferencedExact(docs, assets, |assets|);
    forall i: nat | i < |assets|
      ensures Wanted(docs, assets, i) <==> |docs| == 1 || Referenced(docs, assets, |docs|, i)
    {
      if |docs| == 1 {
        assert BelongsTo(docs, assets, 0, i);
      } else if Referenced(docs, assets, |docs|, i) {
        var d :| 0 <= d < |docs| && Refers(References(docs[d], assets), i);
        assert BelongsTo(docs, assets, d, i);
      }
    }
    if UnreferencedBelow(docs, assets, |assets|) != [] {
      assert UnreferencedBelow(docs, assets, |assets|)[0] in UnreferencedBelow(docs, assets, |assets|);
    }
  }

  /** A scanned document, with the references it makes. */
  ghost predicate Scanned(doc: Document, assets: seq<Asset>, out: AttachableDocument)
    reads out
  {
    out.Ready(assets) && out.markdown == doc.markdown && out.refs == References(doc, assets) &&
    out.isAttachment == Marks(out.refs, |assets|)
  }

  /** Scans one document and refuses an embed that no URL can fix. */
  method ScanDocument(doc: Document, assets: seq<Asset>, referenced: seq<bool>)
    returns (refusal: Option<Refusal>, out: AttachableDocument, referenced': seq<bool>)
    requires |referenced| == |assets| && NamesFiles(doc, assets)
    ensures fresh(out) && refusal == DocumentRefusal(doc, assets) && |referenced'| == |assets|
    ensures refusal.None? ==> Scanned(doc, assets, out)
    ensures refusal.None? ==>
              forall i: nat :: i < |assets| ==>
                (referenced'[i] <==> referenced[i] || Refers(References(doc, assets), i))
  {
    var refs := References(doc, assets);
    refusal, referenced' := None, referenced;
    out := new AttachableDocument(doc.markdown, refs, assets);
    if assets != [] {
      if doc.refs.None? { return Some(ScanFailed), out, referenced; }
      var broken := CheckVideoReferenceImages(refs, NewArguments(assets));
      if broken != [] { return Some(VideoReferenceImage(broken)), out, referenced; }
    }
    referenced' := MarkReferenced(out, refs, referenced);
  }

  /** `referenced` marks the files that the first `n` documents reference. */
  ghost predicate MarkedUpTo(docs: seq<Document>, assets: seq<Asset>, n: nat, referenced: seq<bool>)
    requires n <= |docs|
  {
    |referenced| == |assets| && forall i: nat :: i < |assets| ==> (referenced[i] <==> Referenced(docs, assets, n, i))
  }

  lemma MarkedSnoc(docs: seq<Document>, assets: seq<Asset>, n: nat, before: seq<bool>, after: seq<bool>)
    requires n < |docs| && MarkedUpTo(docs, assets, n, before) && |after| == |assets|
    requires forall i: nat :: i < |assets| ==> (after[i] <==> before[i] || Refers(References(docs[n], assets), i))
    ensures MarkedUpTo(docs, assets, n + 1, after)
  {
  }

  method ScanDocuments(docs: seq<Document>, assets: seq<Asset>)
    returns (refusal: Option<Refusal>, out: seq<AttachableDocument>, referenced: seq<bool>)
    requires forall d :: 0 <= d < |docs| ==> NamesFiles(docs[d], assets)
    ensures forall d :: 0 <= d < |out| ==> fresh(out[d])
    ensures refusal == FirstRefusal(docs, assets, |docs|)
    ensures refusal.None? ==>
              |out| == |docs| && AllScanned(docs, assets, out) && MarkedUpTo(docs, assets, |docs|, referenced)
  {
    refusal, out, referenced := None, [], seq(|assets|, _ => false);
    for d := 0 to |docs|
      invariant |out| == d && refusal == FirstRefusal(docs, assets, d) == None
      invariant forall c :: 0 <= c < |out| ==> fresh(out[c])
      invariant AllScanned(docs, assets, out) && MarkedUpTo(docs, assets, d, referenced)
    {
      refusal, out, referenced := ScanNext(docs, assets, out, referenced);
      if refusal.Some? {
        RefusalStays(docs, assets, d + 1, |docs|);
        return;
      }
    }
  }

  method ScanNext(docs: seq<Document>, assets: seq<Asset>, out: seq<AttachableDocument>, referenced: seq<bool>)
    returns (refusal: Option<Refusal>, out': seq<AttachableDocument>, referenced': seq<bool>)
    requires |out| < |docs| && NamesFiles(docs[|out|], assets)
    requires AllScanned(docs, assets, out) && MarkedUpTo(docs, assets, |out|, referenced)
    requires FirstRefusal(docs, assets, |out|) == None
    ensures |out'| == |out| + 1 && fresh(out'[|out|])
    ensures forall c :: 0 <= c < |out| ==> out'[c] == out[c]
    ensures refusal == FirstRefusal(docs, assets, |out'|)
    ensures refusal.None? ==> AllScanned(docs, assets, out') && MarkedUpTo(docs, assets, |out'|, referenced')
  {
    var doc;
    refusal, doc, referenced' := ScanDocument(docs[|out|], assets, referenced);
    out' := out + [doc];
    if refusal.None? {
      MarkedSnoc(docs, assets, |out|, referenced, referenced');
      AllScannedSnoc(docs, assets, out, doc);
    }
  }

  ghost predicate AllDistinct(out: seq<AttachableDocument>) {
    forall d, e :: 0 <= d < e < |out| ==> out[d] != out[e]
  }

  ghost predicate AllScanned(docs: seq<Document>, assets: seq<Asset>, out: seq<AttachableDocument>)
    requires |out| <= |docs|
    reads out
  {
    AllDistinct(out) && forall d :: 0 <= d < |out| ==> Scanned(docs[d], assets, out[d])
  }

  lemma AllScannedSnoc(docs: seq<Document>, assets: seq<Asset>, out: seq<AttachableDocument>, doc: AttachableDocument)
    requires |out| < |docs| && AllScanned(docs, assets, out) && Scanned(docs[|out|], assets, doc) && doc !in out
    ensures AllScanned(docs, assets, out + [doc])
  {
  }

  lemma MarksOfSeveral(docs: seq<Document>, assets: seq<Asset>, d: nat)
    requires d < |docs| && |docs| != 1
    ensures Marks(References(docs[d], assets), |assets|) == Attachments(docs, assets, d)
  {
  }

  lemma {:induction false} RefusalStays(docs: seq<Document>, assets: seq<Asset>, n: nat, m: nat)
    requires n <= m <= |docs| && FirstRefusal(docs, assets, n).Some?
    ensures FirstRefusal(docs, assets, m) == FirstRefusal(docs, assets, n)
  {
    if n < m {
      RefusalStays(docs, assets, n, m - 1);
    }
  }

  /** The files that no document references. */
  method FindUnreferenced(docs: seq<Document>, assets: seq<Asset>, referenced: seq<bool>)
    returns (unreferenced: seq<nat>)
    requires MarkedUpTo(docs, assets, |docs|, referenced)
    ensures unreferenced == UnreferencedBelow(docs, assets, |assets|)
  {
    unreferenced := [];
    for i := 0 to |assets|
      invariant unreferenced == UnreferencedBelow(docs, assets, i)
    {
      if !referenced[i] { unreferenced := unreferenced + [i]; }
    }
  }

  method MarkAll(doc: AttachableDocument)
    modifies doc`isAttachment
    ensures |doc.isAttachment| == old(|doc.isAttachment|)
    ensures forall i :: 0 <= i < |doc.isAttachment| ==> doc.isAttachment[i]
  {
    for i := 0 to |doc.isAttachment|
      invariant |doc.isAttachment| == old(|doc.isAttachment|)
      invariant forall k :: 0 <= k < i ==> doc.isAttachment[k]
    {
      doc.isAttachment := doc.isAttachment[i := true];
    }
  }

  /** Scans every document and refuses what no upload can fix. Unless there is exactly one document to append it to, a
      file that no document references is refused too. */
  method NewAttachableDocuments(docs: seq<Document>, assets: seq<Asset>)
    returns (refusal: Option<Refusal>, out: seq<AttachableDocument>)
    requires Parsed(docs, assets)
    ensures forall d :: 0 <= d < |out| ==> fresh(out[d])
    ensures refusal == RefusalOf(docs, assets)
    ensures refusal.None? ==> |out| == |docs| && AllDistinct(out) && AllReady(docs, assets, out, 0)
  {
    ParsedNamesFiles(docs, assets);
    var referenced;
    refusal, out, referenced := ScanDocuments(docs, assets);
    if refusal.Some? { return; }
    if |docs| == 1 {
      assert Scanned(docs[0], assets, out[0]);
      MarkAll(out[0]);
      return;
    }
    var unreferenced := FindUnreferenced(docs, assets, referenced);
    if unreferenced != [] { return Some(UnreferencedFiles(unreferenced)), out; }
    SeveralReady(docs, assets, out);
  }

  /** From `n` on the documents wait for their URLs. */
  ghost predicate AllReady(docs: seq<Document>, assets: seq<Asset>, out: seq<AttachableDocument>, n: nat)
    requires |out| == |docs|
    reads out
  {
    forall d :: n <= d < |docs| ==> ReadyFor(docs, assets, d, out[d])
  }

  ghost predicate ReadyFor(docs: seq<Document>, assets: seq<Asset>, d: nat, out: AttachableDocument)
    requires d < |docs|
    reads out
  {
    out.Ready(assets) && out.markdown == docs[d].markdown && out.refs == References(docs[d], assets) &&
    out.isAttachment == Attachments(docs, assets, d)
  }

  lemma SeveralReady(docs: seq<Document>, assets: seq<Asset>, out: seq<AttachableDocument>)
    requires |out| == |docs| && |docs| != 1 && AllScanned(docs, assets, out)
    ensures AllReady(docs, assets, out, 0)
  {
    forall d | 0 <= d < |docs| ensures ReadyFor(docs, assets, d, out[d]) {
      assert Scanned(docs[d], assets, out[d]);
      MarksOfSeveral(docs, assets, d);
    }
  }

  /** The server answered with a URL; an answer without one counts as a failure. */
  predicate Succeeds(upload: Option<string>) {
    upload.Some? && upload.value != ""
  }

  /** The URLs of the files that upload before the first failure. */
  function UrlsOf(uploads: seq<Option<string>>): (urls: seq<string>)
    ensures |urls| == |uploads|
  {
    if uploads == [] then []
    else if !Succeeds(uploads[0]) then seq(|uploads|, _ => "")
    else [uploads[0].value] + UrlsOf(uploads[1..])
  }

  /** What one result promises about the files that uploaded. */
  ghost predicate Delivered(docs: seq<Document>, assets: seq<Asset>, urls: seq<string>, d: nat, r: DocumentResult,
                            failed: bool)
    requires d < |docs| && |urls| == |assets|
  {
    r.uploaded == UploadedOf(Attachments(docs, assets, d), urls, |urls|) &&
    Repointed(docs[d].markdown, References(docs[d], assets), Filled(assets, Attachments(docs, assets, d), urls), assets,
              r) &&
    (forall i :: i in r.uploaded ==> i < |urls| && Mentions(r.markdown, LastingPart(urls[i]))) &&
    r.appendOperations + r.replaceOperations == |r.uploaded| &&
    (r.failed <==> failed && exists i :: 0 <= i < |urls| && Attachments(docs, assets, d)[i] && urls[i] == "")
  }

  ghost predicate AllDelivered(docs: seq<Document>, assets: seq<Asset>, urls: seq<string>, results: seq<DocumentResult>,
                               failed: bool)
    requires |urls| == |assets|
  {
    |results| <= |docs| && AllOf(results, DeliveredTo(docs, assets, urls, failed))
  }

  ghost predicate AllOf<T>(s: seq<T>, p: (nat, T) -> bool) {
    forall i: nat :: i < |s| ==> p(i, s[i])
  }

  lemma OneMoreOf<T>(s: seq<T>, x: T, p: (nat, T) -> bool)
    requires AllOf(s, p) && p(|s|, x)
    ensures AllOf(s + [x], p)
  {
  }

  /** What each document in its place promises. */
  ghost function DeliveredTo(docs: seq<Document>, assets: seq<Asset>, urls: seq<string>, failed: bool)
    : (nat, DocumentResult) -> bool
    requires |urls| == |assets|
  {
    (d: nat, r: DocumentResult) => d < |docs| && Delivered(docs, assets, urls, d, r, failed)
  }

  /** Uploads each file once, stopping at the first failure, and attaches to every document. `uploads` says what the
      server would answer for each file. No upload is orphaned: every file that reached the server is listed by some
      document, and every document that lists it contains its URL. */
  method UploadAndAttachDocuments(docs: seq<Document>, assets: seq<Asset>, uploads: seq<Option<string>>)
    returns (refusal: Option<Refusal>, results: seq<DocumentResult>, urls: seq<string>)
    requires Parsed(docs, assets) && DistinctPaths(assets)
    requires |uploads| == |assets|
    ensures refusal == RefusalOf(docs, assets)
    ensures refusal.Some? ==> results == [] && urls == []
    ensures refusal.None? ==> urls == UrlsOf(uploads) && |results| == |docs| && |urls| == |assets|
    ensures refusal.None? ==>
              var failed := exists i :: 0 <= i < |uploads| && !Succeeds(uploads[i]);
              AllDelivered(docs, assets, urls, results, failed)
    ensures refusal.None? ==>
              forall i: nat :: i < |assets| && urls[i] != "" ==>
                exists d :: 0 <= d < |results| && i in results[d].uploaded
  {
    results, urls := [], [];
    var attachable;
    refusal, attachable := NewAttachableDocuments(docs, assets);
    if refusal.Some? { return; }

    var failed;
    urls, failed := Upload(uploads);
    results := AttachAll(docs, assets, attachable, urls, failed);
    NothingOrphaned(docs, assets, urls, results, failed);
  }

  method AttachOne(docs: seq<Document>, assets: seq<Asset>, d: nat, attachable: AttachableDocument, urls: seq<string>,
                   failed: bool)
    returns (result: DocumentResult)
    requires d < |docs| && ReadyFor(docs, assets, d, attachable) && ParsedOne(docs[d], assets)
    requires |urls| == |assets| && DistinctPaths(assets)
    modifies attachable`args
    ensures Delivered(docs, assets, urls, d, result, failed)
  {
    result := attachable.AttachUrls(assets, urls, failed);
  }

  method AttachAll(docs: seq<Document>, assets: seq<Asset>, attachable: seq<AttachableDocument>, urls: seq<string>,
                   failed: bool)
    returns (results: seq<DocumentResult>)
    requires |attachable| == |docs| && AllDistinct(attachable) && AllReady(docs, assets, attachable, 0)
    requires |urls| == |assets| && DistinctPaths(assets) && Parsed(docs, assets)
    modifies attachable
    ensures |results| == |docs| && AllDelivered(docs, assets, urls, results, failed)
  {
    results := [];
    for d := 0 to |docs|
      invariant |results| == d
      invariant AllReady(docs, assets, attachable, d)
      invariant AllDelivered(docs, assets, urls, results, failed)
    {
      assert ParsedOne(docs[d], assets) && ReadyFor(docs, assets, d, attachable[d]);
      var result := AttachOne(docs, assets, d, attachable[d], urls, failed);
      OneMoreDelivered(docs, assets, urls, results, result, failed);
      results := results + [result];
    }
  }

  lemma OneMoreDelivered(docs: seq<Document>, assets: seq<Asset>, urls: seq<string>, results: seq<DocumentResult>,
                         r: DocumentResult, failed: bool)
    requires |urls| == |assets| && |results| < |docs| && AllDelivered(docs, assets, urls, results, failed)
    requires Delivered(docs, assets, urls, |results|, r, failed)
    ensures AllDelivered(docs, assets, urls, results + [r], failed)
  {
    OneMoreOf(results, r, DeliveredTo(docs, assets, urls, failed));
  }

  /** Once every document has been attached to, each file that uploaded is listed by one of them. */
  lemma NothingOrphaned(docs: seq<Document>, assets: seq<Asset>, urls: seq<string>, results: seq<DocumentResult>,
                        failed: bool)
    requires RefusalOf(docs, assets).None? && |urls| == |assets| && |results| == |docs|
    requires AllDelivered(docs, assets, urls, results, failed)
    ensures forall i: nat :: i < |assets| && urls[i] != "" ==>
              exists d :: 0 <= d < |results| && i in results[d].uploaded
  {
    RefusalIff(docs, assets);
    forall i: nat | i < |assets| && urls[i] != ""
      ensures exists d :: 0 <= d < |results| && i in results[d].uploaded
    {
      assert Wanted(docs, assets, i);
      var d: nat :| d < |docs| && BelongsTo(docs, assets, d, i);
      UploadedOfIff(Attachments(docs, assets, d), urls, |urls|, i);
      assert Delivered(docs, assets, urls, d, results[d], failed);
    }
  }

  method Upload(uploads: seq<Option<string>>) returns (urls: seq<string>, failed: bool)
    ensures urls == UrlsOf(uploads)
    ensures failed <==> exists i :: 0 <= i < |uploads| && !Succeeds(uploads[i])
  {
    var filled := new string[|uploads|](_ => "");
    failed := false;
    var i := 0;
    while i < |uploads| && !failed
      invariant 0 <= i <= |uploads| && fresh(filled) && filled.Length == |uploads|
      invariant failed <==> exists k :: 0 <= k < i && !Succeeds(uploads[k])
      invariant forall k :: i <= k < |uploads| ==> filled[k] == ""
      invariant !failed ==> forall k :: 0 <= k < i ==> Succeeds(uploads[k]) && uploads[k] == Some(filled[k])
      invariant failed ==> filled[..] == UrlsOf(uploads)
    {
      if !Succeeds(uploads[i]) {
        failed := true;
        UrlsUpTo(uploads, filled[..], i);
      } else {
        filled[i] := uploads[i].value;
      }
      i := i + 1;
    }
    urls := filled[..];
    if !failed { UrlsUpTo(uploads, urls, |uploads|); }
  }

  lemma {:induction false} UrlsUpTo(uploads: seq<Option<string>>, urls: seq<string>, n: nat)
    requires |urls| == |uploads| && n <= |uploads| && (n < |uploads| ==> !Succeeds(uploads[n]))
    requires forall k :: 0 <= k < n ==> Succeeds(uploads[k]) && uploads[k] == Some(urls[k])
    requires forall k :: n <= k < |uploads| ==> urls[k] == ""
    ensures urls == UrlsOf(uploads)
  {
    if uploads != [] && n > 0 {
      UrlsUpTo(uploads[1..], urls[1..], n - 1);
      assert urls == [urls[0]] + urls[1..];
    }
  }
}

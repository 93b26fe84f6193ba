/** Attaching one set of files to several documents: each file is uploaded once, in order, and since an upload cannot be
    undone its URL must reach some document. */
module Attach {
  import opened Wrappers
  import opened Strings
  import opened MarkdownScan
  import opened MarkdownEdits
  import opened AttachPlan
  import opened AttachRewrite
  import opened AttachPlaces

  datatype Asset = Asset(path: string, alt: string, isVideo: bool)

  /** How an asset renders where no reference names it: an image embed, or the bare URL of a player. */
  function Markdown(a: Asset, url: string): string {
    if a.isVideo then url else "![" + EscapeAlt(a.alt) + "](" + url + ")"
  }

  function NewArgument(a: Asset): Argument { Argument(a.path, "", a.alt, a.isVideo) }

  function NewArguments(assets: seq<Asset>): seq<Argument> {
    seq(|assets|, i requires 0 <= i < |assets| => NewArgument(assets[i]))
  }

  // ---------------------------------------------------------------- appending

  function TrimRight(s: string): string {
    if s != "" && IsSpace(s[|s| - 1]) then TrimRight(s[..|s| - 1]) else s
  }

  function AppendParagraph(md: string, addition: string): string {
    if addition == "" then md
    else if TrimRight(md) == "" then addition
    else TrimRight(md) + "\n\n" + addition
  }

  /** Trimming leaves the text alone. */
  predicate Trimmed(url: string) {
    url != "" ==> !IsSpace(url[|url| - 1])
  }

  lemma {:induction false} TrimRightTrims(s: string)
    ensures Trimmed(TrimRight(s)) && TrimRight(s) <= s
    ensures TrimRight(s) == s <==> Trimmed(s)
    ensures forall i :: |TrimRight(s)| <= i < |s| ==> IsSpace(s[i])
  {
    if s != "" && IsSpace(s[|s| - 1]) {
      TrimRightTrims(s[..|s| - 1]);
      assert forall i :: |TrimRight(s)| <= i < |s| - 1 ==> s[i] == s[..|s| - 1][i];
    }
  }

  /** The white space that the text ends in. */
  function Trail(s: string): string {
    if s != "" && IsSpace(s[|s| - 1]) then Trail(s[..|s| - 1]) + [s[|s| - 1]] else ""
  }

  lemma {:induction false} TrailIsTheRest(s: string)
    ensures s == TrimRight(s) + Trail(s)
  {
    if s != "" && IsSpace(s[|s| - 1]) {
      TrailIsTheRest(s[..|s| - 1]);
      Associate(TrimRight(s), Trail(s[..|s| - 1]), [s[|s| - 1]]);
    }
  }

  /** At most as many as there are between paragraphs. */
  predicate LineBreaks(s: string) {
    s == "" || s == "\n" || s == "\n\n"
  }

  /** No paragraph that follows can disturb the URL: the white space at its end, if it has any, is what stands between
      paragraphs. Only the empty URL is refused when a file uploads. */
  predicate Lasting(url: string) {
    url == "" || (TrimRight(url) != "" && LineBreaks(Trail(url)))
  }

  /** As much of the URL as lasts. */
  function LastingPart(url: string): string {
    if Lasting(url) then url else TrimRight(url)
  }

  lemma PartLasts(url: string)
    ensures Lasting(LastingPart(url)) && LastingPart(url) <= url
  {
    TrimRightTrims(url);
    TrimRightTrims(TrimRight(url));
    assert Trail(TrimRight(url)) == "";
  }

  lemma MentionsPart(md: string, url: string, part: string)
    requires Mentions(md, url) && part <= url
    ensures Mentions(md, part)
  {
    var p :| HasAt(md, p, url);
    assert md[p..p + |part|] == md[p..p + |url|][..|part|];
    assert HasAt(md, p, part);
  }

  lemma {:induction false} TrimKeeps(s: string, p: int, url: string)
    requires HasAt(s, p, url) && Trimmed(url) && url != ""
    ensures HasAt(TrimRight(s), p, url)
  {
    if s != "" && IsSpace(s[|s| - 1]) {
      assert s[p..p + |url|][|url| - 1] == s[p + |url| - 1];
      var t := s[..|s| - 1];
      assert t[p..p + |url|] == s[p..p + |url|];
      TrimKeeps(t, p, url);
    }
  }

  /** What trimming leaves of a text that has a URL: all of the URL, or the text ends with what it leaves of the URL. */
  lemma TrimCuts(s: string, p: int, url: string)
    requires HasAt(s, p, url) && TrimRight(url) != ""
    ensures HasAt(TrimRight(s), p, url) ||
            (|TrimRight(s)| == p + |TrimRight(url)| && TrimRight(s)[p..] == TrimRight(url))
  {
    var t, core := TrimRight(s), TrimRight(url);
    TrimRightTrims(s);
    TrimRightTrims(url);
    assert s[p..p + |core|] == s[p..p + |url|][..|core|];
    TrimKeeps(s, p, core);
    if |t| >= p + |url| {
      assert t[p..p + |url|] == s[p..p + |url|];
    } else {
      TrimsAll(s, p, url);
      assert t[p..p + |core|] == t[p..];
    }
  }

  lemma {:induction false} TrimsAll(s: string, p: int, url: string)
    requires HasAt(s, p, url) && TrimRight(url) != "" && p <= |TrimRight(s)| < p + |url|
    ensures |TrimRight(s)| <= p + |TrimRight(url)|
  {
    TrimRightTrims(s);
    var k := |TrimRight(s)| - 1 - p;
    if k >= |TrimRight(url)| { SpaceInTrail(s, p, url, k); }
  }

  lemma SpaceInTrail(s: string, p: int, url: string, k: nat)
    requires HasAt(s, p, url) && |TrimRight(url)| <= k < |url|
    ensures IsSpace(s[p + k])
  {
    TrimRightTrims(url);
    assert s[p..p + |url|][k] == s[p + k];
  }

  lemma TrailBetween(front: string, text: string, p: int, url: string)
    requires 0 <= p <= |front| && front[p..] == TrimRight(url) && LineBreaks(Trail(url))
    ensures HasAt(front + "\n\n" + text, p, url)
  {
    var out, n := front + "\n\n" + text, |Trail(url)|;
    TrailIsTheRest(url);
    assert "\n\n"[..n] == Trail(url);
    assert out[p..p + |url|] == front[p..] + "\n\n"[..n];
  }

  /** A paragraph appended never disturbs a URL that lasts. */
  lemma AppendKeeps(md: string, addition: string, url: string)
    requires Lasting(url) && Mentions(md, url)
    ensures Mentions(AppendParagraph(md, addition), url)
  {
    var out := AppendParagraph(md, addition);
    if url == "" {
      assert HasAt(out, 0, url);
    } else if addition != "" {
      var p :| HasAt(md, p, url);
      TrimCuts(md, p, url);
      if HasAt(TrimRight(md), p, url) {
        assert out[p..p + |url|] == TrimRight(md)[p..p + |url|];
        assert HasAt(out, p, url);
      } else {
        TrailBetween(TrimRight(md), addition, p, url);
      }
    }
  }

  lemma AtTheFront(core: string, url: string, p: int)
    requires core != "" && Trimmed(core) && |core| < |url| && url[..|core|] == core
    requires HasAt(core + "\n\n" + "v", p, url)
    ensures p == 0
  {
    var out := core + "\n\n" + "v";
    assert out[p..p + |url|][|core| - 1] == out[p + |core| - 1];
    assert url[|core| - 1] == core[|core| - 1];
  }

  lemma TwoVideos(a: Asset, b: Asset, url: string)
    requires a.isVideo && b.isVideo && a.path != b.path && url != ""
    ensures Appended("", map[a.path := url, b.path := "v"], [a, b], 2) ==
            if TrimRight(url) == "" then "v" else TrimRight(url) + "\n\n" + "v"
  {
    var urls := map[a.path := url, b.path := "v"];
    assert TrimRight("") == "" && Appended("", urls, [a, b], 0) == "";
    assert Appended("", urls, [a, b], 1) == url;
  }

  /** The URL of a video stands in the document after the paragraph of another video is appended to it if and only if it
      is one that lasts. */
  lemma LastingIff(a: Asset, b: Asset, url: string)
    requires a.isVideo && b.isVideo && a.path != b.path && url != ""
    ensures Mentions(Appended("", map[a.path := url, b.path := "v"], [a, b], 2), url) <==> Lasting(url)
  {
    var out, core := Appended("", map[a.path := url, b.path := "v"], [a, b], 2), TrimRight(url);
    TwoVideos(a, b, url);
    TrimRightTrims(url);
    if Lasting(url) {
      TrailBetween(core, "v", 0, url);
    } else if Mentions(out, url) {
      var p :| HasAt(out, p, url);
      FoundLasts(core, url, p);
    }
  }

  lemma FoundLasts(core: string, url: string, p: int)
    requires url != "" && core == TrimRight(url)
    requires HasAt(if core == "" then "v" else core + "\n\n" + "v", p, url)
    ensures Lasting(url)
  {
    TrimRightTrims(url);
    TrailIsTheRest(url);
    if core == "" {
      SpaceInTrail("v", p, url, 0);
    } else if Trail(url) != "" {
      AtTheFront(core, url, p);
      TrailFound(core, url, Trail(url));
      OnlyLineBreaks(Trail(url));
    }
  }

  lemma TrailFound(core: string, url: string, trail: string)
    requires url == core + trail && HasAt(core + "\n\n" + "v", 0, url)
    ensures |trail| <= 3 && trail == ("\n\n" + "v")[..|trail|]
  {
    var out := core + "\n\n" + "v";
    assert out[..|url|][|core|..] == trail && out[|core|..] == "\n\n" + "v";
    assert out[..|url|][|core|..] == out[|core|..][..|trail|];
  }

  lemma OnlyLineBreaks(s: string)
    requires |s| <= 3 && s == ("\n\n" + "v")[..|s|] && (|s| > 2 ==> IsSpace(s[2]))
    ensures LineBreaks(s)
  {
    assert ("\n\n" + "v")[2] == 'v';
    assert |s| == 0 ==> s == "";
    assert |s| == 1 ==> s == "\n";
    assert |s| == 2 ==> s == "\n\n";
  }

  lemma AppendMentions(md: string, a: Asset, u: string)
    requires u != ""
    ensures Mentions(AppendParagraph(md, Markdown(a, u)), u)
  {
    var lead := if a.isVideo then "" else "![" + EscapeAlt(a.alt) + "](";
    var tail := if a.isVideo then "" else ")";
    var text := Markdown(a, u);
    assert text == lead + (u + tail);
    assert HasAt(u + tail, 0, u);
    HasBehind(lead, u + tail, 0, u);
    if TrimRight(md) == "" {
      assert HasAt(text, |lead|, u);
    } else {
      HasBehind(TrimRight(md) + "\n\n", text, |lead|, u);
    }
  }

  /** The paragraphs for the first `n` assets that have a URL to append. */
  function Appended(md: string, urls: map<string, string>, assets: seq<Asset>, n: nat): string
    requires n <= |assets|
  {
    if n == 0 then md
    else
      var before := Appended(md, urls, assets, n - 1);
      if assets[n - 1].path in urls then AppendParagraph(before, Markdown(assets[n - 1], urls[assets[n - 1].path]))
      else before
  }

  ghost predicate AllNonEmpty(urls: map<string, string>) {
    forall p :: p in urls ==> urls[p] != ""
  }

  lemma {:induction false} AppendedKeeps(md: string, urls: map<string, string>, assets: seq<Asset>, n: nat, url: string)
    requires n <= |assets| && Lasting(url) && Mentions(md, url)
    ensures Mentions(Appended(md, urls, assets, n), url)
  {
    if n > 0 {
      AppendedKeeps(md, urls, assets, n - 1, url);
      if assets[n - 1].path in urls {
        AppendKeeps(Appended(md, urls, assets, n - 1), Markdown(assets[n - 1], urls[assets[n - 1].path]), url);
      }
    }
  }

  lemma {:induction false} AppendedMentions(md: string, urls: map<string, string>, assets: seq<Asset>, n: nat, i: nat)
    requires i < n <= |assets| && AllNonEmpty(urls) && assets[i].path in urls
    ensures Mentions(Appended(md, urls, assets, n), LastingPart(urls[assets[i].path]))
    decreases n
  {
    var before, url := Appended(md, urls, assets, n - 1), urls[assets[i].path];
    PartLasts(url);
    if i == n - 1 {
      AppendMentions(before, assets[i], url);
      MentionsPart(Appended(md, urls, assets, n), url, LastingPart(url));
    } else {
      AppendedMentions(md, urls, assets, n - 1, i);
      if assets[n - 1].path in urls {
        AppendKeeps(before, Markdown(assets[n - 1], urls[assets[n - 1].path]), LastingPart(url));
      }
    }
  }

  // ---------------------------------------------------------------- what is appended

  predicate StartsParagraph(out: string, p: int) {
    p == 0 || (2 <= p <= |out| && out[p - 2..p] == "\n\n")
  }

  /** A blank line follows, or nothing but white space to the end. */
  predicate EndsParagraph(out: string, q: int) {
    0 <= q <= |out| && (HasAt(out, q, "\n\n") || forall k :: q <= k < |out| ==> IsSpace(out[k]))
  }

  predicate ParagraphAt(out: string, p: int, text: string) {
    HasAt(out, p, text) && StartsParagraph(out, p) && EndsParagraph(out, p + |text|)
  }

  /** A paragraph that does not end in white space stays one, in its place, when another is appended. */
  lemma ParagraphStays(md: string, p: int, text: string, addition: string)
    requires ParagraphAt(md, p, text) && text != "" && Trimmed(text)
    ensures ParagraphAt(AppendParagraph(md, addition), p, text)
  {
    if addition != "" {
      var t, q := TrimRight(md), p + |text|;
      TrimKeeps(md, p, text);
      TrimRightTrims(md);
      assert t[p..q] == text && t == md[..|t|];
      TrimmedEnd(md, q);
      StaysBehind(t, p, text, "\n\n" + addition);
      assert t + ("\n\n" + addition) == t + "\n\n" + addition;
    }
  }

  /** Trimming leaves the blank line behind a paragraph, or cuts the text off right behind it. */
  lemma TrimmedEnd(md: string, q: int)
    requires EndsParagraph(md, q) && q <= |TrimRight(md)|
    ensures |TrimRight(md)| == q || HasAt(TrimRight(md), q, "\n\n")
  {
    TrimRightTrims(md);
    if HasAt(md, q, "\n\n") {
      assert md[q..q + 2][0] == md[q];
      if |TrimRight(md)| >= q + 2 { assert TrimRight(md)[q..q + 2] == md[q..q + 2]; }
    }
  }

  lemma StaysBehind(t: string, p: int, text: string, tail: string)
    requires HasAt(t, p, text) && StartsParagraph(t, p) && |tail| >= 2 && tail[..2] == "\n\n"
    requires |t| == p + |text| || HasAt(t, p + |text|, "\n\n")
    ensures ParagraphAt(t + tail, p, text)
  {
    var out, q := t + tail, p + |text|;
    assert out[p..q] == t[p..q];
    if p > 0 { assert out[p - 2..p] == t[p - 2..p]; }
    if HasAt(t, q, "\n\n") {
      assert out[q..q + 2] == t[q..q + 2];
    } else {
      assert out[q..q + 2] == tail[..2];
    }
  }

  /** A paragraph just appended. */
  lemma ParagraphAdded(md: string, addition: string) returns (p: int)
    requires TrimRight(addition) != ""
    ensures ParagraphAt(AppendParagraph(md, addition), p, TrimRight(addition))
    ensures AppendParagraph(md, addition) == AppendParagraph(md, addition)[..p] + addition
  {
    var lead := if TrimRight(md) == "" then "" else TrimRight(md) + "\n\n";
    var out, core := lead + addition, TrimRight(addition);
    p := |lead|;
    assert out == AppendParagraph(md, addition) && out[..p] == lead;
    TrimRightTrims(addition);
    assert out[p..p + |core|] == core;
    forall k | p + |core| <= k < |out| ensures IsSpace(out[k]) { assert out[k] == addition[k - p]; }
  }

  /** The file is displayed by a paragraph of its own: an image, which reads back as one with the alt text of the file
      and its URL, or the bare URL of a video. */
  ghost predicate Displayed(out: string, a: Asset, url: string) {
    if a.isVideo then TrimRight(url) != "" ==> exists p :: ParagraphAt(out, p, TrimRight(url))
    else exists p, q :: ImageParagraph(out, p, q, a.alt, url)
  }

  ghost predicate ImageParagraph(out: string, p: int, q: int, alt: string, url: string) {
    0 <= p && p + 2 <= q - 1 - |url| && StartsParagraph(out, p) && EndsParagraph(out, q) &&
    out[p..p + 2] == "![" && out[q - 1 - |url|..q] == url + ")" &&
    (PlainDestination(url) ==> ImageAt(out, p, q, alt, url))
  }

  lemma PrintedImage(a: Asset, url: string)
    requires !a.isVideo
    ensures Markdown(a, url) == ImageText(a.alt, url) && TrimRight(ImageText(a.alt, url)) == ImageText(a.alt, url) != ""
  {
    assert ImageText(a.alt, url)[|ImageText(a.alt, url)| - 1] == ')';
  }

  lemma ParagraphDisplays(out: string, p: int, a: Asset, url: string)
    requires ParagraphAt(out, p, TrimRight(Markdown(a, url)))
    ensures Displayed(out, a, url)
  {
    if !a.isVideo {
      PrintedImage(a, url);
      ImageDisplays(out, p, p + |ImageText(a.alt, url)|, a.alt, url);
    }
  }

  lemma ImageDisplays(out: string, p: int, q: int, alt: string, url: string)
    requires ParagraphAt(out, p, ImageText(alt, url)) && q == p + |ImageText(alt, url)|
    ensures ImageParagraph(out, p, q, alt, url)
  {
    ImageEnds(out, p, q, alt, url);
    Around(out, p, q, ImageText(alt, url));
    if PlainDestination(url) {
      ImageReadsBack(out, out[..p], alt, url, out[q..], p, p + 2 + |EscapeAlt(alt)|, q);
    }
  }

  lemma Around(out: string, p: int, q: int, text: string)
    requires HasAt(out, p, text) && q == p + |text|
    ensures out == out[..p] + text + out[q..]
  {
  }

  lemma ImageEnds(out: string, p: int, q: int, alt: string, url: string)
    requires HasAt(out, p, ImageText(alt, url)) && q == p + |ImageText(alt, url)|
    ensures 0 <= p && p + 2 <= q - 1 - |url| && q <= |out|
    ensures out[p..p + 2] == "![" && out[q - 1 - |url|..q] == url + ")"
  {
    var text := ImageText(alt, url);
    assert out[p..p + 2] == out[p..q][..2] && text[..2] == "![";
    assert out[q - 1 - |url|..q] == out[p..q][|text| - 1 - |url|..] && text[|text| - 1 - |url|..] == url + ")";
  }

  lemma {:induction false} AppendedParagraph(md: string, urls: map<string, string>, assets: seq<Asset>, n: nat, i: nat)
    returns (p: int)
    requires i < n <= |assets| && assets[i].path in urls
    requires TrimRight(Markdown(assets[i], urls[assets[i].path])) != ""
    ensures ParagraphAt(Appended(md, urls, assets, n), p, TrimRight(Markdown(assets[i], urls[assets[i].path])))
    decreases n
  {
    var before := Appended(md, urls, assets, n - 1);
    if i == n - 1 {
      p := ParagraphAdded(before, Markdown(assets[i], urls[assets[i].path]));
    } else {
      p := AppendedParagraph(md, urls, assets, n - 1, i);
      if assets[n - 1].path in urls {
        TrimRightTrims(Markdown(assets[i], urls[assets[i].path]));
        ParagraphStays(before, p, TrimRight(Markdown(assets[i], urls[assets[i].path])),
                       Markdown(assets[n - 1], urls[assets[n - 1].path]));
      }
    }
  }

  /** The paragraphs of the result, but for white space at the end of a URL: the text as it was, and one for each file
      that is appended, in their order. */
  function Blocks(md: string, urls: map<string, string>, assets: seq<Asset>, n: nat): seq<string>
    requires n <= |assets|
  {
    if n == 0 then (if TrimRight(md) == "" then [] else [TrimRight(md)])
    else
      var before, a := Blocks(md, urls, assets, n - 1), assets[n - 1];
      if a.path !in urls || (a.isVideo && TrimRight(urls[a.path]) == "") then before
      else before + [if a.isVideo then TrimRight(urls[a.path]) else "![" + EscapeAlt(a.alt) + "](" + urls[a.path] + ")"]
  }

  lemma {:induction false} TrimRightBehind(front: string, s: string)
    ensures TrimRight(front + s) == if TrimRight(s) == "" then TrimRight(front) else front + TrimRight(s)
    decreases |s|
  {
    if s == "" {
      assert front + s == front;
    } else {
      assert (front + s)[..|front + s| - 1] == front + s[..|s| - 1];
      if IsSpace(s[|s| - 1]) { TrimRightBehind(front, s[..|s| - 1]); }
    }
  }

  lemma TrimRightTwice(s: string)
    ensures TrimRight(TrimRight(s)) == TrimRight(s)
  {
    TrimRightTrims(s);
    TrimRightTrims(TrimRight(s));
  }

  lemma TrimmedAppend(md: string, addition: string)
    ensures TrimRight(AppendParagraph(md, addition)) ==
            if TrimRight(addition) == "" then TrimRight(md)
            else if TrimRight(md) == "" then TrimRight(addition)
            else TrimRight(md) + "\n\n" + TrimRight(addition)
  {
    TrimRightBehind(TrimRight(md) + "\n\n", addition);
    TrimRightBehind(TrimRight(md), "\n\n");
    assert "\n\n"[..1] == "\n" && "\n"[..0] == "";
    TrimRightTwice(md);
  }

  lemma {:induction false} BlocksFull(md: string, urls: map<string, string>, assets: seq<Asset>, n: nat)
    requires n <= |assets|
    ensures forall b :: b in Blocks(md, urls, assets, n) ==> b != ""
  {
    if n > 0 { BlocksFull(md, urls, assets, n - 1); }
  }

  lemma JoinFull(parts: seq<string>, separator: string)
    requires forall b :: b in parts ==> b != ""
    ensures Join(parts, separator) == "" <==> parts == []
  {
    if parts != [] { assert parts[0] in parts; }
  }

  /** The result is these paragraphs, with blank lines in between. */
  lemma {:induction false} AppendedText(md: string, urls: map<string, string>, assets: seq<Asset>, n: nat)
    requires n <= |assets|
    ensures TrimRight(Appended(md, urls, assets, n)) == Join(Blocks(md, urls, assets, n), "\n\n")
  {
    if n > 0 {
      var before, a := Appended(md, urls, assets, n - 1), assets[n - 1];
      AppendedText(md, urls, assets, n - 1);
      if a.path in urls { BlockAdded(before, Blocks(md, urls, assets, n - 1), md, urls, assets, n); }
    }
  }

  lemma BlockAdded(before: string, blocks: seq<string>, md: string, urls: map<string, string>, assets: seq<Asset>,
                   n: nat)
    requires 0 < n <= |assets| && assets[n - 1].path in urls && blocks == Blocks(md, urls, assets, n - 1)
    requires TrimRight(before) == Join(blocks, "\n\n")
    ensures TrimRight(AppendParagraph(before, Markdown(assets[n - 1], urls[assets[n - 1].path]))) ==
            Join(Blocks(md, urls, assets, n), "\n\n")
  {
    var addition := Markdown(assets[n - 1], urls[assets[n - 1].path]);
    TrimmedAppend(before, addition);
    BlocksFull(md, urls, assets, n - 1);
    JoinFull(blocks, "\n\n");
    BlocksSnoc(md, urls, assets, n);
    if blocks != [] { JoinSnoc(blocks, "\n\n", TrimRight(addition)); }
  }

  lemma BlocksSnoc(md: string, urls: map<string, string>, assets: seq<Asset>, n: nat)
    requires 0 < n <= |assets| && assets[n - 1].path in urls
    ensures var added := TrimRight(Markdown(assets[n - 1], urls[assets[n - 1].path]));
            Blocks(md, urls, assets, n) == Blocks(md, urls, assets, n - 1) + if added == "" then [] else [added]
  {
    var a := assets[n - 1];
    if !a.isVideo { PrintedImage(a, urls[a.path]); }
  }

  /** Every appended file is displayed. */
  lemma AppendedDisplays(md: string, urls: map<string, string>, assets: seq<Asset>, n: nat, i: nat)
    requires i < n <= |assets| && assets[i].path in urls
    ensures Displayed(Appended(md, urls, assets, n), assets[i], urls[assets[i].path])
  {
    var a, url := assets[i], urls[assets[i].path];
    if !a.isVideo { PrintedImage(a, url); }
    if TrimRight(Markdown(a, url)) != "" {
      var p := AppendedParagraph(md, urls, assets, n, i);
      ParagraphDisplays(Appended(md, urls, assets, n), p, a, url);
    }
  }

  ghost predicate AllDisplayed(out: string, urls: map<string, string>, assets: seq<Asset>) {
    forall i :: 0 <= i < |assets| && assets[i].path in urls ==> Displayed(out, assets[i], urls[assets[i].path])
  }

  lemma AppendedDisplayAll(md: string, urls: map<string, string>, assets: seq<Asset>)
    ensures AllDisplayed(Appended(md, urls, assets, |assets|), urls, assets)
  {
    forall i | 0 <= i < |assets| && assets[i].path in urls
      ensures Displayed(Appended(md, urls, assets, |assets|), assets[i], urls[assets[i].path])
    {
      AppendedDisplays(md, urls, assets, |assets|, i);
    }
  }

  function UrlByPath(args: seq<Argument>): map<string, string> {
    if args == [] then map[] else UrlByPath(args[..|args| - 1])[args[|args| - 1].path := args[|args| - 1].url]
  }

  method AppendUnreferenced(rewritten: string, toAppend: seq<Argument>, assets: seq<Asset>) returns (out: string)
    ensures out == Appended(rewritten, UrlByPath(toAppend), assets, |assets|)
    ensures TrimRight(out) == Join(Blocks(rewritten, UrlByPath(toAppend), assets, |assets|), "\n\n")
    ensures AllDisplayed(out, UrlByPath(toAppend), assets)
  {
    var urlByPath: map<string, string> := map[];
    for i := 0 to |toAppend|
      invariant urlByPath == UrlByPath(toAppend[..i])
    {
      assert toAppend[..i + 1][..i] == toAppend[..i];
      urlByPath := urlByPath[toAppend[i].path := toAppend[i].url];
    }
    assert toAppend[..|toAppend|] == toAppend;
    out := rewritten;
    for i := 0 to |assets|
      invariant out == Appended(rewritten, urlByPath, assets, i)
    {
      if assets[i].path in urlByPath {
        out := AppendParagraph(out, Markdown(assets[i], urlByPath[assets[i].path]));
      }
    }
    AppendedText(rewritten, urlByPath, assets, |assets|);
    AppendedDisplayAll(rewritten, urlByPath, assets);
  }

  // ---------------------------------------------------------------- one document

  /** The uploaded files among `args[..n]` that no kept edit belongs to. */
  function Unreferenced(args: seq<Argument>, written: set<nat>, n: nat): seq<Argument>
    requires n <= |args|
  {
    if n == 0 then []
    else Unreferenced(args, written, n - 1) +
         if args[n - 1].url != "" && n - 1 !in written then [args[n - 1]] else []
  }

  function CountUploaded(args: seq<Argument>, n: nat): nat
    requires n <= |args|
  {
    if n == 0 then 0 else CountUploaded(args, n - 1) + if args[n - 1].url != "" then 1 else 0
  }

  lemma {:induction false} UnreferencedHas(args: seq<Argument>, written: set<nat>, n: nat, i: nat)
    requires i < n <= |args| && args[i].url != "" && i !in written
    ensures args[i] in Unreferenced(args, written, n)
    decreases n
  {
    if i < n - 1 { UnreferencedHas(args, written, n - 1, i); }
  }

  method AttachAssetsToMarkdown(src: string, refs: seq<Reference>, args: seq<Argument>)
    returns (rewritten: string, toAppend: seq<Argument>, replaced: nat)
    requires args != [] ==> WellNested(src, refs, args)
    ensures args == [] ==> rewritten == src && toAppend == []
    ensures args != [] ==>
              Indexed(src, refs, args) &&
              rewritten == Rewritten(src, refs, args) &&
              toAppend == Unreferenced(args, Owners(KeptInPlan(src, refs, args)), |args|)
    ensures |toAppend| + replaced == CountUploaded(args, |args|)
    ensures forall i :: 0 <= i < |args| && args[i].url != "" ==> args[i] in toAppend || Mentions(rewritten, args[i].url)
    ensures forall a :: a in toAppend ==> a in args && a.url != ""
  {
    if |args| == 0 { return src, [], 0; }
    PlanFacts(src, refs, args);
    var edits := PlanReferences(src, refs, args);
    var written;
    rewritten, written := ApplyEdits(src, edits);
    toAppend, replaced := SortOut(args, written);
    forall i | 0 <= i < |args| && args[i].url != ""
      ensures args[i] in toAppend || Mentions(rewritten, args[i].url)
    {
      if i in written { WrittenInPlace(src, refs, args, i); } else { UnreferencedHas(args, written, |args|, i); }
    }
  }

  method SortOut(args: seq<Argument>, written: set<nat>) returns (toAppend: seq<Argument>, replaced: nat)
    ensures toAppend == Unreferenced(args, written, |args|)
    ensures |toAppend| + replaced == CountUploaded(args, |args|)
    ensures forall a :: a in toAppend ==> a in args && a.url != ""
  {
    toAppend, replaced := [], 0;
    for i := 0 to |args|
      invariant toAppend == Unreferenced(args, written, i) && |toAppend| + replaced == CountUploaded(args, i)
      invariant forall a :: a in toAppend ==> a in args && a.url != ""
    {
      if args[i].url == "" { continue; }
      if i in written { replaced := replaced + 1; } else { toAppend := toAppend + [args[i]]; }
    }
  }

  method PlanReferences(src: string, refs: seq<Reference>, args: seq<Argument>) returns (edits: seq<Edit>)
    requires Indexed(src, refs, args) && forall i :: 0 <= i < |refs| && refs[i].Inline? ==> InPlace(src, refs[i])
    ensures edits == Plan(src, refs, args)
  {
    edits := [];
    var parts := Parts(src, refs, args);
    for i := 0 to |refs|
      invariant edits == Flatten(parts[..i])
    {
      assert parts[..i + 1][..i] == parts[..i];
      var planned := PlanReference(src, i, refs[i], args[refs[i].arg]);
      edits := edits + planned;
    }
    assert parts[..|refs|] == parts;
  }

  /** The edits that one reference needs. */
  method PlanReference(src: string, i: nat, r: Reference, a: Argument) returns (edits: seq<Edit>)
    requires r.Inline? ==> InPlace(src, r)
    ensures edits == EditsOf(src, i, r, a)
  {
    edits := [];
    if a.url == "" { return; }
    if r.ByDefinition? {
      for k := 0 to |r.dests|
        invariant edits == DefinitionEdits(r.arg, r.dests[..k], a.url, i)
      {
        assert r.dests[..k + 1][..k] == r.dests[..k];
        if r.dests[k].None? { continue; }
        edits := edits + [Edit(r.arg, r.dests[k].value, a.url, i)];
      }
      assert r.dests[..|r.dests|] == r.dests;
      return;
    }
    if !(a.rendersAsPlayer && r.isEmbed) { return [Edit(r.arg, r.ranges.dest, a.url, i)]; }
    var alone := CheckStandsAlone(src, r.block, r.ranges.node);
    if alone { return [Edit(r.arg, r.ranges.node, a.url, i)]; }
    var bang := ByteRange(r.ranges.node.start, r.ranges.node.start + 1);
    var drop := "";
    if bang.start > 0 && src[bang.start - 1] == '!' {
      var escaped := IsEscaped(src, bang.start - 1);
      if !escaped { bang, drop := bang.(start := bang.start - 1), "\\!"; }
    }
    edits := edits + [Edit(r.arg, bang, drop, i)];
    if r.ranges.labelText.start == r.ranges.labelText.stop {
      edits := edits + [Edit(r.arg, r.ranges.labelText, EscapeAlt(a.alt), i)];
    }
    edits := edits + [Edit(r.arg, r.ranges.dest, a.url, i)];
  }
}

/** The keywords of an advanced issue search, which stand in brackets before the qualifiers so that no operator among
    them reaches further. */
module SearchKeywords {
  import opened Wrappers
  import opened Strings
  import opened Sorting
  import opened SearchReader
  import opened SearchQuery

  // ---------------------------------------------------------------- how deep in brackets

  /** How many brackets are open, whether a quotation is, and whether the next character of it is escaped. */
  datatype Level = Level(depth: int, quoted: bool, skip: bool)

  const TOP := Level(0, false, false)

  function Advance(at: Level, c: char): Level {
    if at.skip then at.(skip := false)
    else if at.quoted then (if c == '\\' then at.(skip := true) else if c == '"' then at.(quoted := false) else at)
    else if c == '"' then at.(quoted := true)
    else if c == '(' then at.(depth := at.depth + 1)
    else if c == ')' then at.(depth := at.depth - 1)
    else at
  }

  function Scan(at: Level, s: string): Level {
    if s == "" then at else Advance(Scan(at, s[..|s| - 1]), s[|s| - 1])
  }

  lemma {:induction false} ScanConcat(at: Level, a: string, b: string)
    ensures Scan(at, a + b) == Scan(Scan(at, a), b)
    decreases |b|
  {
    if b == "" {
      assert a + b == a;
    } else {
      var front := b[..|b| - 1];
      ScanConcat(at, a, front);
      assert (a + b)[..|a + b| - 1] == a + front;
    }
  }

  lemma {:induction false} ScanDeeper(at: Level, s: string, d: int)
    ensures Scan(at.(depth := at.depth + d), s) == Scan(at, s).(depth := Scan(at, s).depth + d)
  {
    if s != "" {
      ScanDeeper(at, s[..|s| - 1], d);
    }
  }

  lemma {:induction false} SkipsInQuotes(s: string)
    ensures Scan(TOP, s).skip ==> Scan(TOP, s).quoted
  {
    if s != "" {
      SkipsInQuotes(s[..|s| - 1]);
    }
  }

  function Depth(at: Level, s: string, i: nat): int
    requires i <= |s|
  {
    Scan(at, s[..i]).depth
  }

  /** The text closes nothing that was open before it, and leaves the level what it was. */
  ghost predicate Keeps(at: Level, s: string) {
    Scan(at, s) == at &&
    forall i: nat :: i <= |s| ==> Depth(at, s, i) >= at.depth && (at.quoted ==> Scan(at, s[..i]).quoted)
  }

  /** No bracket is closed that was not opened, and at the end no bracket and no quotation is open. */
  ghost predicate SelfContained(s: string) {
    Keeps(TOP, s)
  }

  /** The bracket that the text begins with is closed at `j`. */
  ghost predicate ClosedAt(text: string, j: nat) {
    j < |text| && Depth(TOP, text, j + 1) == 0 && forall k: nat :: 0 < k <= j ==> Depth(TOP, text, k) > 0
  }

  /** A reader of brackets takes the text apart into what the first one encloses and what follows it. */
  ghost predicate ReadsAs(text: string, inside: string, rest: string) {
    exists j: nat :: 3 <= j && ClosedAt(text, j) && Encloses(text, j, inside, rest)
  }

  predicate Encloses(text: string, j: nat, inside: string, rest: string)
    requires 3 <= j < |text|
  {
    j + 1 < |text| && text[..2] == "( " && text[j - 1..j + 2] == " ) " && inside == text[2..j - 1] &&
    rest == text[j + 2..]
  }

  // ---------------------------------------------------------------- keywords in brackets

  function Query(keywords: string, qualifiers: string): string {
    "( " + keywords + " ) " + qualifiers
  }

  lemma QueryParts(keywords: string, qualifiers: string)
    ensures var text, n := Query(keywords, qualifiers), |keywords|;
            |text| == n + 5 + |qualifiers| && text[..2] == "( " && text[n + 2..n + 5] == " ) " &&
            text[2..n + 2] == keywords && text[n + 5..] == qualifiers
  {
  }

  /** Inside the keywords the level is theirs, one deeper. */
  lemma InsideLevel(keywords: string, qualifiers: string, i: nat)
    requires i <= |keywords|
    ensures var at := Scan(TOP, keywords[..i]);
            Scan(TOP, Query(keywords, qualifiers)[..i + 2]) == at.(depth := at.depth + 1)
  {
    var front := Query(keywords, qualifiers)[..i + 2];
    QueryParts(keywords, qualifiers);
    assert front == "( " + keywords[..i];
    ScanConcat(TOP, "( ", keywords[..i]);
    OpenLevel();
    ScanDeeper(TOP, keywords[..i], 1);
  }

  lemma OpenLevel()
    ensures Scan(TOP, "(") == Scan(TOP, "( ") == Level(1, false, false)
  {
    assert "( "[..1] == "(" && "("[..0] == "";
  }

  lemma ScanSnoc(at: Level, text: string, i: nat)
    requires i < |text|
    ensures Scan(at, text[..i + 1]) == Advance(Scan(at, text[..i]), text[i])
  {
    assert text[..i + 1][..i] == text[..i];
  }

  /** The level behind the keywords, behind the space after them, and behind the closing bracket. */
  lemma OutsideLevel(keywords: string, qualifiers: string)
    ensures var text, n := Query(keywords, qualifiers), |keywords|;
            var at := Scan(TOP, keywords).(depth := Scan(TOP, keywords).depth + 1);
            Scan(TOP, text[..n + 2]) == at && Scan(TOP, text[..n + 3]) == Advance(at, ' ') &&
            Scan(TOP, text[..n + 4]) == Advance(Advance(at, ' '), ')') &&
            Scan(TOP, text[..n + 5]) == Advance(Advance(Advance(at, ' '), ')'), ' ')
  {
    var text, n := Query(keywords, qualifiers), |keywords|;
    QueryParts(keywords, qualifiers);
    InsideLevel(keywords, qualifiers, n);
    assert keywords[..n] == keywords;
    assert text[n + 2] == text[n + 2..n + 5][0];
    assert text[n + 3] == text[n + 2..n + 5][1];
    assert text[n + 4] == text[n + 2..n + 5][2];
    ScanSnoc(TOP, text, n + 2);
    ScanSnoc(TOP, text, n + 3);
    ScanSnoc(TOP, text, n + 4);
  }

  lemma SelfContainedCloses(keywords: string, qualifiers: string)
    requires SelfContained(keywords)
    ensures ClosedAt(Query(keywords, qualifiers), |keywords| + 3)
    ensures Scan(TOP, Query(keywords, qualifiers)[..|keywords| + 5]) == TOP
  {
    var text, n := Query(keywords, qualifiers), |keywords|;
    QueryParts(keywords, qualifiers);
    OutsideLevel(keywords, qualifiers);
    forall k: nat | 0 < k <= n + 3 ensures Depth(TOP, text, k) > 0 {
      if k == 1 {
        assert text[..1] == text[..2][..1] == "(";
        OpenLevel();
      } else if k <= n + 2 {
        InsideLevel(keywords, qualifiers, k - 2);
        assert Depth(TOP, keywords, k - 2) >= 0;
      }
    }
  }

  lemma ClosesSelfContained(keywords: string, qualifiers: string)
    requires ClosedAt(Query(keywords, qualifiers), |keywords| + 3)
    ensures SelfContained(keywords)
  {
    QueryParts(keywords, qualifiers);
    forall i: nat | i <= |keywords| ensures Depth(TOP, keywords, i) >= 0 {
      InsideLevel(keywords, qualifiers, i);
      assert Depth(TOP, Query(keywords, qualifiers), i + 2) > 0;
    }
    ClosingDepths(Query(keywords, qualifiers), |keywords| + 3);
    ClosesAtTop(keywords, qualifiers);
  }

  lemma ClosingDepths(text: string, j: nat)
    requires ClosedAt(text, j) && 0 < j
    ensures Scan(TOP, text[..j]).depth > 0 == Scan(TOP, text[..j + 1]).depth
  {
    assert Depth(TOP, text, j) > 0 == Depth(TOP, text, j + 1);
  }

  lemma ClosesAtTop(keywords: string, qualifiers: string)
    requires var text, n := Query(keywords, qualifiers), |keywords|;
             |text| >= n + 4 && Scan(TOP, text[..n + 3]).depth > 0 == Scan(TOP, text[..n + 4]).depth
    ensures Scan(TOP, keywords) == TOP
  {
    OutsideLevel(keywords, qualifiers);
    SkipsInQuotes(keywords);
    TopBefore(Scan(TOP, keywords));
  }

  lemma TopBefore(at: Level)
    requires at.skip ==> at.quoted
    requires var inside := Advance(at.(depth := at.depth + 1), ' '); inside.depth > 0 == Advance(inside, ')').depth
    ensures at == TOP
  {
  }

  /** The keywords are read back, with the qualifiers after them at the top level again, if and only if they leave no
      bracket and no quotation open and close none of their own. */
  lemma KeywordsStayInside(keywords: string, qualifiers: string)
    ensures ReadsAs(Query(keywords, qualifiers), keywords, qualifiers) <==> SelfContained(keywords)
    ensures SelfContained(keywords) ==> Scan(TOP, Query(keywords, qualifiers)[..|keywords| + 5]) == TOP
  {
    var text, n := Query(keywords, qualifiers), |keywords|;
    QueryParts(keywords, qualifiers);
    if SelfContained(keywords) {
      SelfContainedCloses(keywords, qualifiers);
      assert ClosedAt(text, n + 3) && Encloses(text, n + 3, keywords, qualifiers);
    }
    if ReadsAs(text, keywords, qualifiers) {
      var j: nat :| 3 <= j && ClosedAt(text, j) && Encloses(text, j, keywords, qualifiers);
      assert j == n + 3;
      ClosesSelfContained(keywords, qualifiers);
    }
  }

  /** The whole query means what keywords and qualifiers mean side by side, if and only if the keywords are
      self-contained and the text of the qualifiers can be read. */
  lemma WholeMeaning(keywords: string, q: Qualifiers)
    requires forall k :: k in q ==> Name(k)
    ensures ReadsAs(Query(keywords, QualifierText(q)), keywords, QualifierText(q)) &&
            Read(QualifierText(q)) == Some(AllClauses(q)) <==>
            SelfContained(keywords) && Unambiguous(q)
  {
    KeywordsStayInside(keywords, QualifierText(q));
    TextMeaning(q);
  }

  /** Keywords that are taken as they are can close the bracket early. */
  lemma BracketClosedEarly(qualifiers: string)
    ensures !SelfContained("a) OR (b") && ClosedAt(Query("a) OR (b", qualifiers), 3)
  {
    QueryParts("a) OR (b", qualifiers);
    EarlyLevels();
    var text := Query("a) OR (b", qualifiers);
    assert text[..4] == "( a)" && text[..3] == "( a" && text[..2] == "( " && text[..1] == "(";
    assert "a) OR (b"[..2] == "a)";
    assert Depth(TOP, "a) OR (b", 2) == -1;
  }

  lemma EarlyLevels()
    ensures Scan(TOP, "(").depth == Scan(TOP, "( ").depth == Scan(TOP, "( a").depth == 1
    ensures Scan(TOP, "( a)").depth == 0 && Scan(TOP, "a)").depth == -1
  {
    OpenLevel();
    assert "( a"[..2] == "( " && "( a)"[..3] == "( a" && "a)"[..1] == "a" && "a"[..0] == "";
  }

  // ---------------------------------------------------------------- keywords given as a list

  /** A keyword, or the value of one that names a qualifier, is quoted if it needs to be. */
  function KeywordText(k: string): string {
    var c := Colon(k);
    if c == |k| then Quote(k) else k[..c] + ":" + Quote(k[c + 1..])
  }

  function KeywordTexts(ks: seq<string>): (r: seq<string>)
    ensures |r| == |ks|
  {
    if ks == [] then [] else KeywordTexts(ks[..|ks| - 1]) + [KeywordText(ks[|ks| - 1])]
  }

  lemma {:induction false} KeywordTextsAt(ks: seq<string>, i: nat)
    requires i < |ks|
    ensures KeywordTexts(ks)[i] == KeywordText(ks[i])
  {
    if i < |ks| - 1 { KeywordTextsAt(ks[..|ks| - 1], i); }
  }

  lemma {:induction false} KeywordTextsFirst(ks: seq<string>)
    requires ks != []
    ensures KeywordTexts(ks) == [KeywordText(ks[0])] + KeywordTexts(ks[1..])
  {
    if |ks| > 1 {
      var front := ks[..|ks| - 1];
      KeywordTextsFirst(front);
      assert front[1..] == ks[1..][..|ks| - 2];
      Associate([KeywordText(ks[0])], KeywordTexts(front[1..]), [KeywordText(ks[|ks| - 1])]);
    }
  }

  predicate Bare(s: string) {
    forall i :: 0 <= i < |s| ==> s[i] != '(' && s[i] != ')' && s[i] != '"'
  }

  /** Outside of the part that is quoted the keyword has neither brackets nor quotes. */
  predicate BareOutside(k: string) {
    var c := Colon(k);
    if c == |k| then NeedsQuotes(k) || Bare(k)
    else Bare(k[..c]) && (NeedsQuotes(k[c + 1..]) || Bare(k[c + 1..]))
  }

  lemma KeepsBoth(at: Level, a: string, b: string)
    requires Keeps(at, a) && Keeps(at, b)
    ensures Keeps(at, a + b)
  {
    ScanConcat(at, a, b);
    forall i: nat | i <= |a + b|
      ensures Depth(at, a + b, i) >= at.depth && (at.quoted ==> Scan(at, (a + b)[..i]).quoted)
    {
      if i <= |a| {
        assert (a + b)[..i] == a[..i];
        assert Depth(at, a, i) >= at.depth;
      } else {
        assert (a + b)[..i] == a + b[..i - |a|];
        ScanConcat(at, a, b[..i - |a|]);
        assert Depth(at, b, i - |a|) >= at.depth;
      }
    }
  }

  lemma {:induction false} BareScan(s: string)
    requires Bare(s)
    ensures Scan(TOP, s) == TOP
  {
    if s != "" {
      BareScan(s[..|s| - 1]);
    }
  }

  lemma BareKeeps(s: string)
    requires Bare(s)
    ensures SelfContained(s)
  {
    forall i: nat | i <= |s| ensures Depth(TOP, s, i) >= 0 {
      BareScan(s[..i]);
    }
    BareScan(s);
  }

  const QUOTED := Level(0, true, false)

  lemma PlainCharsKeep(s: string)
    requires forall i :: 0 <= i < |s| ==> s[i] != '"' && s[i] != '\\'
    ensures Keeps(QUOTED, s)
  {
    forall i: nat | i <= |s| ensures Scan(QUOTED, s[..i]) == QUOTED {
      PlainCharsScan(s[..i]);
    }
    assert s[..|s|] == s;
  }

  lemma {:induction false} PlainCharsScan(s: string)
    requires forall i :: 0 <= i < |s| ==> s[i] != '"' && s[i] != '\\'
    ensures Scan(QUOTED, s) == QUOTED
  {
    if s != "" {
      PlainCharsScan(s[..|s| - 1]);
    }
  }

  lemma EscapeKeeps(c: char)
    ensures Keeps(QUOTED, ['\\', c])
  {
    var s := ['\\', c];
    ScanSnoc(QUOTED, s, 0);
    ScanSnoc(QUOTED, s, 1);
    assert s[..0] == "" && s[..2] == s;
    assert Depth(QUOTED, s, 0) == Depth(QUOTED, s, 1) == Depth(QUOTED, s, 2) == 0;
  }

  lemma QuotedCharKeeps(c: char)
    ensures Keeps(QUOTED, QuotedChar(c))
  {
    var q := QuotedChar(c);
    if q[0] == '\\' {
      EscapeKeeps(q[1]);
      PlainCharsKeep(q[2..]);
      KeepsBoth(QUOTED, ['\\', q[1]], q[2..]);
      assert q == ['\\', q[1]] + q[2..];
    } else {
      PlainCharsKeep(q);
    }
  }

  lemma {:induction false} QuotedKeeps(s: string)
    ensures Keeps(QUOTED, Quoted(s))
  {
    if s == "" {
      PlainCharsKeep("");
    } else {
      QuotedCharKeeps(s[0]);
      QuotedKeeps(s[1..]);
      KeepsBoth(QUOTED, QuotedChar(s[0]), Quoted(s[1..]));
    }
  }

  lemma QuotationKeeps(s: string)
    requires Keeps(QUOTED, s)
    ensures SelfContained("\"" + s + "\"")
  {
    var open, all := "\"" + s, "\"" + s + "\"";
    OpenQuote();
    ScanConcat(TOP, "\"", s);
    ScanSnoc(TOP, all, |open|);
    assert all[..|open|] == open && all[..|all|] == all;
    forall i: nat | i <= |all| ensures Depth(TOP, all, i) >= 0 {
      if 0 < i <= |open| { QuotationDepth(s, i); }
    }
  }

  lemma OpenQuote()
    ensures Scan(TOP, "\"") == QUOTED
  {
    assert "\""[..0] == "";
  }

  lemma QuotationDepth(s: string, i: nat)
    requires Keeps(QUOTED, s) && 0 < i <= |s| + 1
    ensures Depth(TOP, "\"" + s + "\"", i) >= 0
  {
    OpenQuote();
    assert ("\"" + s + "\"")[..i] == "\"" + s[..i - 1];
    ScanConcat(TOP, "\"", s[..i - 1]);
    assert Depth(QUOTED, s, i - 1) >= 0;
  }

  lemma ValueKeeps(v: string)
    requires NeedsQuotes(v) || Bare(v)
    ensures SelfContained(Quote(v))
  {
    if NeedsQuotes(v) {
      QuotedKeeps(v);
      QuotationKeeps(Quoted(v));
    } else {
      BareKeeps(v);
    }
  }

  lemma KeywordKeeps(k: string)
    requires BareOutside(k)
    ensures SelfContained(KeywordText(k))
  {
    var c := Colon(k);
    if c == |k| {
      ValueKeeps(k);
    } else {
      BareKeeps(k[..c] + ":");
      ValueKeeps(k[c + 1..]);
      KeepsBoth(TOP, k[..c] + ":", Quote(k[c + 1..]));
    }
  }

  /** Keywords given as a list stay inside their bracket, if they have brackets or quotes in quoted parts only. */
  lemma {:induction false} ListedKeywordsStay(ks: seq<string>)
    requires forall i :: 0 <= i < |ks| ==> BareOutside(ks[i])
    ensures SelfContained(Join(KeywordTexts(ks), " "))
  {
    if ks == [] {
      BareKeeps("");
    } else {
      KeywordKeeps(ks[0]);
      KeywordTextsFirst(ks);
      if |ks| > 1 {
        ListedKeywordsStay(ks[1..]);
        BareKeeps(" ");
        KeepsBoth(TOP, KeywordText(ks[0]), " ");
        KeepsBoth(TOP, KeywordText(ks[0]) + " ", Join(KeywordTexts(ks[1..]), " "));
      }
    }
  }
}

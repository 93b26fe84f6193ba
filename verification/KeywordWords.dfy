/** Keywords given as a list: every one is read back as itself, by a reader that splits the text at its spaces. */
module KeywordWords {
  import opened Wrappers
  import opened Strings
  import opened SearchReader
  import opened SearchKeywords

  // ---------------------------------------------------------------- one word for each keyword

  /** A space at `i` that is not inside a quotation. */
  predicate Loose(at: Level, s: string, i: nat) {
    i < |s| && s[i] == ' ' && !Scan(at, s[..i]).quoted
  }

  ghost predicate NoneLoose(at: Level, s: string, n: nat) {
    forall i: nat :: i < n ==> !Loose(at, s, i)
  }

  lemma ScanFirst(at: Level, s: string, i: nat)
    requires 0 < i <= |s|
    ensures Scan(at, s[..i]) == Scan(Advance(at, s[0]), s[1..][..i - 1])
  {
    assert s[..i] == [s[0]] + s[1..][..i - 1];
    assert [s[0]][..0] == "" && Scan(at, [s[0]]) == Advance(at, s[0]);
    ScanConcat(at, [s[0]], s[1..][..i - 1]);
  }

  lemma NoneLooseFirst(at: Level, s: string, n: nat)
    requires s != "" && 0 < n <= |s| && NoneLoose(at, s, n)
    ensures NoneLoose(Advance(at, s[0]), s[1..], n - 1)
  {
    forall i: nat | i < n - 1 ensures !Loose(Advance(at, s[0]), s[1..], i) {
      ScanFirst(at, s, i + 1);
      assert !Loose(at, s, i + 1);
    }
  }

  /** Without loose spaces the whole text is one word. */
  lemma {:induction false} WholeWord(at: Level, s: string)
    requires !at.skip && NoneLoose(at, s, |s|)
    ensures Words(s, at.quoted) == [s]
    decreases |s|
  {
    if s == "" {
    } else {
      assert !Loose(at, s, 0) && s[..0] == "";
      NoneLooseFirst(at, s, |s|);
      if s[0] == '\\' && at.quoted && |s| > 1 {
        NoneLooseFirst(Advance(at, s[0]), s[1..], |s| - 1);
        assert s[1..][1..] == s[2..];
        WholeWord(Advance(Advance(at, s[0]), s[1]), s[2..]);
        assert s[..2] + s[2..] == s;
      } else {
        if |s| == 1 { assert s[1..] == ""; } else { WholeWord(Advance(at, s[0]), s[1..]); }
        assert s[..1] + s[1..] == s;
      }
    }
  }

  /** The first word ends at the first loose space. */
  lemma {:induction false} FirstWord(at: Level, s: string, n: nat)
    requires !at.skip && Loose(at, s, n) && NoneLoose(at, s, n)
    ensures Words(s, at.quoted) == [s[..n]] + Words(s[n + 1..], false)
    decreases |s|
  {
    if n == 0 {
      assert s[..0] == "" && s[1..] == s[0 + 1..];
    } else {
      assert !Loose(at, s, 0) && s[..0] == "";
      NoneLooseFirst(at, s, n);
      ScanFirst(at, s, n);
      if s[0] == '\\' && at.quoted {
        SkippedWord(at, s, n);
      } else {
        FirstWord(Advance(at, s[0]), s[1..], n - 1);
        assert s[..1] + s[1..][..n - 1] == s[..n] && s[1..][n..] == s[n + 1..];
      }
    }
  }

  lemma {:induction false} SkippedWord(at: Level, s: string, n: nat)
    requires !at.skip && at.quoted && Loose(at, s, n) && NoneLoose(at, s, n) && n > 0 && s[0] == '\\'
    requires NoneLoose(Advance(at, s[0]), s[1..], n - 1) && Loose(Advance(at, s[0]), s[1..], n - 1)
    ensures Words(s, true) == [s[..n]] + Words(s[n + 1..], false)
    decreases |s|, 0
  {
    assert s[1..][..0] == "";
    if n > 1 {
      NoneLooseFirst(Advance(at, s[0]), s[1..], n - 1);
      ScanFirst(Advance(at, s[0]), s[1..], n - 1);
      assert s[1..][1..] == s[2..];
      FirstWord(Advance(Advance(at, s[0]), s[1]), s[2..], n - 2);
      assert s[..2] + s[2..][..n - 2] == s[..n] && s[2..][n - 1..] == s[n + 1..];
    }
  }

  /** The text is one word. */
  ghost predicate OneWord(s: string) {
    NoneLoose(TOP, s, |s|)
  }

  /** The text is one word, and no quotation is open behind it. */
  ghost predicate ClosedWord(s: string) {
    OneWord(s) && !Scan(TOP, s).quoted
  }

  lemma OneWordIff(s: string)
    ensures Words(s, false) == [s] <==> OneWord(s)
  {
    if OneWord(s) {
      WholeWord(TOP, s);
    } else {
      var n := FirstLoose(TOP, s);
      FirstWord(TOP, s, n);
      assert |s[..n]| < |s|;
    }
  }

  lemma {:induction false} FirstLoose(at: Level, s: string) returns (n: nat)
    requires !NoneLoose(at, s, |s|)
    ensures Loose(at, s, n) && NoneLoose(at, s, n)
  {
    n := FirstLooseFrom(at, s, 0);
  }

  lemma {:induction false} FirstLooseFrom(at: Level, s: string, from: nat) returns (n: nat)
    requires NoneLoose(at, s, from) && !NoneLoose(at, s, |s|) && from <= |s|
    ensures Loose(at, s, n) && NoneLoose(at, s, n)
    decreases |s| - from
  {
    if from == |s| || Loose(at, s, from) {
      n := from;
    } else {
      n := FirstLooseFrom(at, s, from + 1);
    }
  }

  lemma SamePrefix(a: string, b: string, i: nat)
    requires i < |a|
    ensures Loose(TOP, a + b, i) <==> Loose(TOP, a, i)
  {
    assert (a + b)[..i] == a[..i];
  }

  /** What follows a space is read by itself if and only if what stands before it is one word and closed. */
  lemma SplitOff(a: string, rest: string)
    ensures Words(a + " " + rest, false) == [a] + Words(rest, false) <==> ClosedWord(a)
    ensures !ClosedWord(a) ==> Words(a + " " + rest, false)[0] != a
  {
    var all := a + " " + rest;
    assert all[..|a|] == a && all[|a| + 1..] == rest && ([a] + Words(rest, false))[0] == a;
    LooseAfter(a, rest);
    if ClosedWord(a) {
      FirstWord(TOP, all, |a|);
    } else if NoneLoose(TOP, all, |all|) {
      WholeWord(TOP, all);
      assert all != a;
    } else {
      var n := FirstLoose(TOP, all);
      FirstWord(TOP, all, n);
      assert |all[..n]| == n != |a|;
    }
  }

  lemma LooseAfter(a: string, rest: string)
    ensures Loose(TOP, a + " " + rest, |a|) && NoneLoose(TOP, a + " " + rest, |a|) <==> ClosedWord(a)
  {
    var all := a + " " + rest;
    assert all == a + (" " + rest) && all[..|a|] == a && all[|a|] == ' ';
    forall i: nat | i < |a| ensures Loose(TOP, all, i) <==> Loose(TOP, a, i) { SamePrefix(a, " " + rest, i); }
  }

  /** Every text is one word, and every one but the last is closed. */
  ghost predicate AllWords(texts: seq<string>)
    requires texts != []
  {
    OneWord(texts[|texts| - 1]) && forall i :: 0 <= i < |texts| - 1 ==> ClosedWord(texts[i])
  }

  lemma AllWordsFirst(texts: seq<string>)
    requires |texts| > 1
    ensures AllWords(texts) <==> ClosedWord(texts[0]) && AllWords(texts[1..])
  {
    var rest := texts[1..];
    assert forall i :: 0 <= i < |rest| ==> rest[i] == texts[i + 1];
    if ClosedWord(texts[0]) && AllWords(rest) {
      forall i | 0 <= i < |texts| - 1 ensures ClosedWord(texts[i]) {
        if i > 0 { assert ClosedWord(rest[i - 1]); }
      }
    }
  }

  /** Texts joined by spaces are read as just these words if and only if every one of them is one word and every one but
      the last is closed. */
  lemma {:induction false} WordsOfTexts(texts: seq<string>)
    requires texts != []
    ensures Words(Join(texts, " "), false) == texts <==> AllWords(texts)
  {
    if |texts| == 1 {
      OneWordIff(texts[0]);
      assert texts == [texts[0]];
    } else {
      WordsOfTexts(texts[1..]);
      SplitOff(texts[0], Join(texts[1..], " "));
      AllWordsFirst(texts);
      FirstAndRest(texts, Words(Join(texts, " "), false), Words(Join(texts[1..], " "), false));
    }
  }

  lemma FirstAndRest(texts: seq<string>, all: seq<string>, rest: seq<string>)
    requires texts != [] && all != []
    ensures all == [texts[0]] + rest ==> (all == texts <==> rest == texts[1..])
    ensures all[0] != texts[0] ==> all != texts
  {
    if all == [texts[0]] + rest { assert all[1..] == rest && texts == [texts[0]] + texts[1..]; }
  }

  // ---------------------------------------------------------------- what a keyword becomes

  /** What stands before the first colon of a keyword, and behind it, which is the whole keyword if it has none. */
  function Before(k: string): string {
    if Colon(k) == |k| then "" else k[..Colon(k)]
  }

  function Behind(k: string): string {
    if Colon(k) == |k| then k else k[Colon(k) + 1..]
  }

  /** The text says what the keyword says: the same qualifier, and a value that reads back as the one given. */
  predicate Says(text: string, k: string) {
    if Colon(k) == |k| then ReadValue(text) == Some(k)
    else
      Colon(text) == Colon(k) < |text| && text[..Colon(k)] == Before(k) &&
      ReadValue(text[Colon(k) + 1..]) == Some(Behind(k))
  }

  lemma {:induction false} NoColonBefore(k: string)
    ensures ':' !in k[..Colon(k)]
  {
    if k != "" && k[0] != ':' {
      NoColonBefore(k[1..]);
      assert k[..Colon(k)] == [k[0]] + k[1..][..Colon(k) - 1];
    }
  }

  lemma TextSays(k: string)
    ensures Says(KeywordText(k), k)
  {
    ValueRoundTrip(Behind(k));
    if Colon(k) < |k| {
      var text := KeywordText(k);
      NoColonBefore(k);
      ColonAfter(Before(k), Quote(Behind(k)));
      assert text[..Colon(k)] == Before(k) && text[Colon(k) + 1..] == Quote(Behind(k));
    }
  }

  /** There is a text for each keyword, which says what it says. */
  ghost predicate SayAll(texts: seq<string>, ks: seq<string>) {
    |texts| == |ks| && forall i :: 0 <= i < |ks| ==> Says(texts[i], ks[i])
  }

  lemma TextsSay(ks: seq<string>)
    ensures SayAll(KeywordTexts(ks), ks)
  {
    forall i | 0 <= i < |ks| ensures Says(KeywordTexts(ks)[i], ks[i]) {
      KeywordTextsAt(ks, i);
      TextSays(ks[i]);
    }
  }

  // ---------------------------------------------------------------- exactly which keywords stay one word

  /** The part before the colon leaves a quotation open. */
  predicate LeftOpen(k: string) {
    Scan(TOP, Before(k)).quoted
  }

  /** Read with its own quotes taken the other way round, the value is one word and ends inside a quotation. */
  ghost predicate Inverted(v: string) {
    NeedsQuotes(v) && OneWord(Quoted(v)) && Scan(TOP, Quoted(v)).quoted && !Scan(TOP, Quoted(v)).skip
  }

  /** No loose space before the colon, where a quotation is left open only if the quotes of the value close it. */
  ghost predicate StandsApart(k: string) {
    OneWord(Before(k)) && (LeftOpen(k) ==> Inverted(Behind(k)))
  }

  ghost predicate StandsLast(k: string) {
    OneWord(Before(k)) && (LeftOpen(k) && NeedsQuotes(Behind(k)) ==> OneWord(Quoted(Behind(k))))
  }

  lemma NoneLooseConcat(at: Level, a: string, b: string)
    ensures NoneLoose(at, a + b, |a + b|) <==> NoneLoose(at, a, |a|) && NoneLoose(Scan(at, a), b, |b|)
  {
    forall i: nat | i < |a| ensures Loose(at, a + b, i) <==> Loose(at, a, i) {
      assert (a + b)[..i] == a[..i];
    }
    forall i: nat | i < |b| ensures Loose(at, a + b, |a| + i) <==> Loose(Scan(at, a), b, i) {
      assert (a + b)[..|a| + i] == a + b[..i];
      ScanConcat(at, a, b[..i]);
    }
    if NoneLoose(at, a, |a|) && NoneLoose(Scan(at, a), b, |b|) {
      forall i: nat | i < |a + b| ensures !Loose(at, a + b, i) {
        if i >= |a| { assert !Loose(Scan(at, a), b, i - |a|); }
      }
    }
    if NoneLoose(at, a + b, |a + b|) {
      forall i: nat | i < |b| ensures !Loose(Scan(at, a), b, i) { assert !Loose(at, a + b, |a| + i); }
    }
  }

  /** Brackets do not matter here. */
  lemma AnyDepth(at: Level, s: string, d: int)
    ensures NoneLoose(at.(depth := d), s, |s|) <==> NoneLoose(at, s, |s|)
    ensures Scan(at.(depth := d), s).quoted == Scan(at, s).quoted && Scan(at.(depth := d), s).skip == Scan(at, s).skip
  {
    forall i: nat | i < |s| ensures Loose(at.(depth := d), s, i) <==> Loose(at, s, i) {
      ScanDeeper(at, s[..i], d - at.depth);
    }
    ScanDeeper(at, s, d - at.depth);
    if NoneLoose(at, s, |s|) {
      forall i: nat | i < |s| ensures !Loose(at.(depth := d), s, i) { assert !Loose(at, s, i); }
    }
    if NoneLoose(at.(depth := d), s, |s|) {
      forall i: nat | i < |s| ensures !Loose(at, s, i) { assert !Loose(at.(depth := d), s, i); }
    }
  }

  lemma {:induction false} NoQuotesScan(at: Level, s: string)
    requires '"' !in s
    ensures Scan(at, s).quoted == at.quoted && (!at.quoted && !at.skip ==> !Scan(at, s).skip)
  {
    if s != "" { NoQuotesScan(at, s[..|s| - 1]); }
  }

  lemma PlainValue(at: Level, v: string)
    requires !NeedsQuotes(v)
    ensures NoneLoose(at, v, |v|) && Scan(at, v).quoted == at.quoted && Quote(v) == v
  {
    NoQuotesScan(at, v);
  }

  lemma OneChar(at: Level, c: char)
    ensures Scan(at, [c]) == Advance(at, c)
    ensures c != ' ' ==> NoneLoose(at, [c], 1)
  {
    assert [c][..0] == "";
  }

  /** A value between quotes: what the level is behind it, and whether it has a loose space. */
  lemma QuotedValue(at: Level, v: string)
    requires NeedsQuotes(v)
    ensures var inside := Advance(at, '"');
            Scan(at, Quote(v)) == Advance(Scan(inside, Quoted(v)), '"') &&
            (NoneLoose(at, Quote(v), |Quote(v)|) <==> NoneLoose(inside, Quoted(v), |Quoted(v)|))
  {
    var inside := Advance(at, '"');
    assert Quote(v) == "\"" + (Quoted(v) + "\"");
    NoneLooseConcat(at, "\"", Quoted(v) + "\"");
    NoneLooseConcat(inside, Quoted(v), "\"");
    OneChar(at, '"');
    OneChar(Scan(inside, Quoted(v)), '"');
    ScanConcat(at, "\"", Quoted(v) + "\"");
    ScanConcat(inside, Quoted(v), "\"");
  }

  lemma KeptInQuotes(v: string)
    ensures NoneLoose(QUOTED, Quoted(v), |Quoted(v)|) && Scan(QUOTED, Quoted(v)) == QUOTED
  {
    QuotedKeeps(v);
    forall i: nat | i < |Quoted(v)| ensures !Loose(QUOTED, Quoted(v), i) {
      assert Depth(QUOTED, Quoted(v), i) >= 0;
    }
  }

  /** Outside of quotations a value is one closed word. */
  lemma ValueApart(at: Level, v: string)
    requires !at.quoted && !at.skip
    ensures NoneLoose(at, Quote(v), |Quote(v)|) && !Scan(at, Quote(v)).quoted
  {
    if NeedsQuotes(v) {
      QuotedValue(at, v);
      KeptInQuotes(v);
      AnyDepth(QUOTED, Quoted(v), at.depth);
    } else {
      PlainValue(at, v);
    }
  }

  /** Inside of one its quotes count the other way round. */
  lemma ValueInverted(at: Level, v: string)
    requires at.quoted && !at.skip
    ensures NoneLoose(at, Quote(v), |Quote(v)|) <==> (NeedsQuotes(v) ==> OneWord(Quoted(v)))
    ensures NoneLoose(at, Quote(v), |Quote(v)|) && !Scan(at, Quote(v)).quoted <==> Inverted(v)
  {
    if NeedsQuotes(v) {
      QuotedValue(at, v);
      AnyDepth(TOP, Quoted(v), at.depth);
      SkipsInQuotes(Quoted(v));
    } else {
      PlainValue(at, v);
    }
  }

  /** Exactly which keywords are one closed word, and which are one word where nothing follows. */
  lemma KeywordApart(k: string)
    ensures ClosedWord(KeywordText(k)) <==> StandsApart(k)
    ensures OneWord(KeywordText(k)) <==> StandsLast(k)
  {
    var b, v := Before(k), Behind(k);
    if Colon(k) == |k| {
      ValueApart(TOP, v);
    } else {
      var lead := b + ":";
      var at := Scan(TOP, lead);
      NoneLooseConcat(TOP, lead, Quote(v));
      ScanConcat(TOP, lead, Quote(v));
      LeadLevel(b);
      if at.quoted { ValueInverted(at, v); } else { ValueApart(at, v); }
    }
  }

  lemma LeadLevel(b: string)
    ensures OneWord(b + ":") <==> OneWord(b)
    ensures Scan(TOP, b + ":").quoted == Scan(TOP, b).quoted && !Scan(TOP, b + ":").skip
  {
    NoneLooseConcat(TOP, b, ":");
    ScanConcat(TOP, b, ":");
    OneChar(Scan(TOP, b), ':');
    SkipsInQuotes(b);
  }

  /** All keywords but the last stand apart, and the last is one word. */
  ghost predicate AllApart(ks: seq<string>) {
    ks != [] && StandsLast(ks[|ks| - 1]) && forall i :: 0 <= i < |ks| - 1 ==> StandsApart(ks[i])
  }

  /** The keywords are read back one by one, split at the spaces, if and only if they stand apart. */
  lemma KeywordsReadBack(ks: seq<string>)
    requires ks != []
    ensures Words(Join(KeywordTexts(ks), " "), false) == KeywordTexts(ks) <==> AllApart(ks)
  {
    var texts := KeywordTexts(ks);
    WordsOfTexts(texts);
    KeywordApart(ks[|ks| - 1]);
    KeywordTextsAt(ks, |ks| - 1);
    forall i | 0 <= i < |ks| - 1 ensures ClosedWord(texts[i]) <==> StandsApart(ks[i]) {
      KeywordTextsAt(ks, i);
      KeywordApart(ks[i]);
    }
  }

  /** Where no quote stands before a colon, no space must. */
  lemma PlainKeywords(ks: seq<string>)
    requires ks != [] && forall i :: 0 <= i < |ks| ==> '"' !in Before(ks[i])
    ensures AllApart(ks) <==> forall i :: 0 <= i < |ks| ==> ' ' !in Before(ks[i])
  {
    forall i | 0 <= i < |ks|
      ensures (StandsApart(ks[i]) <==> ' ' !in Before(ks[i])) && (StandsLast(ks[i]) <==> ' ' !in Before(ks[i]))
    {
      PlainLead(Before(ks[i]));
    }
  }

  lemma PlainLead(b: string)
    requires '"' !in b
    ensures !Scan(TOP, b).quoted && (OneWord(b) <==> ' ' !in b)
  {
    NoQuotesScan(TOP, b);
    if ' ' in b {
      var i: nat :| i < |b| && b[i] == ' ';
      NoQuotesScan(TOP, b[..i]);
      assert Loose(TOP, b, i);
    }
  }

  /** A quote before the colon can swallow the next keyword. */
  lemma SwallowedKeyword()
    ensures Words(Join(KeywordTexts(["\"a:b", "c"]), " "), false) != KeywordTexts(["\"a:b", "c"])
  {
    LeavesOpen();
    KeywordsReadBack(["\"a:b", "c"]);
    assert !StandsApart(["\"a:b", "c"][0]);
  }

  lemma LeavesOpen()
    ensures !StandsApart("\"a:b")
  {
    assert "\"a:b" == "\"a" + ":" + "b";
    ColonAfter("\"a", "b");
    assert Before("\"a:b") == "\"a" && Behind("\"a:b") == "b";
    OpensQuotation();
  }

  lemma OpensQuotation()
    ensures Scan(TOP, "\"a").quoted
  {
    assert "\"a"[..1] == "\"" && "\""[..0] == "";
  }

  // ---------------------------------------------------------------- as it runs

  method FormatKeyword(k: string) returns (text: string)
    ensures text == KeywordText(k)
  {
    var c := Colon(k);
    if c == |k| {
      text := Quote(k);
    } else {
      var value := Quote(k[c + 1..]);
      text := k[..c] + ":" + value;
    }
  }

  /** The text for each keyword says what the keyword says, and the texts are read back one by one exactly if the
      keywords stand apart. */
  method FormatKeywords(ks: seq<string>) returns (result: seq<string>)
    ensures result == KeywordTexts(ks)
    ensures SayAll(result, ks) && ReadApart(result, ks)
  {
    result := [];
    for i := 0 to |ks|
      invariant result == KeywordTexts(ks[..i])
    {
      assert ks[..i + 1][..i] == ks[..i];
      var text := FormatKeyword(ks[i]);
      result := result + [text];
    }
    assert ks[..|ks|] == ks;
    TextsSay(ks);
    TextsReadApart(ks);
  }

  /** Split at its spaces the joined text gives the texts back exactly if the keywords stand apart. */
  ghost predicate ReadApart(texts: seq<string>, ks: seq<string>) {
    ks != [] ==> (Words(Join(texts, " "), false) == texts <==> AllApart(ks))
  }

  lemma TextsReadApart(ks: seq<string>)
    ensures ReadApart(KeywordTexts(ks), ks)
  {
    if ks != [] { KeywordsReadBack(ks); }
  }

  /** Keywords given as one text are taken as they are, and before those of the list. */
  function KeywordPart(immutableKeywords: string, ks: seq<string>): string {
    if immutableKeywords != "" then immutableKeywords else Join(KeywordTexts(ks), " ")
  }
}

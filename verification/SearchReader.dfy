/** Search terms as text, and a reader of the advanced search syntax: clauses that must all hold, separated by spaces;
    a clause is one term, or terms in brackets of which one must hold. */
module SearchReader {
  import opened Wrappers
  import opened Strings

  datatype Term = Term(key: string, value: string)

  type Clause = seq<Term>

  // ---------------------------------------------------------------- terms

  predicate Delimits(c: char) {
    c == ' ' || c == '"' || c == '\t' || c == '\r' || c == '\n'
  }

  predicate NeedsQuotes(s: string) {
    exists i :: 0 <= i < |s| && Delimits(s[i])
  }

  function HexDigit(n: nat): char
    requires n < 16
  {
    "0123456789abcdef"[n]
  }

  /** A character inside a quoted string. Every character outside ASCII is taken to be printable. */
  function QuotedChar(c: char): (r: string)
    ensures r != "" && (r[0] == '\\' || (|r| == 1 && r[0] == c && c != '"' && c != '\\'))
    ensures r[0] == '\\' ==> |r| >= 2
    ensures forall i :: 2 <= i < |r| ==> r[i] != '"' && r[i] != '\\'
  {
    if c == '"' then ['\\', '"']
    else if c == '\\' then ['\\', '\\']
    else if c == '\n' then ['\\', 'n']
    else if c == '\t' then ['\\', 't']
    else if c == '\r' then ['\\', 'r']
    else if c as int == 7 then ['\\', 'a']
    else if c as int == 8 then ['\\', 'b']
    else if c as int == 11 then ['\\', 'v']
    else if c as int == 12 then ['\\', 'f']
    else if c as int < 32 || c as int == 127 then ['\\', 'x', HexDigit(c as int / 16), HexDigit(c as int % 16)]
    else [c]
  }

  function Quoted(s: string): string {
    if s == "" then "" else QuotedChar(s[0]) + Quoted(s[1..])
  }

  function Quote(s: string): string {
    if NeedsQuotes(s) then "\"" + Quoted(s) + "\"" else s
  }

  function TermText(t: Term): string {
    t.key + ":" + Quote(t.value)
  }

  function HexDigitValue(c: char): Option<nat> {
    if '0' <= c <= '9' then Some(c as int - '0' as int)
    else if 'a' <= c <= 'f' then Some(c as int - 'a' as int + 10)
    else None
  }

  /** What a backslash and `c` stand for. */
  function Escaped(c: char): char {
    match c
    case 'n' => '\n'
    case 't' => '\t'
    case 'r' => '\r'
    case 'a' => 7 as char
    case 'b' => 8 as char
    case 'v' => 11 as char
    case 'f' => 12 as char
    case other => other
  }

  function Unquoted(s: string): Option<string> {
    if s == "" then Some("")
    else if s[0] != '\\' then
      var rest := Unquoted(s[1..]);
      if rest.None? then None else Some([s[0]] + rest.value)
    else if |s| < 2 then None
    else if s[1] == 'x' then
      if |s| < 4 || HexDigitValue(s[2]).None? || HexDigitValue(s[3]).None? then None
      else
        var rest := Unquoted(s[4..]);
        if rest.None? then None
        else Some([(HexDigitValue(s[2]).value * 16 + HexDigitValue(s[3]).value) as char] + rest.value)
    else
      var rest := Unquoted(s[2..]);
      if rest.None? then None else Some([Escaped(s[1])] + rest.value)
  }

  function ReadValue(s: string): Option<string> {
    if s == "" || s[0] != '"' then Some(s)
    else if |s| < 2 || s[|s| - 1] != '"' then None
    else Unquoted(s[1..|s| - 1])
  }

  function Colon(s: string): (n: nat)
    ensures n <= |s| && (n < |s| ==> s[n] == ':')
  {
    if s == "" || s[0] == ':' then 0 else 1 + Colon(s[1..])
  }

  function ReadTerm(s: string): Option<Term> {
    var n := Colon(s);
    if n == |s| then None
    else
      var value := ReadValue(s[n + 1..]);
      if value.None? then None else Some(Term(s[..n], value.value))
  }

  /** Qualifier names are made of small letters and dashes. */
  predicate Name(key: string) {
    key != "" && forall i :: 0 <= i < |key| ==> 'a' <= key[i] <= 'z' || key[i] == '-'
  }

  lemma HexDigitBack(n: nat)
    requires n < 16
    ensures HexDigitValue(HexDigit(n)) == Some(n)
  {
  }

  lemma UnquotedHex(c: char, rest: string)
    requires c as int < 128 && Unquoted(rest).Some?
    ensures Unquoted(['\\', 'x', HexDigit(c as int / 16), HexDigit(c as int % 16)] + rest) ==
            Some([c] + Unquoted(rest).value)
  {
    var q := ['\\', 'x', HexDigit(c as int / 16), HexDigit(c as int % 16)];
    HexDigitBack(c as int / 16);
    HexDigitBack(c as int % 16);
    assert (q + rest)[4..] == rest;
    assert (q + rest)[0] == q[0] && (q + rest)[1] == q[1] && (q + rest)[2] == q[2] && (q + rest)[3] == q[3];
  }

  lemma UnquotedShort(e: char, rest: string)
    requires e != 'x' && Unquoted(rest).Some?
    ensures Unquoted(['\\', e] + rest) == Some([Escaped(e)] + Unquoted(rest).value)
  {
    assert (['\\', e] + rest)[2..] == rest;
  }

  lemma UnquotedPlain(c: char, rest: string)
    requires c != '\\' && Unquoted(rest).Some?
    ensures Unquoted([c] + rest) == Some([c] + Unquoted(rest).value)
  {
    assert ([c] + rest)[1..] == rest;
  }

  lemma QuotedForms(c: char)
    ensures var q := QuotedChar(c);
            (q == [c] && c != '\\') || (|q| == 2 && q == ['\\', q[1]] && q[1] != 'x' && Escaped(q[1]) == c) ||
            (c as int < 128 && q == ['\\', 'x', HexDigit(c as int / 16), HexDigit(c as int % 16)])
  {
  }

  lemma UnquotedChar(c: char, rest: string)
    requires Unquoted(rest).Some?
    ensures Unquoted(QuotedChar(c) + rest) == Some([c] + Unquoted(rest).value)
  {
    var q := QuotedChar(c);
    QuotedForms(c);
    if |q| == 1 {
      UnquotedPlain(c, rest);
    } else if |q| == 2 {
      UnquotedShort(q[1], rest);
    } else {
      UnquotedHex(c, rest);
    }
  }

  lemma {:induction false} QuotedRoundTrip(s: string)
    ensures Unquoted(Quoted(s)) == Some(s)
  {
    if s == "" {
    } else {
      QuotedRoundTrip(s[1..]);
      UnquotedChar(s[0], Quoted(s[1..]));
      assert [s[0]] + s[1..] == s;
    }
  }

  lemma {:induction false} ColonAfter(key: string, rest: string)
    requires ':' !in key
    ensures Colon(key + ":" + rest) == |key|
  {
    var s := key + ":" + rest;
    if key == "" {
      assert s[0] == ':';
    } else {
      assert s[1..] == key[1..] + ":" + rest;
      ColonAfter(key[1..], rest);
    }
  }

  lemma ValueRoundTrip(v: string)
    ensures ReadValue(Quote(v)) == Some(v)
  {
    if NeedsQuotes(v) {
      QuotedRoundTrip(v);
      assert Quote(v)[1..|Quote(v)| - 1] == Quoted(v);
    } else {
      assert v != "" ==> v[0] != '"';
    }
  }

  /** Any value survives being written into a term and read back. */
  lemma TermRoundTrip(t: Term)
    requires Name(t.key)
    ensures ReadTerm(TermText(t)) == Some(t)
  {
    var value, s := Quote(t.value), TermText(t);
    ColonAfter(t.key, value);
    assert s[..|t.key|] == t.key && s[|t.key| + 1..] == value;
    ValueRoundTrip(t.value);
  }

  /** A value is written as it is unless it has a quote or white space of these four kinds; then it stands between
      quotes. */
  lemma QuotedIff(v: string)
    ensures var special := exists i :: 0 <= i < |v| && v[i] in [' ', '"', '\t', '\r', '\n'];
            if special then |Quote(v)| >= 2 && Quote(v)[0] == '"' == Quote(v)[|Quote(v)| - 1] else Quote(v) == v
  {
  }

  // ---------------------------------------------------------------- words

  function Prepend(s: string, words: seq<string>): seq<string>
    requires words != []
  {
    [s + words[0]] + words[1..]
  }

  /** The words between the spaces that are not inside quotes. */
  function Words(s: string, quoted: bool): (words: seq<string>)
    ensures words != []
  {
    if s == "" then [""]
    else if s[0] == ' ' && !quoted then [""] + Words(s[1..], false)
    else if s[0] == '\\' && quoted && |s| > 1 then Prepend(s[..2], Words(s[2..], true))
    else Prepend(s[..1], Words(s[1..], if s[0] == '"' then !quoted else quoted))
  }

  predicate Unbroken(s: string) {
    forall i :: 0 <= i < |s| ==> s[i] != ' ' && s[i] != '"'
  }

  lemma PrependTwice(a: string, b: string, words: seq<string>)
    requires words != []
    ensures Prepend(a, Prepend(b, words)) == Prepend(a + b, words)
  {
    assert a + (b + words[0]) == a + b + words[0];
  }

  lemma {:induction false} WordsUnbroken(s: string, rest: string)
    requires Unbroken(s)
    ensures Words(s + rest, false) == Prepend(s, Words(rest, false))
  {
    if s == "" {
      assert s + rest == rest && "" + Words(rest, false)[0] == Words(rest, false)[0];
    } else {
      var all := s + rest;
      assert all[0] == s[0] && all[1..] == s[1..] + rest && all[..1] == s[..1];
      WordsUnbroken(s[1..], rest);
      PrependTwice(s[..1], s[1..], Words(rest, false));
      assert s[..1] + s[1..] == s;
    }
  }

  lemma {:induction false} WordsPlain(s: string, rest: string)
    requires forall i :: 0 <= i < |s| ==> s[i] != '"' && s[i] != '\\'
    ensures Words(s + rest, true) == Prepend(s, Words(rest, true))
  {
    if s == "" {
      assert s + rest == rest && "" + Words(rest, true)[0] == Words(rest, true)[0];
    } else {
      var all := s + rest;
      assert all[0] == s[0] && all[1..] == s[1..] + rest && all[..1] == s[..1];
      WordsPlain(s[1..], rest);
      PrependTwice(s[..1], s[1..], Words(rest, true));
      assert s[..1] + s[1..] == s;
    }
  }

  lemma WordsQuotedChar(c: char, rest: string)
    ensures Words(QuotedChar(c) + rest, true) == Prepend(QuotedChar(c), Words(rest, true))
  {
    var q := QuotedChar(c);
    var all := q + rest;
    if q[0] == '\\' {
      assert all[..2] == q[..2] && all[2..] == q[2..] + rest && all[0] == '\\';
      WordsPlain(q[2..], rest);
      PrependTwice(q[..2], q[2..], Words(rest, true));
      assert q[..2] + q[2..] == q;
    } else {
      WordsPlain(q, rest);
    }
  }

  lemma {:induction false} WordsQuoted(s: string, rest: string)
    ensures Words(Quoted(s) + rest, true) == Prepend(Quoted(s), Words(rest, true))
  {
    if s == "" {
      assert "" + rest == rest && "" + Words(rest, true)[0] == Words(rest, true)[0];
    } else {
      var q, more := QuotedChar(s[0]), Quoted(s[1..]);
      Associate(q, more, rest);
      WordsQuotedChar(s[0], more + rest);
      WordsQuoted(s[1..], rest);
      PrependTwice(q, more, Words(rest, true));
    }
  }

  /** A term is read as part of one word, whatever its value. */
  lemma WordsTerm(t: Term, rest: string)
    requires Name(t.key)
    ensures Words(TermText(t) + rest, false) == Prepend(TermText(t), Words(rest, false))
  {
    var head := t.key + ":";
    if NeedsQuotes(t.value) {
      var q := Quoted(t.value);
      var all := head + ("\"" + (q + ("\"" + rest)));
      assert TermText(t) + rest == all;
      WordsUnbroken(head, "\"" + (q + ("\"" + rest)));
      assert ("\"" + rest)[1..] == rest && ("\"" + rest)[..1] == "\"";
      assert ("\"" + (q + ("\"" + rest)))[1..] == q + ("\"" + rest);
      assert ("\"" + (q + ("\"" + rest)))[..1] == "\"";
      WordsQuoted(t.value, "\"" + rest);
      var words := Words(rest, false);
      PrependTwice(q, "\"", words);
      PrependTwice("\"", q + "\"", words);
      PrependTwice(head, "\"" + (q + "\""), words);
      assert head + ("\"" + (q + "\"")) == TermText(t);
    } else {
      assert Unbroken(TermText(t));
      WordsUnbroken(TermText(t), rest);
    }
  }

  // ---------------------------------------------------------------- clauses

  predicate Closes(word: string) {
    word != "" && word[|word| - 1] == ')'
  }

  /** The words of a query as clauses; `open` holds the terms of a bracket that is still open. */
  function ReadWords(words: seq<string>, open: Option<Clause>): Option<seq<Clause>>
    decreases |words|
  {
    if words == [] then (if open.Some? then None else Some([]))
    else if open.None? && (words[0] == "" || words[0][0] != '(') then
      var t, rest := ReadTerm(words[0]), ReadWords(words[1..], None);
      if t.None? || rest.None? then None else Some([[t.value]] + rest.value)
    else
      var word := if open.None? then words[0][1..] else words[0];
      var so := if open.None? then [] else open.value;
      if Closes(word) then
        var t, rest := ReadTerm(word[..|word| - 1]), ReadWords(words[1..], None);
        if t.None? || rest.None? then None else Some([so + [t.value]] + rest.value)
      else
        var t := ReadTerm(word);
        if t.None? || |words| < 2 || words[1] != "OR" then None
        else ReadWords(words[2..], Some(so + [t.value]))
  }

  function Read(text: string): Option<seq<Clause>> {
    if text == "" then Some([]) else ReadWords(Words(text, false), None)
  }

  /** One of the clause's terms matches the item. */
  ghost predicate Holds(c: Clause, matches: Term -> bool) {
    exists t :: t in c && matches(t)
  }

  /** What a query asks of an item: that every clause holds of it. */
  ghost predicate Asks(clauses: seq<Clause>, matches: Term -> bool) {
    forall i :: 0 <= i < |clauses| ==> Holds(clauses[i], matches)
  }

  // ---------------------------------------------------------------- writing clauses and reading them back

  function TermTexts(c: Clause): (r: seq<string>)
    ensures |r| == |c| && forall i :: 0 <= i < |c| ==> r[i] == TermText(c[i])
  {
    seq(|c|, i requires 0 <= i < |c| => TermText(c[i]))
  }

  function ClauseText(c: Clause): string {
    if |c| == 1 then TermText(c[0]) else "(" + Join(TermTexts(c), " OR ") + ")"
  }

  function ClauseTexts(cs: seq<Clause>): (r: seq<string>)
    ensures |r| == |cs| && forall i :: 0 <= i < |cs| ==> r[i] == ClauseText(cs[i])
  {
    seq(|cs|, i requires 0 <= i < |cs| => ClauseText(cs[i]))
  }

  predicate Named(c: Clause) {
    c != [] && forall i :: 0 <= i < |c| ==> Name(c[i].key)
  }

  /** A term inside a bracket ends in a bracket of its own only if it is the last. */
  predicate Bracketed(c: Clause) {
    forall i :: 0 <= i < |c| - 1 ==> !Closes(TermText(c[i]))
  }

  /** The words of the terms of an open bracket up to its end, `after` being the words that follow. */
  function BracketWords(c: Clause, after: seq<string>): (words: seq<string>)
    requires c != [] && after != []
    ensures words != []
  {
    if |c| == 1 then Prepend(TermText(c[0]) + ")", after)
    else [TermText(c[0]), "OR"] + BracketWords(c[1..], after)
  }

  lemma PrependEmpty(s: string, more: seq<string>)
    ensures Prepend(s, [""] + more) == [s] + more
  {
    assert ([""] + more)[1..] == more && s + "" == s;
  }

  lemma WordsSpace(rest: string)
    ensures Words(" " + rest, false) == [""] + Words(rest, false)
  {
    assert (" " + rest)[1..] == rest;
  }

  lemma WordsOr(rest: string)
    ensures Words(" OR " + rest, false) == ["", "OR"] + Words(rest, false)
  {
    assert " OR " + rest == " " + ("OR" + (" " + rest));
    WordsSpace("OR" + (" " + rest));
    WordsUnbroken("OR", " " + rest);
    WordsSpace(rest);
    assert "OR" + "" == "OR";
  }

  lemma WordsTermOr(t: Term, rest: string)
    requires Name(t.key)
    ensures Words(TermText(t) + (" OR " + rest), false) == [TermText(t), "OR"] + Words(rest, false)
  {
    var tail, words := " OR " + rest, ["OR"] + Words(rest, false);
    assert Words(tail, false) == [""] + words by {
      WordsOr(rest);
    }
    WordsTerm(t, tail);
    PrependEmpty(TermText(t), words);
  }

  lemma {:induction false} WordsBracket(c: Clause, rest: string)
    requires Named(c)
    ensures Words(Join(TermTexts(c), " OR ") + ")" + rest, false) == BracketWords(c, Words(rest, false))
    decreases |c|
  {
    var first := TermText(c[0]);
    if |c| == 1 {
      Associate(first, ")", rest);
      WordsTerm(c[0], ")" + rest);
      WordsUnbroken(")", rest);
      PrependTwice(first, ")", Words(rest, false));
    } else {
      BracketText(c, rest);
      var more := Join(TermTexts(c[1..]), " OR ") + ")" + rest;
      WordsTermOr(c[0], more);
      WordsBracket(c[1..], rest);
    }
  }

  lemma BracketText(c: Clause, rest: string)
    requires |c| > 1
    ensures Join(TermTexts(c), " OR ") + ")" + rest ==
            TermText(c[0]) + (" OR " + (Join(TermTexts(c[1..]), " OR ") + ")" + rest))
  {
    assert TermTexts(c)[1..] == TermTexts(c[1..]);
  }

  /** A clause takes up whole words: what follows it starts a new one. */
  lemma WordsClause(c: Clause, rest: string)
    requires Named(c)
    ensures Words(ClauseText(c) + rest, false) ==
            if |c| == 1 then Prepend(TermText(c[0]), Words(rest, false))
            else Prepend("(", BracketWords(c, Words(rest, false)))
  {
    if |c| == 1 {
      WordsTerm(c[0], rest);
    } else {
      var body := Join(TermTexts(c), " OR ") + ")" + rest;
      assert ClauseText(c) + rest == "(" + body;
      WordsUnbroken("(", body);
      WordsBracket(c, rest);
    }
  }

  lemma ReadPlain(word: string, t: Term)
    requires word == TermText(t) && Name(t.key)
    ensures ReadTerm(word) == Some(t) && word != "" && word[0] != '('
  {
    TermRoundTrip(t);
    assert word[0] == t.key[0];
  }

  lemma ReadClosing(word: string, t: Term)
    requires word == TermText(t) + ")" && Name(t.key)
    ensures Closes(word) && ReadTerm(word[..|word| - 1]) == Some(t)
  {
    assert word[..|word| - 1] == TermText(t);
    TermRoundTrip(t);
  }

  lemma ReadLast(word: string, t: Term, so: Clause, more: seq<string>)
    requires word == TermText(t) + ")" && Name(t.key)
    ensures ReadWords([word] + more, Some(so)) ==
            var rest := ReadWords(more, None); if rest.None? then None else Some([so + [t]] + rest.value)
  {
    ReadClosing(word, t);
    assert ([word] + more)[1..] == more;
  }

  lemma ReadOr(word: string, t: Term, so: Clause, rest: seq<string>)
    requires word == TermText(t) && Name(t.key) && !Closes(word)
    ensures ReadWords([word, "OR"] + rest, Some(so)) == ReadWords(rest, Some(so + [t]))
  {
    ReadPlain(word, t);
    assert ([word, "OR"] + rest)[2..] == rest;
  }

  lemma {:induction false} ReadBracket(c: Clause, so: Clause, more: seq<string>)
    requires Named(c) && Bracketed(c)
    ensures ReadWords(BracketWords(c, [""] + more), Some(so)) ==
            var rest := ReadWords(more, None); if rest.None? then None else Some([so + c] + rest.value)
    decreases |c|
  {
    if |c| == 1 {
      PrependEmpty(TermText(c[0]) + ")", more);
      ReadLast(TermText(c[0]) + ")", c[0], so, more);
      assert c == [c[0]];
    } else {
      BracketTail(c);
      var rest := BracketWords(c[1..], [""] + more);
      assert BracketWords(c, [""] + more) == [TermText(c[0]), "OR"] + rest;
      ReadOr(TermText(c[0]), c[0], so, rest);
      ReadBracket(c[1..], so + [c[0]], more);
      assert so + [c[0]] + c[1..] == so + c;
    }
  }

  lemma BracketTail(c: Clause)
    requires Named(c) && Bracketed(c) && |c| > 1
    ensures Named(c[1..]) && Bracketed(c[1..]) && !Closes(TermText(c[0])) && Name(c[0].key)
  {
  }

  /** Otherwise the bracket closes too early and the query cannot be read at all. */
  lemma {:induction false} MisreadBracket(c: Clause, so: Clause, more: seq<string>)
    requires Named(c) && !Bracketed(c)
    ensures ReadWords(BracketWords(c, [""] + more), Some(so)) == None
    decreases |c|
  {
    var words := BracketWords(c, [""] + more);
    var rest := BracketWords(c[1..], [""] + more);
    assert words == [TermText(c[0]), "OR"] + rest;
    if Closes(words[0]) {
      assert words[1..] == ["OR"] + rest;
      assert ReadTerm("OR") == None by {
        assert "OR"[1..] == "R" && "R"[1..] == "";
      }
    } else {
      assert words[2..] == rest;
      if ReadTerm(words[0]).Some? {
        var i :| 0 <= i < |c| - 1 && Closes(TermText(c[i]));
        assert c[1..][i - 1] == c[i];
        MisreadBracket(c[1..], so + [ReadTerm(words[0]).value], more);
      }
    }
  }

  lemma ReadFromBracket(words: seq<string>)
    requires words != []
    ensures ReadWords(Prepend("(", words), None) == ReadWords(words, Some([]))
  {
    var w := Prepend("(", words);
    assert w[0][0] == '(' && w[0][1..] == words[0] && w[1..] == words[1..];
    assert |w| > 1 ==> w[2..] == words[2..];
  }

  /** One clause followed by the words `more`. */
  lemma ReadClause(c: Clause, more: seq<string>)
    requires Named(c)
    ensures var words := if |c| == 1 then Prepend(TermText(c[0]), [""] + more)
                         else Prepend("(", BracketWords(c, [""] + more));
            var rest := ReadWords(more, None);
            ReadWords(words, None) == if !Bracketed(c) || rest.None? then None else Some([c] + rest.value)
  {
    if |c| == 1 {
      var words := Prepend(TermText(c[0]), [""] + more);
      assert words[0] == TermText(c[0]) && words[1..] == more;
      ReadPlain(words[0], c[0]);
      assert c == [c[0]];
    } else {
      ReadFromBracket(BracketWords(c, [""] + more));
      if Bracketed(c) {
        ReadBracket(c, [], more);
        assert [] + c == c;
      } else {
        MisreadBracket(c, [], more);
      }
    }
  }

  predicate AllBracketed(cs: seq<Clause>) {
    forall i :: 0 <= i < |cs| ==> Bracketed(cs[i])
  }

  lemma ReadOne(c: Clause)
    requires Named(c)
    ensures ReadWords(Words(ClauseText(c), false), None) == if Bracketed(c) then Some([c]) else None
  {
    assert ClauseText(c) + "" == ClauseText(c);
    WordsClause(c, "");
    assert Words("", false) == [""] + [];
    ReadClause(c, []);
    assert [c] + [] == [c];
  }

  lemma ReadFirst(c: Clause, text: string)
    requires Named(c)
    ensures ReadWords(Words(ClauseText(c) + (" " + text), false), None) ==
            var rest := ReadWords(Words(text, false), None);
            if !Bracketed(c) || rest.None? then None else Some([c] + rest.value)
  {
    WordsClause(c, " " + text);
    WordsSpace(text);
    ReadClause(c, Words(text, false));
  }

  function ReadText(cs: seq<Clause>): Option<seq<Clause>> {
    ReadWords(Words(Join(ClauseTexts(cs), " "), false), None)
  }

  lemma ReadMore(cs: seq<Clause>)
    requires |cs| > 1 && Named(cs[0])
    ensures var rest := ReadText(cs[1..]);
            ReadText(cs) == if !Bracketed(cs[0]) || rest.None? then None else Some([cs[0]] + rest.value)
  {
    TextSplit(cs);
    ReadFirst(cs[0], Join(ClauseTexts(cs[1..]), " "));
  }

  lemma Combine(cs: seq<Clause>, whole: Option<seq<Clause>>, rest: Option<seq<Clause>>)
    requires cs != [] && rest == if AllBracketed(cs[1..]) then Some(cs[1..]) else None
    requires whole == if !Bracketed(cs[0]) || rest.None? then None else Some([cs[0]] + rest.value)
    ensures whole == if AllBracketed(cs) then Some(cs) else None
  {
    BracketedSplit(cs);
    assert cs == [cs[0]] + cs[1..];
  }

  lemma {:induction false} ReadBackWords(cs: seq<Clause>)
    requires cs != [] && forall i :: 0 <= i < |cs| ==> Named(cs[i])
    ensures ReadText(cs) == if AllBracketed(cs) then Some(cs) else None
    decreases |cs|
  {
    if |cs| == 1 {
      ReadOne(cs[0]);
      BracketedSplit(cs);
      assert cs == [cs[0]];
    } else {
      ReadMore(cs);
      ReadBackWords(cs[1..]);
      Combine(cs, ReadText(cs), ReadText(cs[1..]));
    }
  }

  lemma TextSplit(cs: seq<Clause>)
    requires |cs| > 1
    ensures Join(ClauseTexts(cs), " ") == ClauseText(cs[0]) + (" " + Join(ClauseTexts(cs[1..]), " "))
  {
    assert ClauseTexts(cs)[1..] == ClauseTexts(cs[1..]);
  }

  lemma BracketedSplit(cs: seq<Clause>)
    requires cs != []
    ensures AllBracketed(cs) <==> Bracketed(cs[0]) && AllBracketed(cs[1..])
  {
    assert cs == [cs[0]] + cs[1..];
  }

  /** Clauses written out with spaces in between are read back as exactly those clauses, and that holds if and only if
      no bracketed term but the last of its bracket ends in a closing bracket. */
  lemma ReadBack(cs: seq<Clause>)
    requires forall i :: 0 <= i < |cs| ==> Named(cs[i])
    ensures Read(Join(ClauseTexts(cs), " ")) == Some(cs) <==> AllBracketed(cs)
  {
    if cs != [] {
      ReadBackWords(cs);
      assert ClauseText(cs[0]) != "";
      if |cs| > 1 {
        TextSplit(cs);
      }
    }
  }
}

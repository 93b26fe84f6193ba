/** URL paths and queries built from arbitrary values, so that none of them can change the structure of the URL. */
module SafeUrl {
  import opened Wrappers
  import opened Strings
  import opened Sorting

  /** Strings are sequences of bytes. */
  type Bytes = s: string | forall i :: 0 <= i < |s| ==> s[i] as int < 256

  datatype Mode = PathSegment | QueryComponent

  predicate Alphanumeric(c: char) {
    'a' <= c <= 'z' || 'A' <= c <= 'Z' || '0' <= c <= '9'
  }

  /** The bytes that stay as they are. */
  predicate Plain(c: char, mode: Mode) {
    Alphanumeric(c) || c in "-_.~" || (mode == PathSegment && c in "$&+=:@")
  }

  predicate Emitted(c: char, mode: Mode) {
    Plain(c, mode) || c == '%' || (c == '+' && mode == QueryComponent)
  }

  /** No byte that is emitted separates the parts of a URL. */
  lemma EmittedSeparatesNothing(c: char, mode: Mode)
    requires Emitted(c, mode)
    ensures c != '/' && c != '?' && c != '#'
    ensures mode == QueryComponent ==> c != '&' && c != '='
  {
    assert "-_.~" == ['-', '_', '.', '~'] && "$&+=:@" == ['$', '&', '+', '=', ':', '@'];
  }

  function Hex(n: nat): char
    requires n < 16
  {
    "0123456789ABCDEF"[n]
  }

  function HexValue(c: char): Option<nat> {
    if '0' <= c <= '9' then Some(c as int - '0' as int)
    else if 'A' <= c <= 'F' then Some(c as int - 'A' as int + 10)
    else if 'a' <= c <= 'f' then Some(c as int - 'a' as int + 10)
    else None
  }

  function EscapeByte(c: char, mode: Mode): (r: string)
    requires c as int < 256
    ensures r != [] && forall d :: d in r ==> Emitted(d, mode)
  {
    if Plain(c, mode) then [c]
    else if c == ' ' && mode == QueryComponent then "+"
    else ['%', Hex(c as int / 16), Hex(c as int % 16)]
  }

  /** Percent-encoding. Only plain bytes and escapes come out, so none that separates parts of a URL. */
  function Escape(s: Bytes, mode: Mode): (r: string)
    ensures forall d :: d in r ==> Emitted(d, mode)
    ensures r == "" <==> s == []
  {
    if s == [] then "" else EscapeByte(s[0], mode) + Escape(s[1..], mode)
  }

  function Unescape(s: string, mode: Mode): Option<string> {
    if s == "" then Some("")
    else if s[0] == '%' then
      if |s| < 3 || HexValue(s[1]).None? || HexValue(s[2]).None? then None
      else
        var rest := Unescape(s[3..], mode);
        if rest.None? then None
        else Some([(HexValue(s[1]).value * 16 + HexValue(s[2]).value) as char] + rest.value)
    else
      var rest := Unescape(s[1..], mode);
      if rest.None? then None
      else Some([if s[0] == '+' && mode == QueryComponent then ' ' else s[0]] + rest.value)
  }

  lemma HexBack(n: nat)
    requires n < 16
    ensures HexValue(Hex(n)) == Some(n)
  {
  }

  lemma UnescapeByte(c: char, rest: string, mode: Mode)
    requires c as int < 256 && Unescape(rest, mode).Some?
    ensures Unescape(EscapeByte(c, mode) + rest, mode) == Some([c] + Unescape(rest, mode).value)
  {
    if Plain(c, mode) || (c == ' ' && mode == QueryComponent) {
      var all := EscapeByte(c, mode) + rest;
      assert all[0] == (if c == ' ' then '+' else c) && all[1..] == rest;
      assert !Plain('+', QueryComponent) && !Plain('%', mode) && !Plain(' ', mode);
    } else {
      UnescapeHex(c as int, rest, mode);
    }
  }

  lemma UnescapeHex(n: nat, rest: string, mode: Mode)
    requires n < 256 && Unescape(rest, mode).Some?
    ensures Unescape(['%', Hex(n / 16), Hex(n % 16)] + rest, mode) == Some([n as char] + Unescape(rest, mode).value)
  {
    var all := ['%', Hex(n / 16), Hex(n % 16)] + rest;
    HexBack(n / 16);
    HexBack(n % 16);
    assert all[3..] == rest && all[0] == '%' && all[1] == Hex(n / 16) && all[2] == Hex(n % 16);
  }

  /** Whatever the bytes, decoding the encoded value gives them back. */
  lemma {:induction false} EscapeRoundTrip(s: Bytes, mode: Mode)
    ensures Unescape(Escape(s, mode), mode) == Some(s)
  {
    if s == [] {
    } else {
      EscapeRoundTrip(s[1..], mode);
      UnescapeByte(s[0], Escape(s[1..], mode), mode);
      assert [s[0]] + s[1..] == s;
    }
  }

  /** The characters that a segment of a path can have beside percent-encoded bytes (section 3.3 of RFC 3986). */
  predicate SegmentChar(c: char) {
    'a' <= c <= 'z' || 'A' <= c <= 'Z' || '0' <= c <= '9' ||
    c in ['-', '.', '_', '~'] || c in ['!', '$', '&', '\'', '(', ')', '*', '+', ',', ';', '='] || c in [':', '@']
  }

  predicate HexChar(c: char) {
    '0' <= c <= '9' || 'A' <= c <= 'F'
  }

  /** Segment characters and percent-encoded bytes, with upper-case digits. */
  predicate WellEncoded(s: string) {
    if s == "" then true
    else if s[0] == '%' then |s| >= 3 && HexChar(s[1]) && HexChar(s[2]) && WellEncoded(s[3..])
    else SegmentChar(s[0]) && WellEncoded(s[1..])
  }

  lemma PlainIsSegmentChar(c: char, mode: Mode)
    requires Plain(c, mode)
    ensures SegmentChar(c) && c != '%'
  {
    assert "-_.~" == ['-', '_', '.', '~'] && "$&+=:@" == ['$', '&', '+', '=', ':', '@'];
  }

  lemma HexIsHexChar(n: nat)
    requires n < 16
    ensures HexChar(Hex(n))
  {
  }

  lemma ByteWellEncoded(c: char, mode: Mode, rest: string)
    requires c as int < 256 && WellEncoded(rest)
    ensures WellEncoded(EscapeByte(c, mode) + rest)
  {
    var all := EscapeByte(c, mode) + rest;
    if Plain(c, mode) {
      PlainIsSegmentChar(c, mode);
      assert all[0] == c && all[1..] == rest;
    } else if c == ' ' && mode == QueryComponent {
      assert all[0] == '+' && all[1..] == rest;
    } else {
      HexIsHexChar(c as int / 16);
      HexIsHexChar(c as int % 16);
      assert all[0] == '%' && all[1] == Hex(c as int / 16) && all[2] == Hex(c as int % 16) && all[3..] == rest;
    }
  }

  /** Whatever the bytes, what comes out is made of characters that a URL may have there. */
  lemma {:induction false} EscapeWellEncoded(s: Bytes, mode: Mode)
    ensures WellEncoded(Escape(s, mode))
  {
    if s != [] {
      EscapeWellEncoded(s[1..], mode);
      ByteWellEncoded(s[0], mode, Escape(s[1..], mode));
    }
  }

  // ---------------------------------------------------------------- the path

  function EscapeAll(components: seq<Bytes>): (r: seq<string>)
    ensures |r| == |components| && forall i :: 0 <= i < |r| ==> r[i] == Escape(components[i], PathSegment)
  {
    seq(|components|, i requires 0 <= i < |components| => Escape(components[i], PathSegment))
  }

  function JoinComponents(components: seq<Bytes>): string {
    Join(EscapeAll(components), "/")
  }

  /** The components of a rendered path. */
  function ParsePath(path: string): seq<Option<string>> {
    var parts := Split(path, '/');
    seq(|parts|, i requires 0 <= i < |parts| => Unescape(parts[i], PathSegment))
  }

  predicate Traverses(components: seq<Bytes>) {
    exists i :: 0 <= i < |components| && components[i] == ".."
  }

  lemma SplitPath(components: seq<Bytes>)
    requires components != []
    ensures Split(JoinComponents(components), '/') == EscapeAll(components)
  {
    forall i | 0 <= i < |components|
      ensures '/' !in EscapeAll(components)[i]
    {
      if '/' in EscapeAll(components)[i] { EmittedSeparatesNothing('/', PathSegment); }
    }
    SplitJoin(EscapeAll(components), '/');
  }

  /** Splitting the path at the slashes and decoding gives back exactly the components. */
  lemma PathRoundTrip(components: seq<Bytes>)
    requires components != []
    ensures |ParsePath(JoinComponents(components))| == |components|
    ensures forall i :: 0 <= i < |components| ==> ParsePath(JoinComponents(components))[i] == Some(components[i])
  {
    SplitPath(components);
    forall i | 0 <= i < |components|
      ensures Unescape(EscapeAll(components)[i], PathSegment) == Some(components[i])
    {
      EscapeRoundTrip(components[i], PathSegment);
    }
  }

  /** A segment that goes up can only come from a component that goes up, which the constructors refuse. */
  lemma SegmentsStay(components: seq<Bytes>)
    requires components != []
    ensures Traverses(components) <==> ".." in Split(JoinComponents(components), '/')
  {
    SplitPath(components);
    forall i | 0 <= i < |components|
      ensures EscapeAll(components)[i] == ".." <==> components[i] == ".."
    {
      assert Escape("..", PathSegment) == ".." by {
        assert ".."[1..] == ".";
      }
      EscapeRoundTrip(components[i], PathSegment);
      EscapeRoundTrip("..", PathSegment);
    }
  }

  lemma {:induction false} JoinHas(parts: seq<string>, separator: string, c: char)
    requires c in Join(parts, separator)
    ensures c in separator || exists i :: 0 <= i < |parts| && c in parts[i]
  {
    if |parts| > 1 && c in Join(parts[1..], separator) {
      JoinHas(parts[1..], separator, c);
      if c !in separator {
        var i :| 0 <= i < |parts[1..]| && c in parts[1..][i];
        assert c in parts[i + 1];
      }
    }
  }

  /** The path holds neither a question mark nor a number sign: it starts no query and no fragment. */
  lemma PathHasNoMarks(components: seq<Bytes>)
    ensures '?' !in JoinComponents(components) && '#' !in JoinComponents(components)
  {
    forall c | c in JoinComponents(components)
      ensures c != '?' && c != '#'
    {
      JoinHas(EscapeAll(components), "/", c);
      if c != '/' { EmittedSeparatesNothing(c, PathSegment); }
    }
  }

  // ---------------------------------------------------------------- the prefix

  predicate EndsInSlash(s: string) {
    s != "" && s[|s| - 1] == '/'
  }

  function JoinWithPrefix(prefix: string, components: seq<Bytes>): string {
    var path := JoinComponents(components);
    if prefix == "" then path
    else if path == "" then prefix
    else if !EndsInSlash(prefix) then prefix + "/" + path
    else prefix + path
  }

  function WithoutSlash(prefix: string): string {
    if EndsInSlash(prefix) then prefix[..|prefix| - 1] else prefix
  }

  lemma EmptyPath(components: seq<Bytes>)
    ensures JoinComponents(components) == "" <==> components == [] || components == [[]]
  {
    if |components| == 1 {
      assert EscapeAll(components) == [Escape(components[0], PathSegment)];
      assert components == [components[0]];
    }
  }

  /** A non-empty prefix and a non-empty path meet at one slash. It is the only slash there exactly when the prefix
      does not end in two and the first of several components is not empty. */
  lemma OneSlashBetween(prefix: string, components: seq<Bytes>)
    requires prefix != "" && components != [] && components != [[]]
    ensures JoinWithPrefix(prefix, components) == WithoutSlash(prefix) + "/" + JoinComponents(components)
    ensures EndsInSlash(WithoutSlash(prefix)) <==> |prefix| >= 2 && prefix[|prefix| - 2..] == "//"
    ensures JoinComponents(components)[..1] == "/" <==> components[0] == []
  {
    EmptyPath(components);
    if EndsInSlash(prefix) {
      assert prefix == WithoutSlash(prefix) + "/";
    }
    EndsInTwo(prefix);
    PathStart(components);
  }

  lemma EndsInTwo(prefix: string)
    requires prefix != ""
    ensures EndsInSlash(WithoutSlash(prefix)) <==> |prefix| >= 2 && prefix[|prefix| - 2..] == "//"
  {
    var n := |prefix|;
    if n >= 2 { assert prefix[n - 2..] == [prefix[n - 2], prefix[n - 1]]; }
  }

  lemma PathStart(components: seq<Bytes>)
    requires components != [] && components != [[]]
    ensures JoinComponents(components)[..1] == "/" <==> components[0] == []
  {
    var parts, first := EscapeAll(components), Escape(components[0], PathSegment);
    assert parts[0] == first;
    if first == "" {
      if |components| == 1 { OneComponent(components); }
      JoinFirst(parts, "/");
      assert ("" + "/" + Join(parts[1..], "/"))[..1] == "/";
    } else {
      EmittedSeparatesNothing(first[0], PathSegment);
      FirstOfJoin(parts, "/");
    }
  }

  lemma OneComponent(components: seq<Bytes>)
    requires |components| == 1
    ensures components == [components[0]]
  {
  }

  lemma JoinFirst(parts: seq<string>, separator: string)
    requires |parts| > 1
    ensures Join(parts, separator) == parts[0] + separator + Join(parts[1..], separator)
  {
  }

  lemma FirstOfJoin(parts: seq<string>, separator: string)
    requires parts != [] && parts[0] != ""
    ensures Join(parts, separator) != "" && Join(parts, separator)[..1] == [parts[0][0]]
  {
    if |parts| > 1 {
      JoinFirst(parts, separator);
      var rest := separator + Join(parts[1..], separator);
      Associate(parts[0], separator, Join(parts[1..], separator));
      assert (parts[0] + rest)[0] == parts[0][0];
    }
  }

  /** Both sides of that condition can fail. */
  lemma DoubledSlashes()
    ensures JoinWithPrefix("a//", ["b"]) == "a//b" && JoinWithPrefix("a", ["", "b"]) == "a//b"
  {
    assert Escape("b", PathSegment) == "b" && Escape("", PathSegment) == "";
    assert EscapeAll(["b"]) == ["b"] && EscapeAll(["", "b"]) == ["", "b"];
    assert ["", "b"][1..] == ["b"];
    assert JoinComponents(["b"]) == "b" && JoinComponents(["", "b"]) == "/b";
  }

  // ---------------------------------------------------------------- the query

  function Pair(key: Bytes, value: Bytes): string {
    Escape(key, QueryComponent) + "=" + Escape(value, QueryComponent)
  }

  /** The pairs in the order of the keys. */
  function Pairs(keys: seq<Bytes>, query: map<Bytes, Bytes>): (r: seq<string>)
    requires forall i :: 0 <= i < |keys| ==> keys[i] in query.Keys
    ensures |r| == |keys|
    ensures forall i :: 0 <= i < |keys| ==> r[i] == Pair(keys[i], query[keys[i]])
  {
    seq(|keys|, i requires 0 <= i < |keys| => Pair(keys[i], query[keys[i]]))
  }

  ghost function Keys(query: map<Bytes, Bytes>): (keys: seq<Bytes>)
    ensures Sorted(keys) && multiset(keys) == multiset(query.Keys)
    ensures forall i :: 0 <= i < |keys| ==> keys[i] in query.Keys
  {
    var keys := SortedElements(query.Keys);
    assert forall i :: 0 <= i < |keys| ==> keys[i] in multiset(query.Keys);
    keys
  }

  ghost function EncodeQuery(query: map<Bytes, Bytes>): string {
    Join(Pairs(Keys(query), query), "&")
  }

  /** The key and value that a piece of a query stands for. */
  function ParsePair(piece: string): Option<(string, string)> {
    var parts := Split(piece, '=');
    if |parts| != 2 then None
    else
      var key, value := Unescape(parts[0], QueryComponent), Unescape(parts[1], QueryComponent);
      if key.None? || value.None? then None else Some((key.value, value.value))
  }

  function ParseQuery(text: string): set<(string, string)> {
    var pieces := Split(text, '&');
    set i | 0 <= i < |pieces| && ParsePair(pieces[i]).Some? :: ParsePair(pieces[i]).value
  }

  lemma PairRoundTrip(key: Bytes, value: Bytes)
    ensures ParsePair(Pair(key, value)) == Some((key, value))
  {
    var k, v := Escape(key, QueryComponent), Escape(value, QueryComponent);
    assert '=' !in k && '=' !in v by {
      if '=' in k { EmittedSeparatesNothing('=', QueryComponent); }
      if '=' in v { EmittedSeparatesNothing('=', QueryComponent); }
    }
    SplitAfter(k, '=', v);
    SplitWhole(v, '=');
    EscapeRoundTrip(key, QueryComponent);
    EscapeRoundTrip(value, QueryComponent);
  }

  lemma PairHasNoMarks(key: Bytes, value: Bytes, c: char)
    requires c in Pair(key, value)
    ensures c != '?' && c != '#' && c != '&'
  {
    if c != '=' { EmittedSeparatesNothing(c, QueryComponent); }
  }

  lemma KeysComplete(query: map<Bytes, Bytes>, k: Bytes)
    ensures k in query <==> k in Keys(query)
  {
    assert k in multiset(query.Keys) <==> k in query;
    assert k in multiset(Keys(query)) <==> k in Keys(query);
  }

  /** The pieces of the encoded query are the pairs, one for each key. */
  lemma SplitQuery(query: map<Bytes, Bytes>)
    requires query != map[]
    ensures Split(EncodeQuery(query), '&') == Pairs(Keys(query), query)
  {
    var keys := Keys(query);
    var pairs := Pairs(keys, query);
    var k :| k in query;
    KeysComplete(query, k);
    forall i | 0 <= i < |pairs|
      ensures '&' !in pairs[i]
    {
      if '&' in pairs[i] { PairHasNoMarks(keys[i], query[keys[i]], '&'); }
    }
    SplitJoin(pairs, '&');
  }

  /** Parsing the encoded query gives exactly the parameters that were set. */
  lemma QueryRoundTrip(query: map<Bytes, Bytes>)
    requires query != map[]
    ensures ParseQuery(EncodeQuery(query)) == set k: Bytes | k in query :: (k, query[k])
  {
    var keys := Keys(query);
    var pairs := Pairs(keys, query);
    SplitQuery(query);
    forall i | 0 <= i < |keys|
      ensures ParsePair(pairs[i]) == Some((keys[i], query[keys[i]]))
    {
      PairRoundTrip(keys[i], query[keys[i]]);
    }
    var expected := set k: Bytes | k in query :: (k, query[k]);
    forall p | p in expected
      ensures p in ParseQuery(EncodeQuery(query))
    {
      var k: Bytes :| k in query && p == (k, query[k]);
      KeysComplete(query, k);
      var i :| 0 <= i < |keys| && keys[i] == k;
      assert ParsePair(pairs[i]).value == p;
    }
    forall p | p in ParseQuery(EncodeQuery(query))
      ensures p in expected
    {
      var i :| 0 <= i < |pairs| && ParsePair(pairs[i]).Some? && ParsePair(pairs[i]).value == p;
      assert p == (keys[i], query[keys[i]]);
    }
  }

  // ---------------------------------------------------------------- the object

  class MutableSafeUrl {
    const prefix: string
    const components: seq<Bytes>
    var query: map<Bytes, Bytes>

    constructor (prefix: string, components: seq<Bytes>)
      requires !Traverses(components)
      ensures Valid() && this.prefix == prefix && this.components == components && query == map[]
    {
      this.prefix, this.components, query := prefix, components, map[];
    }

    predicate Valid() {
      !Traverses(components)
    }

    method SetQuery(key: Bytes, value: Bytes)
      modifies this
      ensures query == old(query)[key := value]
    {
      query := query[key := value];
    }

    method Render() returns (text: string)
      ensures text == JoinWithPrefix(prefix, components) + if query == map[] then "" else "?" + EncodeQuery(query)
    {
      text := JoinWithPrefix(prefix, components);
      if |query| > 0 {
        var keys := SortElements(query.Keys);
        ghost var sorted := Keys(query);
        text := text + "?" + Join(Pairs(keys, query), "&");
      }
    }
  }

  /** Refuses a component that is exactly "..". */
  method JoinPathWithHostPrefix(prefix: string, components: seq<Bytes>) returns (url: Option<MutableSafeUrl>)
    ensures url.None? <==> Traverses(components)
    ensures url.Some? ==> fresh(url.value) && url.value.Valid() && url.value.prefix == prefix &&
                          url.value.components == components && url.value.query == map[]
  {
    for i := 0 to |components|
      invariant forall j :: 0 <= j < i ==> components[j] != ".."
    {
      if components[i] == ".." { return None; }
    }
    var u := new MutableSafeUrl(prefix, components);
    url := Some(u);
  }

  method JoinPath(components: seq<Bytes>) returns (url: Option<MutableSafeUrl>)
    ensures url.None? <==> Traverses(components)
    ensures url.Some? ==> fresh(url.value) && url.value.Valid() && url.value.prefix == "" &&
                          url.value.components == components && url.value.query == map[]
  {
    url := JoinPathWithHostPrefix("", components);
  }

  /** In a rendered URL the first question mark after the prefix is where the query starts. */
  lemma QueryStart(prefix: string, components: seq<Bytes>, query: map<Bytes, Bytes>)
    ensures var base := JoinWithPrefix(prefix, components);
            prefix <= base && '?' !in base[|prefix|..] && '#' !in base[|prefix|..]
    ensures '?' !in EncodeQuery(query) && '#' !in EncodeQuery(query)
  {
    PathHasNoMarks(components);
    forall c | c in EncodeQuery(query)
      ensures c != '?' && c != '#'
    {
      var keys := Keys(query);
      JoinHas(Pairs(keys, query), "&", c);
      if c != '&' {
        var i :| 0 <= i < |keys| && c in Pairs(keys, query)[i];
        PairHasNoMarks(keys[i], query[keys[i]], c);
      }
    }
  }
}

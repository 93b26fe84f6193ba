/** The hand-written scanners that locate the raw source of a markdown link or image. A byte is a `char`, the source a
    string. Forward scanners skip whatever follows a backslash; the bracket scanner looks backwards at each bracket and
    counts the backslashes before it. Both must agree on which bytes are escaped. */
module MarkdownScan {
  import opened Strings
  import opened Wrappers

  // ---------------------------------------------------------------- escapes

  /** How many backslashes stand immediately before `i`. */
  function Backslashes(src: string, i: int): nat
    requires 0 <= i <= |src|
    decreases i
  {
    if i > 0 && src[i - 1] == '\\' then 1 + Backslashes(src, i - 1) else 0
  }

  /** An odd number of backslashes makes the byte a literal one. */
  predicate Escaped(src: string, i: int)
    requires 0 <= i <= |src|
  {
    Backslashes(src, i) % 2 == 1
  }

  /** Skipping what follows a backslash keeps the scanner at bytes that are not escaped. */
  lemma ForwardAgreesWithBackward(src: string, k: int)
    requires 0 <= k < |src| && !Escaped(src, k)
    ensures src[k] != '\\' ==> !Escaped(src, k + 1)
    ensures src[k] == '\\' ==> Escaped(src, k + 1) && (k + 1 < |src| ==> !Escaped(src, k + 2))
  {
    if src[k] == '\\' {
      assert Backslashes(src, k + 1) == 1 + Backslashes(src, k);
      if k + 1 < |src| && src[k + 1] == '\\' {
        assert Backslashes(src, k + 2) == 2 + Backslashes(src, k);
      }
    }
  }

  /** Where a scanner that skips the byte after a backslash goes next. */
  function Onwards(src: string, i: int): int
    requires 0 <= i < |src|
  {
    if src[i] == '\\' then i + 2 else i + 1
  }

  /** A scanner that sets out from `start` stands at `k` at some point. */
  predicate Visits(src: string, start: int, k: int)
    requires 0 <= start && k <= |src|
    decreases k - start
  {
    start == k || (start < k && Visits(src, Onwards(src, start), k))
  }

  /** Skipping forwards stands at exactly the bytes that counting backslashes backwards calls unescaped. */
  lemma {:induction false} VisitsTheUnescaped(src: string, start: int, k: int)
    requires 0 <= start <= k <= |src| && !Escaped(src, start)
    ensures Visits(src, start, k) <==> !Escaped(src, k)
    decreases k - start
  {
    if start < k {
      ForwardAgreesWithBackward(src, start);
      if Onwards(src, start) <= k {
        VisitsTheUnescaped(src, Onwards(src, start), k);
      }
    }
  }

  method IsEscaped(src: string, i: int) returns (escaped: bool)
    requires 0 <= i <= |src|
    ensures escaped == Escaped(src, i)
  {
    var n, j := 0, i - 1;
    while j >= 0 && src[j] == '\\'
      invariant -1 <= j < i && n == i - 1 - j
      invariant Backslashes(src, i) == n + Backslashes(src, j + 1)
    {
      n := n + 1;
      j := j - 1;
    }
    return n % 2 == 1;
  }

  predicate IsSpace(c: char) {
    c == ' ' || c == '\t' || c == '\n' || c == '\r'
  }

  method SkipSpace(src: string, i: int, hi: int) returns (stop: int)
    requires 0 <= i && hi <= |src|
    ensures i <= stop && (stop <= hi || stop == i)
    ensures forall j :: i <= j < stop ==> IsSpace(src[j])
    ensures stop < hi ==> !IsSpace(src[stop])
  {
    stop := i;
    while stop < hi && IsSpace(src[stop])
      invariant i <= stop && (stop <= hi || stop == i)
      invariant forall j :: i <= j < stop ==> IsSpace(src[j])
    {
      stop := stop + 1;
    }
  }

  // ---------------------------------------------------------------- titles and destinations

  /** The byte `c` at `j` counts as markup. */
  predicate Markup(src: string, j: int, c: char)
    requires 0 <= j < |src|
  {
    src[j] == c && !Escaped(src, j)
  }

  /** The byte that ends a title opened by `c`. */
  function TitleCloser(c: char): Option<char> {
    if c == '"' || c == '\'' then Some(c) else if c == '(' then Some(')') else None
  }

  /** Skips an optional title opened at `i`: `stop` is just past the first closer that is not escaped. */
  method ScanTitle(src: string, i: int, hi: int) returns (stop: int, ok: bool)
    requires 0 <= i < hi <= |src|
    ensures TitleCloser(src[i]).None? ==> ok && stop == i
    ensures TitleCloser(src[i]).Some? && ok ==>
              i + 1 < stop <= hi && Markup(src, stop - 1, TitleCloser(src[i]).value) &&
              forall j :: i < j < stop - 1 ==> !Markup(src, j, TitleCloser(src[i]).value)
    ensures !ok ==> TitleCloser(src[i]).Some? && forall j :: i < j < hi ==> !Markup(src, j, TitleCloser(src[i]).value)
  {
    if TitleCloser(src[i]).None? { return i, true; }
    var closer := TitleCloser(src[i]).value;
    stop := i + 1;
    while stop < hi && src[stop] != closer
      invariant i < stop <= hi && (stop < hi ==> !Escaped(src, stop))
      invariant forall j :: i < j < stop ==> !Markup(src, j, closer)
    {
      ForwardAgreesWithBackward(src, stop);
      if src[stop] == '\\' && stop + 1 < hi { stop := stop + 1; }
      stop := stop + 1;
    }
    if stop >= hi { return 0, false; }
    return stop + 1, true;
  }

  /** The line, or the search, ends at `end` without an unescaped closing angle bracket. */
  ghost predicate Unclosed(src: string, i: int, hi: int, end: int) {
    0 <= i < end <= hi <= |src| && (end < hi ==> Markup(src, end, '\n')) &&
    forall j :: i < j < end ==> !Markup(src, j, '>')
  }

  /** Reads a destination in angle brackets opened at `i`, which must close before the line ends. */
  method ScanAngleDest(src: string, i: int, hi: int) returns (stop: int, ok: bool)
    requires 0 <= i < hi <= |src| && src[i] == '<'
    ensures ok ==>
              i + 1 < stop <= hi && Markup(src, stop - 1, '>') &&
              forall j :: i < j < stop - 1 ==> !Markup(src, j, '>') && !Markup(src, j, '\n')
    ensures !ok ==> exists end :: Unclosed(src, i, hi, end)
  {
    stop := i + 1;
    while stop < hi && src[stop] != '>' && src[stop] != '\n'
      invariant i < stop <= hi && (stop < hi ==> !Escaped(src, stop))
      invariant forall j :: i < j < stop ==> !Markup(src, j, '>') && !Markup(src, j, '\n')
    {
      ForwardAgreesWithBackward(src, stop);
      if src[stop] == '\\' && stop + 1 < hi { stop := stop + 1; }
      stop := stop + 1;
    }
    if stop >= hi || src[stop] != '>' {
      assert Unclosed(src, i, hi, stop);
      return 0, false;
    }
    return stop + 1, true;
  }

  /** Unescaped opening minus unescaped closing parentheses in `src[i..j]`. */
  function Parens(src: string, i: int, j: int): int
    requires 0 <= i <= j <= |src|
    decreases j
  {
    if j == i then 0
    else Parens(src, i, j - 1) +
         (if Markup(src, j - 1, '(') then 1 else if Markup(src, j - 1, ')') then -1 else 0)
  }

  predicate MarkupSpace(src: string, j: int)
    requires 0 <= j < |src|
  {
    IsSpace(src[j]) && !Escaped(src, j)
  }

  /** Reads an unbracketed destination, which ends at whitespace or at the parenthesis that closes the link. From a
      start that is not escaped the nesting depth never becomes negative. */
  method ScanBareDest(src: string, i: int, hi: int) returns (stop: int)
    requires 0 <= i <= hi <= |src|
    ensures i <= stop <= hi
    ensures !Escaped(src, i) ==>
              (forall j :: i <= j < stop ==> !MarkupSpace(src, j)) &&
              (forall j :: i <= j <= stop ==> Parens(src, i, j) >= 0) &&
              (stop < hi ==> MarkupSpace(src, stop) || (Markup(src, stop, ')') && Parens(src, i, stop) == 0))
  {
    var depth := 0;
    stop := i;
    while stop < hi
      invariant i <= stop <= hi && depth >= 0
      invariant !Escaped(src, i) ==>
          (stop < hi ==> !Escaped(src, stop)) && depth == Parens(src, i, stop) &&
          (forall j :: i <= j < stop ==> !MarkupSpace(src, j)) &&
          (forall j :: i <= j <= stop ==> Parens(src, i, j) >= 0)
    {
      if !Escaped(src, i) { ForwardAgreesWithBackward(src, stop); }
      var c := src[stop];
      if c == '\\' {
        if stop + 1 < hi { stop := stop + 1; }
      } else if IsSpace(c) {
        return;
      } else if c == '(' {
        depth := depth + 1;
      } else if c == ')' {
        if depth == 0 { return; }
        depth := depth - 1;
      }
      stop := stop + 1;
    }
  }

  // ---------------------------------------------------------------- labels

  datatype ByteRange = ByteRange(start: int, stop: int)

  predicate Within(ranges: seq<ByteRange>, i: int) {
    exists k :: 0 <= k < |ranges| && ranges[k].start <= i < ranges[k].stop
  }

  method IsWithin(ranges: seq<ByteRange>, i: int) returns (found: bool)
    ensures found == Within(ranges, i)
  {
    for k := 0 to |ranges|
      invariant forall m :: 0 <= m < k ==> !(ranges[m].start <= i < ranges[m].stop)
    {
      if ranges[k].start <= i < ranges[k].stop { return true; }
    }
    found := false;
  }

  /** A bracket that is neither escaped nor quoted by a code span. */
  predicate Bracket(src: string, literal: seq<ByteRange>, j: int, c: char)
    requires 0 <= j < |src|
  {
    Markup(src, j, c) && !Within(literal, j)
  }

  /** Opening minus closing brackets in `src[i..j]`. */
  function Brackets(src: string, literal: seq<ByteRange>, i: int, j: int): int
    requires 0 <= i <= j <= |src|
    decreases j
  {
    if j == i then 0
    else Brackets(src, literal, i, j - 1) +
         (if Bracket(src, literal, j - 1, '[') then 1 else if Bracket(src, literal, j - 1, ']') then -1 else 0)
  }

  /** The closing bracket at `j` balances everything since `open`. */
  predicate Closes(src: string, literal: seq<ByteRange>, open: int, j: int)
    requires 0 <= open <= j < |src|
  {
    Bracket(src, literal, j, ']') && Brackets(src, literal, open, j + 1) == 0
  }

  ghost predicate FirstCloser(src: string, literal: seq<ByteRange>, open: int, close: int) {
    0 <= open <= close < |src| && Closes(src, literal, open, close) &&
    forall j :: open <= j < close ==> !Closes(src, literal, open, j)
  }

  /** Finds the first bracket that closes the label opened at `open`. */
  method ClosingBracket(src: string, open: int, hi: int, literal: seq<ByteRange>) returns (close: int, ok: bool)
    requires 0 <= open <= hi <= |src|
    ensures ok ==> close < hi && FirstCloser(src, literal, open, close)
    ensures !ok ==> forall j :: open <= j < hi ==> !Closes(src, literal, open, j)
  {
    var depth, i := 0, open;
    while i < hi
      invariant open <= i <= hi && depth == Brackets(src, literal, open, i)
      invariant forall j :: open <= j < i ==> !Closes(src, literal, open, j)
    {
      var escaped := IsEscaped(src, i);
      var quoted := IsWithin(literal, i);
      if !escaped && !quoted {
        if src[i] == '[' {
          depth := depth + 1;
        } else if src[i] == ']' {
          depth := depth - 1;
          if depth == 0 { return i, true; }
        }
      }
      i := i + 1;
    }
    return 0, false;
  }

  // ---------------------------------------------------------------- inline links

  datatype RefRanges = RefRanges(node: ByteRange, labelText: ByteRange, dest: ByteRange)

  /** What locating an inline link or image guarantees about the ranges, and about the bytes between them. */
  predicate Located(src: string, hi: int, r: RefRanges) {
    0 <= r.node.start && r.node.stop <= hi <= |src| &&
    r.node.start < r.labelText.start <= r.labelText.stop < r.dest.start <= r.dest.stop < r.node.stop &&
    r.labelText.stop + 1 < r.dest.start &&
    r.labelText.start == r.node.start + (if src[r.node.start] == '!' then 2 else 1) &&
    src[r.labelText.start - 1] == '[' && src[r.labelText.stop] == ']' && src[r.labelText.stop + 1] == '(' &&
    src[r.node.stop - 1] == ')'
  }

  /** White space from `i` on ends at `stop`. */
  predicate SpaceTo(src: string, i: int, hi: int, stop: int) {
    0 <= i <= stop && hi <= |src| && (stop <= hi || stop == i) &&
    (forall j :: i <= j < stop ==> IsSpace(src[j])) && (stop < hi ==> !IsSpace(src[stop]))
  }

  /** The angle brackets opened at `i` close just before `stop`, on the same line. */
  predicate AngleTo(src: string, i: int, hi: int, stop: int) {
    0 <= i < hi <= |src| && src[i] == '<' && i + 1 < stop <= hi && Markup(src, stop - 1, '>') &&
    forall j :: i < j < stop - 1 ==> !Markup(src, j, '>') && !Markup(src, j, '\n')
  }

  predicate BareTo(src: string, i: int, hi: int, stop: int) {
    0 <= i <= stop <= hi <= |src| && (forall j :: i <= j < stop ==> !MarkupSpace(src, j)) &&
    (forall j :: i <= j <= stop ==> Parens(src, i, j) >= 0) &&
    (stop < hi ==> MarkupSpace(src, stop) || (Markup(src, stop, ')') && Parens(src, i, stop) == 0))
  }

  /** A title opened at `i`, if there is one, ends just before `end`. */
  predicate TitleTo(src: string, i: int, hi: int, end: int) {
    0 <= i < hi <= |src| &&
    match TitleCloser(src[i])
    case None => end == i
    case Some(closer) =>
      i + 1 < end <= hi && Markup(src, end - 1, closer) && forall j :: i < j < end - 1 ==> !Markup(src, j, closer)
  }

  /** A destination: in angle brackets if those close in time, else bare. */
  ghost predicate DestinationAt(src: string, i: int, hi: int, dest: ByteRange) {
    SpaceTo(src, i, hi, dest.start) &&
    if exists stop :: AngleTo(src, dest.start, hi, stop) then AngleTo(src, dest.start, hi, dest.stop)
    else BareTo(src, dest.start, hi, dest.stop)
  }

  /** After the destination come white space, a title from `stop` to `end` with more white space if there is one, and
      the closing parenthesis at `last`. */
  predicate EndsAt(src: string, i: int, hi: int, stop: int, end: int, last: int) {
    SpaceTo(src, i, hi, stop) && stop < hi &&
    (if src[stop] == ')' then last == stop else TitleTo(src, stop, hi, end) && SpaceTo(src, end, hi, last)) &&
    last < hi && src[last] == ')'
  }

  /** `r` are the ranges of an inline link or image that starts at `start`. */
  ghost predicate InlineAt(src: string, start: int, hi: int, literal: seq<ByteRange>, r: RefRanges, stop: int, end: int)
  {
    0 <= start < hi <= |src| &&
    var open := if src[start] == '!' then start + 1 else start;
    open < hi && src[open] == '[' && r.node.start == start && r.labelText.start == open + 1 &&
    FirstCloser(src, literal, open, r.labelText.stop) &&
    r.labelText.stop + 1 < hi && src[r.labelText.stop + 1] == '(' &&
    DestinationAt(src, r.labelText.stop + 2, hi, r.dest) && EndsAt(src, r.dest.stop, hi, stop, end, r.node.stop - 1)
  }

  lemma SpaceUnique(src: string, i: int, hi: int, a: int, b: int)
    requires SpaceTo(src, i, hi, a) && SpaceTo(src, i, hi, b) && i <= hi
    ensures a == b
  {
  }

  lemma AngleUnique(src: string, i: int, hi: int, a: int, b: int)
    requires AngleTo(src, i, hi, a) && AngleTo(src, i, hi, b)
    ensures a == b
  {
  }

  lemma UnclosedHasNoAngle(src: string, i: int, hi: int, end: int, stop: int)
    requires Unclosed(src, i, hi, end)
    ensures !AngleTo(src, i, hi, stop)
  {
  }

  lemma BareEndsFirst(src: string, i: int, hi: int, a: int, b: int)
    requires BareTo(src, i, hi, a) && BareTo(src, i, hi, b)
    ensures !(a < b)
  {
    if a < b {
      assert Parens(src, i, a + 1) >= 0;
    }
  }

  lemma TitleUnique(src: string, i: int, hi: int, a: int, b: int)
    requires TitleTo(src, i, hi, a) && TitleTo(src, i, hi, b)
    ensures a == b
  {
  }

  lemma DestinationUnique(src: string, i: int, hi: int, a: ByteRange, b: ByteRange)
    requires DestinationAt(src, i, hi, a) && DestinationAt(src, i, hi, b) && i <= hi
    ensures a == b
  {
    SpaceUnique(src, i, hi, a.start, b.start);
    if stop :| AngleTo(src, a.start, hi, stop) {
      AngleUnique(src, a.start, hi, a.stop, b.stop);
    } else {
      BareEndsFirst(src, a.start, hi, a.stop, b.stop);
      BareEndsFirst(src, a.start, hi, b.stop, a.stop);
    }
  }

  method InlineDestination(src: string, i: int, hi: int) returns (dest: ByteRange)
    requires 0 <= i && hi <= |src|
    ensures i <= dest.start <= dest.stop && (dest.stop <= hi || dest.start == dest.stop == i)
    ensures forall j :: i <= j < dest.start ==> IsSpace(src[j])
    ensures 0 < i <= hi && src[i - 1] != '\\' ==> DestinationAt(src, i, hi, dest)
  {
    var start := SkipSpace(src, i, hi);
    if start < hi && src[start] == '<' {
      var stop, ok := ScanAngleDest(src, start, hi);
      if ok {
        assert AngleTo(src, start, hi, stop);
        return ByteRange(start, stop);
      }
      ghost var end :| Unclosed(src, start, hi, end);
      forall other ensures !AngleTo(src, start, hi, other) { UnclosedHasNoAngle(src, start, hi, end, other); }
    }
    if start > hi { return ByteRange(start, start); }
    assert 0 < i && src[i - 1] != '\\' ==> !Escaped(src, start);
    var stop := ScanBareDest(src, start, hi);
    dest := ByteRange(start, stop);
  }

  lemma EndUnique(src: string, i: int, hi: int, stop: int, end: int, last: int, after: int, title: int, close: int)
    requires EndsAt(src, i, hi, stop, end, last) && i <= hi
    requires SpaceTo(src, i, hi, after)
    requires after < hi && src[after] != ')' ==> TitleTo(src, after, hi, title) && SpaceTo(src, title, hi, close)
    ensures stop == after && last == if src[after] == ')' then after else close
  {
    SpaceUnique(src, i, hi, stop, after);
    if src[after] != ')' {
      TitleUnique(src, after, hi, end, title);
      SpaceUnique(src, title, hi, last, close);
    }
  }

  lemma NoEndNoLink(src: string, start: int, hi: int, literal: seq<ByteRange>, close: int, dest: ByteRange,
                    r: RefRanges, stop: int, end: int)
    requires 0 <= start < hi <= |src| && close + 1 < hi
    requires FirstCloser(src, literal, if src[start] == '!' then start + 1 else start, close)
    requires DestinationAt(src, close + 2, hi, dest)
    requires forall stop, end, last :: !EndsAt(src, dest.stop, hi, stop, end, last)
    ensures !InlineAt(src, start, hi, literal, r, stop, end)
  {
    assert !EndsAt(src, dest.stop, hi, stop, end, r.node.stop - 1);
    if InlineAt(src, start, hi, literal, r, stop, end) {
      DestinationUnique(src, close + 2, hi, r.dest, dest);
    }
  }

  /** A link or image that starts at `start` has one reading only. */
  lemma InlineUnique(src: string, start: int, hi: int, literal: seq<ByteRange>, r: RefRanges, stop: int, end: int,
                     r': RefRanges, stop': int, end': int)
    requires InlineAt(src, start, hi, literal, r, stop, end) && InlineAt(src, start, hi, literal, r', stop', end')
    ensures r == r'
  {
    DestinationUnique(src, r.labelText.stop + 2, hi, r.dest, r'.dest);
    var at := r.dest.stop;
    SpaceUnique(src, at, hi, stop, stop');
    if src[stop] != ')' {
      TitleUnique(src, stop, hi, end, end');
      SpaceUnique(src, end, hi, r.node.stop - 1, r'.node.stop - 1);
    }
    assert r.node == r'.node && r.labelText == r'.labelText;
  }

  /** Skips an optional title and finds the closing parenthesis. */
  method LinkEnd(src: string, i: int, hi: int) returns (last: int, ok: bool)
    requires 0 <= i <= hi <= |src|
    ensures ok ==> i <= last && exists stop, end :: EndsAt(src, i, hi, stop, end, last)
    ensures !ok ==> forall stop, end, other :: !EndsAt(src, i, hi, stop, end, other)
  {
    var after := SkipSpace(src, i, hi);
    last := after;
    ghost var title := after;
    if after < hi && src[after] != ')' {
      var end, titled := ScanTitle(src, after, hi);
      if !titled { return 0, false; }
      last := SkipSpace(src, end, hi);
      title := end;
    }
    ok := last < hi && src[last] == ')';
    if ok {
      assert EndsAt(src, i, hi, after, title, last);
    } else {
      forall stop, end, other
        ensures !EndsAt(src, i, hi, stop, end, other)
      {
        if EndsAt(src, i, hi, stop, end, other) {
          EndUnique(src, i, hi, stop, end, other, after, title, last);
        }
      }
    }
  }

  lemma Assemble(src: string, start: int, hi: int, literal: seq<ByteRange>, open: int, close: int, dest: ByteRange,
                 stop: int, end: int, last: int)
    requires 0 <= start < hi <= |src| && open == (if src[start] == '!' then start + 1 else start) && open < hi
    requires src[open] == '[' && FirstCloser(src, literal, open, close) && close + 1 < hi && src[close + 1] == '('
    requires DestinationAt(src, close + 2, hi, dest) && EndsAt(src, dest.stop, hi, stop, end, last)
    ensures var r := RefRanges(ByteRange(start, last + 1), ByteRange(open + 1, close), dest);
            InlineAt(src, start, hi, literal, r, stop, end) && Located(src, hi, r)
  {
  }

  /** Locates the source of an inline link or image that starts at `start`, searching up to `hi`: it finds one if and
      only if there is one. */
  method InlineRanges(src: string, start: int, hi: int, literal: seq<ByteRange>) returns (ranges: Option<RefRanges>)
    requires hi <= |src|
    ensures ranges.Some? ==> Located(src, hi, ranges.value) && ranges.value.node.start == start
    ensures ranges.Some? ==> exists stop, end :: InlineAt(src, start, hi, literal, ranges.value, stop, end)
    ensures ranges.None? ==> forall r, stop, end :: !InlineAt(src, start, hi, literal, r, stop, end)
  {
    if start < 0 || start >= hi { return None; }
    var open := start;
    if src[open] == '!' { open := open + 1; }
    if open >= hi || src[open] != '[' { return None; }
    var close, ok := ClosingBracket(src, open, hi, literal);
    if !ok || close + 1 >= hi || src[close + 1] != '(' { return None; }
    var dest := InlineDestination(src, close + 2, hi);
    var last, found := LinkEnd(src, dest.stop, hi);
    if !found {
      forall r, stop, end ensures !InlineAt(src, start, hi, literal, r, stop, end) {
        NoEndNoLink(src, start, hi, literal, close, dest, r, stop, end);
      }
      return None;
    }
    ghost var stop, end :| EndsAt(src, dest.stop, hi, stop, end, last);
    ranges := Some(RefRanges(ByteRange(start, last + 1), ByteRange(open + 1, close), dest));
    Assemble(src, start, hi, literal, open, close, dest, stop, end, last);
  }

  // ---------------------------------------------------------------- alt text, printed and read back

  predicate Punctuation(c: char) {
    c in "!\"#$%&'()*+,-./:;<=>?@[\\]^_`{|}~"
  }

  /** Drops the backslash of every escaped punctuation character. */
  function Unescape(s: string): string {
    if s == "" then ""
    else if s[0] == '\\' && |s| > 1 && Punctuation(s[1]) then [s[1]] + Unescape(s[2..])
    else [s[0]] + Unescape(s[1..])
  }

  method UnescapePunctuation(s: string) returns (out: string)
    ensures out == Unescape(s)
  {
    if !('\\' in s) {
      NothingToUnescape(s);
      return s;
    }
    out := "";
    var i := 0;
    while i < |s|
      invariant 0 <= i <= |s| && out + Unescape(s[i..]) == Unescape(s)
    {
      UnescapeNext(s, i);
      if s[i] == '\\' && i + 1 < |s| && Punctuation(s[i + 1]) {
        i := i + 1;
      }
      Associate(out, [s[i]], Unescape(s[i + 1..]));
      out := out + [s[i]];
      i := i + 1;
    }
  }

  /** What the next character of a text contributes. */
  lemma UnescapeNext(s: string, i: nat)
    requires i < |s|
    ensures Unescape(s[i..]) ==
            if s[i] == '\\' && i + 1 < |s| && Punctuation(s[i + 1]) then [s[i + 1]] + Unescape(s[i + 2..])
            else [s[i]] + Unescape(s[i + 1..])
  {
    assert s[i..][1..] == s[i + 1..];
    if i + 1 < |s| { assert s[i..][2..] == s[i + 2..]; }
  }

  lemma {:induction false} NothingToUnescape(s: string)
    requires !('\\' in s)
    ensures Unescape(s) == s
  {
    if s != "" {
      NothingToUnescape(s[1..]);
      assert s == [s[0]] + s[1..];
    }
  }

  function EscapeChar(c: char): string {
    if c == '\\' || c == '[' || c == ']' then ['\\', c] else if c == '\n' || c == '\r' then " " else [c]
  }

  function EscapeAlt(s: string): string {
    if s == "" then "" else EscapeChar(s[0]) + EscapeAlt(s[1..])
  }

  /** What a reader of the alt text sees: line breaks have become spaces. */
  function OneLine(s: string): string {
    seq(|s|, i requires 0 <= i < |s| => if s[i] == '\n' || s[i] == '\r' then ' ' else s[i])
  }

  /** Every alt text prints and reads back as itself, with its line breaks turned to spaces. */
  lemma {:induction false} AltRoundTrip(s: string)
    ensures Unescape(EscapeAlt(s)) == OneLine(s)
  {
    if s != "" {
      AltRoundTrip(s[1..]);
      var rest := EscapeAlt(s[1..]);
      var e := EscapeChar(s[0]) + rest;
      assert OneLine(s) == [OneLine(s)[0]] + OneLine(s[1..]);
      if |EscapeChar(s[0])| == 2 {
        assert e[2..] == rest;
      } else {
        assert e[1..] == rest;
      }
    }
  }

  /** The bytes from `from` on hold no bracket that counts as markup, and none that follows would be escaped. */
  ghost predicate Inert(t: string, from: int) {
    0 <= from <= |t| && !Escaped(t, |t|) &&
    forall k :: from <= k < |t| ==> !Markup(t, k, '[') && !Markup(t, k, ']')
  }

  lemma {:induction false} BackslashesPrefix(a: string, b: string, i: int)
    requires 0 <= i <= |a|
    ensures Backslashes(a + b, i) == Backslashes(a, i)
    decreases i
  {
    if i > 0 {
      BackslashesPrefix(a, b, i - 1);
    }
  }

  /** Appending one escaped character keeps the text inert. */
  lemma EscapeCharInert(t: string, from: int, c: char)
    requires Inert(t, from)
    ensures Inert(t + EscapeChar(c), from)
  {
    var e := EscapeChar(c);
    var u := t + e;
    forall k | 0 <= k <= |t| ensures Backslashes(u, k) == Backslashes(t, k) { BackslashesPrefix(t, e, k); }
    ForwardAgreesWithBackward(u, |t|);
    forall k | from <= k < |u| ensures !Markup(u, k, '[') && !Markup(u, k, ']') {
      if k < |t| { assert u[k] == t[k] && !Markup(t, k, '[') && !Markup(t, k, ']'); }
    }
  }

  lemma {:induction false} EscapeAltInert(t: string, from: int, s: string)
    requires Inert(t, from)
    ensures Inert(t + EscapeAlt(s), from)
    decreases |s|
  {
    if s == "" {
      assert t + EscapeAlt(s) == t;
    } else {
      var u, rest := t + EscapeChar(s[0]), EscapeAlt(s[1..]);
      assert t + EscapeAlt(s) == u + rest by {
        assert EscapeAlt(s) == EscapeChar(s[0]) + rest;
      }
      EscapeCharInert(t, from, s[0]);
      EscapeAltInert(u, from, s[1..]);
    }
  }

  /** Every bracket inside an escaped alt text is escaped. */
  lemma AltBracketsEscaped(s: string, k: int)
    requires 0 <= k < |EscapeAlt(s)| && (EscapeAlt(s)[k] == '[' || EscapeAlt(s)[k] == ']')
    ensures Escaped(EscapeAlt(s), k)
  {
    EscapeAltInert("", 0, s);
    assert "" + EscapeAlt(s) == EscapeAlt(s);
    assert !Markup(EscapeAlt(s), k, '[') && !Markup(EscapeAlt(s), k, ']');
  }

  /** The text says what `alt` says, and holds no bracket that would count. */
  ghost predicate Captions(text: string, alt: string) {
    Unescape(text) == OneLine(alt) && (alt != "" ==> text != "") &&
    forall k :: 0 <= k < |text| && (text[k] == '[' || text[k] == ']') ==> Escaped(text, k)
  }

  lemma AltCaptions(alt: string)
    ensures Captions(EscapeAlt(alt), alt)
  {
    var text := EscapeAlt(alt);
    AltRoundTrip(alt);
    forall k | 0 <= k < |text| && (text[k] == '[' || text[k] == ']') ensures Escaped(text, k) {
      AltBracketsEscaped(alt, k);
    }
  }

  /** A label opened before any printed alt text closes at the bracket after it and nowhere earlier. */
  lemma AltCloses(lead: string, s: string, tail: string)
    requires !Escaped(lead, |lead|)
    ensures FirstCloser(lead + "[" + EscapeAlt(s) + "]" + tail, [], |lead|, |lead| + 1 + |EscapeAlt(s)|)
  {
    var t := lead + "[";
    var body := t + EscapeAlt(s);
    var src := body + ("]" + tail);
    assert src == lead + "[" + EscapeAlt(s) + "]" + tail;
    EscapeAltInert(t, |t|, s);
    forall k | 0 <= k <= |body| ensures Backslashes(src, k) == Backslashes(body, k) {
      BackslashesPrefix(body, "]" + tail, k);
    }
    assert src == lead + ("[" + EscapeAlt(s) + "]" + tail);
    BackslashesPrefix(lead, "[" + EscapeAlt(s) + "]" + tail, |lead|);
    forall k | |lead| < k < |body| ensures !Bracket(src, [], k, '[') && !Bracket(src, [], k, ']') {
      assert src[k] == body[k] && !Markup(body, k, '[') && !Markup(body, k, ']');
    }
    OneOpen(src, |lead|, |body|);
    assert Bracket(src, [], |body|, ']');
    forall j | |lead| <= j < |body| ensures !Closes(src, [], |lead|, j) {
      if j == |lead| { assert src[j] == '['; }
    }
  }

  /** The label of a printed image is exactly the printed alt text: no byte of it closes the label early. */
  lemma AltStaysInside(s: string)
    ensures var src := "[" + EscapeAlt(s) + "]";
            FirstCloser(src, [], 0, |src| - 1)
  {
    AltCloses("", s, "");
    assert "" + "[" + EscapeAlt(s) + "]" + "" == "[" + EscapeAlt(s) + "]";
  }

  lemma {:induction false} OneOpen(src: string, open: int, j: int)
    requires 0 <= open < j <= |src| && Bracket(src, [], open, '[')
    requires forall k :: open < k < j ==> !Bracket(src, [], k, '[') && !Bracket(src, [], k, ']')
    ensures Brackets(src, [], open, j) == 1
    decreases j
  {
    if j > open + 1 { OneOpen(src, open, j - 1); }
  }

  /** A destination without anything that could end or escape it. */
  predicate PlainDestination(url: string) {
    url != "" && url[0] != '<' &&
    forall i :: 0 <= i < |url| ==> !IsSpace(url[i]) && url[i] != '(' && url[i] != ')' && url[i] != '\\'
  }

  lemma {:induction false} NoParens(src: string, i: int, j: int)
    requires 0 <= i <= j <= |src| && forall k :: i <= k < j ==> src[k] != '(' && src[k] != ')'
    ensures Parens(src, i, j) == 0
    decreases j
  {
    if i < j { NoParens(src, i, j - 1); }
  }

  lemma PlainDestinationRead(src: string, i: int, stop: int)
    requires 0 <= i < stop < |src| && src[stop] == ')' && PlainDestination(src[i..stop])
    ensures DestinationAt(src, i, stop + 1, ByteRange(i, stop)) && EndsAt(src, stop, stop + 1, stop, stop, stop)
  {
    forall k | i <= k < stop
      ensures src[k] != '<' || k > i
      ensures !IsSpace(src[k]) && src[k] != '(' && src[k] != ')' && src[k] != '\\'
    {
      assert src[k] == src[i..stop][k - i];
    }
    forall j | i <= j <= stop ensures Parens(src, i, j) == 0 { NoParens(src, i, j); }
    assert !Escaped(src, stop);
    assert BareTo(src, i, stop + 1, stop);
  }

  /** The ranges of an image that takes up the bytes from `p` to `q`. */
  function ImageRanges(p: int, close: int, q: int): RefRanges {
    RefRanges(ByteRange(p, q), ByteRange(p + 2, close), ByteRange(close + 2, q - 1))
  }

  /** The printed image. */
  function ImageText(alt: string, url: string): string {
    "![" + EscapeAlt(alt) + "](" + url + ")"
  }

  lemma Middle(src: string, front: string, text: string, rest: string)
    requires src == front + text + rest
    ensures src[|front|..|front| + |text|] == text
  {
  }

  /** A printed image in a text, taken apart around its label and around its destination. */
  lemma AroundLabel(before: string, alt: string, url: string, after: string)
    ensures before + ImageText(alt, url) + after ==
            (before + "!") + "[" + EscapeAlt(alt) + "]" + ("(" + url + ")" + after)
  {
  }

  lemma InLabel(before: string, alt: string, url: string, after: string)
    ensures before + ImageText(alt, url) + after == (before + "![") + EscapeAlt(alt) + ("](" + url + ")" + after)
  {
  }

  lemma InDestination(before: string, alt: string, url: string, after: string)
    ensures before + ImageText(alt, url) + after == (before + "![" + EscapeAlt(alt) + "](") + url + (")" + after)
  {
  }

  lemma ImageMarks(src: string, before: string, alt: string, rest: string)
    requires src == (before + "![" + alt + "](") + rest
    ensures src[|before|] == '!' && src[|before| + 1] == '[' && src[|before| + 3 + |alt|] == '('
  {
    var front := before + "![" + alt + "](";
    assert front[|before|] == '!' && front[|before| + 1] == '[' && front[|before| + 3 + |alt|] == '(';
  }

  /** An image from `p` to `q` whose label says what `alt` says and whose destination is the URL. */
  ghost predicate ImageAt(src: string, p: int, q: int, alt: string, url: string) {
    var close := q - 3 - |url|;
    0 <= p && p + 2 <= close && q <= |src| && src[p] == '!' &&
    InlineAt(src, p, q, [], ImageRanges(p, close, q), q - 1, q - 1) &&
    Captions(src[p + 2..close], alt) && src[close + 2..q - 1] == url
  }

  lemma AssembleImage(src: string, p: int, close: int, q: int, alt: string, url: string)
    requires 0 <= p && p + 2 <= close && q == close + 3 + |url| && |url| > 0 && q <= |src|
    requires src[p] == '!' && src[p + 1] == '[' && src[close + 1] == '(' && FirstCloser(src, [], p + 1, close)
    requires DestinationAt(src, close + 2, q, ByteRange(close + 2, q - 1))
    requires EndsAt(src, q - 1, q, q - 1, q - 1, q - 1)
    requires Captions(src[p + 2..close], alt) && src[close + 2..q - 1] == url
    ensures ImageAt(src, p, q, alt, url)
  {
  }

  /** The printed image stands from `p` to `q`, between `before` and `after`, its label ending at `close`. */
  predicate Printed(src: string, before: string, alt: string, url: string, after: string, p: int, close: int, q: int) {
    src == before + ImageText(alt, url) + after && p == |before| && close == p + 2 + |EscapeAlt(alt)| &&
    q == close + 3 + |url|
  }

  lemma ImageLabel(src: string, before: string, alt: string, url: string, after: string, p: int, close: int, q: int)
    requires Printed(src, before, alt, url, after, p, close, q)
    ensures FirstCloser(src, [], p + 1, close)
  {
    AroundLabel(before, alt, url, after);
    AltCloses(before + "!", alt, "(" + url + ")" + after);
  }

  lemma DestinationThere(src: string, front: string, url: string, after: string, i: int, stop: int)
    requires PlainDestination(url) && src == front + url + (")" + after) && i == |front| && stop == i + |url|
    ensures DestinationAt(src, i, stop + 1, ByteRange(i, stop)) && EndsAt(src, stop, stop + 1, stop, stop, stop)
  {
    Middle(src, front, url, ")" + after);
    assert src[stop] == (")" + after)[0];
    PlainDestinationRead(src, i, stop);
  }

  lemma ImageDestination(src: string, before: string, alt: string, url: string, after: string, p: int, close: int,
                         q: int)
    requires Printed(src, before, alt, url, after, p, close, q) && PlainDestination(url)
    ensures DestinationAt(src, close + 2, q, ByteRange(close + 2, q - 1)) && EndsAt(src, q - 1, q, q - 1, q - 1, q - 1)
  {
    InDestination(before, alt, url, after);
    DestinationThere(src, before + "![" + EscapeAlt(alt) + "](", url, after, close + 2, q - 1);
  }

  lemma ImageParts(src: string, before: string, alt: string, url: string, after: string, p: int, close: int, q: int)
    requires Printed(src, before, alt, url, after, p, close, q)
    ensures q <= |src| && src[p] == '!' && src[p + 1] == '[' && src[close + 1] == '('
    ensures src[p + 2..close] == EscapeAlt(alt) && src[close + 2..q - 1] == url
  {
    InLabel(before, alt, url, after);
    Middle(src, before + "![", EscapeAlt(alt), "](" + url + ")" + after);
    InDestination(before, alt, url, after);
    Middle(src, before + "![" + EscapeAlt(alt) + "](", url, ")" + after);
    Associate(before + "![" + EscapeAlt(alt) + "](", url, ")" + after);
    ImageMarks(src, before, EscapeAlt(alt), url + (")" + after));
  }

  lemma ImageCaption(src: string, before: string, alt: string, url: string, after: string, p: int, close: int, q: int)
    requires Printed(src, before, alt, url, after, p, close, q)
    ensures q <= |src| && Captions(src[p + 2..close], alt)
  {
    ImageParts(src, before, alt, url, after, p, close, q);
    AltCaptions(alt);
  }

  /** Wherever a printed image stands it is read back as that image and nothing besides: its label says the alt text,
      its destination is the URL, whatever the alt text. */
  lemma ImageReadsBack(src: string, before: string, alt: string, url: string, after: string, p: int, close: int, q: int)
    requires Printed(src, before, alt, url, after, p, close, q) && PlainDestination(url)
    ensures ImageAt(src, p, q, alt, url)
  {
    ImageParts(src, before, alt, url, after, p, close, q);
    ImageLabel(src, before, alt, url, after, p, close, q);
    ImageDestination(src, before, alt, url, after, p, close, q);
    ImageCaption(src, before, alt, url, after, p, close, q);
    AssembleImage(src, p, close, q, alt, url);
  }
}

/** The streaming JSON colouriser. It sees one token at a time and tells object keys from values with nothing but the
    stack of open delimiters and a counter that every delimiter resets. */
module JsonColor {
  import opened Strings

  datatype Kind = Null | Bool | Number | Text

  datatype Atom = Atom(kind: Kind, text: string)

  datatype Json =
    | Scalar(atom: Atom)
    | List(elements: seq<Json>)
    | Object(members: seq<Member>)

  datatype Member = Member(key: string, value: Json)

  datatype Delim = LeftBrace | LeftBracket | RightBrace | RightBracket

  datatype Token = Open(delim: Delim) | Close(delim: Delim) | Leaf(atom: Atom)

  datatype Color = DelimColor | KeyColor | NullColor | TextColor | BoolColor | NoColor

  /** What is written: coloured lexemes, and the white space of the layout. */
  datatype Piece = Lexeme(color: Color, text: string) | Layout(space: string)

  function Spelling(d: Delim): string {
    match d
    case LeftBrace => "{"
    case LeftBracket => "["
    case RightBrace => "}"
    case RightBracket => "]"
  }

  function Punctuation(s: string): Piece { Lexeme(DelimColor, s) }

  // ---------------------------------------------------------------- the token stream of a value

  function Tokens(v: Json): seq<Token>
    decreases v, 1
  {
    match v
    case Scalar(a) => [Leaf(a)]
    case List(es) => [Open(LeftBracket)] + AllTokens(es) + [Close(RightBracket)]
    case Object(ms) => [Open(LeftBrace)] + MemberTokens(ms) + [Close(RightBrace)]
  }

  function AllTokens(vs: seq<Json>): seq<Token>
    decreases vs, 0
  {
    if vs == [] then [] else Tokens(vs[0]) + AllTokens(vs[1..])
  }

  function MemberTokens(ms: seq<Member>): seq<Token>
    decreases ms, 0
  {
    if ms == [] then []
    else [Leaf(Atom(Text, ms[0].key))] + (Tokens(ms[0].value) + MemberTokens(ms[1..]))
  }

  /** The decoder's `More`: another element follows in the current array, object or stream. */
  predicate More(rest: seq<Token>) {
    rest != [] && !rest[0].Close?
  }

  // ---------------------------------------------------------------- one token

  datatype Writer = Writer(stack: seq<Delim>, idx: nat, out: seq<Piece>)

  function Repeat(s: string, n: nat): string {
    if n == 0 then "" else s + Repeat(s, n - 1)
  }

  function ColorOf(k: Kind): Color {
    match k
    case Null => NullColor
    case Text => TextColor
    case Bool => BoolColor
    case Number => NoColor
  }

  predicate ExpectsKey(w: Writer) {
    w.stack != [] && w.stack[|w.stack| - 1] == LeftBrace && w.idx % 2 == 0
  }

  /** The comma and line break, or the line break alone, that end a line at the given depth. */
  function LineEnd(more: bool, depth: nat, indent: string): seq<Piece> {
    if more then [Punctuation(","), Layout("\n" + Repeat(indent, depth))]
    else if depth > 0 then [Layout("\n" + Repeat(indent, depth - 1))]
    else [Layout("\n")]
  }

  function Popped(stack: seq<Delim>): seq<Delim> {
    if stack == [] then [] else stack[..|stack| - 1]
  }

  function StackAfter(w: Writer, t: Token): seq<Delim> {
    match t
    case Open(d) => w.stack + [d]
    case Close(d) => Popped(w.stack)
    case Leaf(a) => w.stack
  }

  /** What one token adds to the output; `more` is the decoder's answer after it. */
  function Written(w: Writer, t: Token, more: bool, indent: string): seq<Piece> {
    var depth := |StackAfter(w, t)|;
    match t
    case Open(d) =>
      [Punctuation(Spelling(d))] + if more then [Layout("\n" + Repeat(indent, depth))] else []
    case Close(d) =>
      [Punctuation(Spelling(d))] + LineEnd(more, depth, indent)
    case Leaf(a) =>
      if ExpectsKey(w) then [Lexeme(KeyColor, a.text), Punctuation(":"), Layout(" ")]
      else [Lexeme(ColorOf(a.kind), a.text)] + LineEnd(more, depth, indent)
  }

  function Step(w: Writer, t: Token, more: bool, indent: string): Writer {
    Writer(StackAfter(w, t), if t.Leaf? then w.idx + 1 else 0, w.out + Written(w, t, more, indent))
  }

  /** The writer after the tokens `ts`, with `rest` still to come. */
  function Emit(w: Writer, ts: seq<Token>, rest: seq<Token>, indent: string): Writer
    decreases |ts|
  {
    if ts == [] then w else Emit(Step(w, ts[0], More(ts[1..] + rest), indent), ts[1..], rest, indent)
  }

  lemma {:induction false} EmitConcat(w: Writer, a: seq<Token>, b: seq<Token>, rest: seq<Token>, indent: string)
    ensures Emit(w, a + b, rest, indent) == Emit(Emit(w, a, b + rest, indent), b, rest, indent)
    decreases |a|
  {
    if a == [] {
      assert a + b == b;
    } else {
      assert (a + b)[1..] == a[1..] + b;
      assert (a + b)[1..] + rest == a[1..] + (b + rest);
      EmitConcat(Step(w, a[0], More(a[1..] + (b + rest)), indent), a[1..], b, rest, indent);
    }
  }

  // ---------------------------------------------------------------- what should come out

  /** A scalar in the colour of its kind; numbers have none. */
  function Shade(a: Atom): Piece {
    match a.kind
    case Null => Lexeme(NullColor, a.text)
    case Text => Lexeme(TextColor, a.text)
    case Bool => Lexeme(BoolColor, a.text)
    case Number => Lexeme(NoColor, a.text)
  }

  /** A value as it should be printed: the first line where it is, every further one behind `margin`, and what is inside
      of it one `indent` deeper. */
  function Pretty(v: Json, margin: string, indent: string): seq<Piece>
    decreases v, 2
  {
    match v
    case Scalar(a) => [Shade(a)]
    case List(es) =>
      if es == [] then [Lexeme(DelimColor, "["), Lexeme(DelimColor, "]")]
      else
        [Lexeme(DelimColor, "["), Layout("\n" + (margin + indent))] + PrettyList(es, margin + indent, indent) +
        [Layout("\n" + margin), Lexeme(DelimColor, "]")]
    case Object(ms) =>
      if ms == [] then [Lexeme(DelimColor, "{"), Lexeme(DelimColor, "}")]
      else
        [Lexeme(DelimColor, "{"), Layout("\n" + (margin + indent))] + PrettyMembers(ms, margin + indent, indent) +
        [Layout("\n" + margin), Lexeme(DelimColor, "}")]
  }

  /** One value on a line, with commas in between. */
  function PrettyList(vs: seq<Json>, margin: string, indent: string): seq<Piece>
    decreases vs, 0
  {
    if vs == [] then []
    else Pretty(vs[0], margin, indent) + Between(|vs| > 1, margin) + PrettyList(vs[1..], margin, indent)
  }

  function PrettyMembers(ms: seq<Member>, margin: string, indent: string): seq<Piece>
    decreases ms, 0
  {
    if ms == [] then []
    else
      [Lexeme(KeyColor, ms[0].key), Lexeme(DelimColor, ":"), Layout(" ")] + Pretty(ms[0].value, margin, indent) +
      Between(|ms| > 1, margin) + PrettyMembers(ms[1..], margin, indent)
  }

  function Between(more: bool, margin: string): seq<Piece> {
    if more then [Lexeme(DelimColor, ","), Layout("\n" + margin)] else []
  }

  /** The coloured lexemes of a value: keys in the key colour and followed by a colon, everything else by its kind. */
  function Expected(v: Json): seq<Piece>
    decreases v, 2
  {
    match v
    case Scalar(a) => [Shade(a)]
    case List(es) => [Punctuation("[")] + ExpectedList(es) + [Punctuation("]")]
    case Object(ms) => [Punctuation("{")] + ExpectedMembers(ms) + [Punctuation("}")]
  }

  function ExpectedList(vs: seq<Json>): seq<Piece>
    decreases vs, 0
  {
    if vs == [] then []
    else Expected(vs[0]) + (if |vs| > 1 then [Punctuation(",")] else []) + ExpectedList(vs[1..])
  }

  function ExpectedMembers(ms: seq<Member>): seq<Piece>
    decreases ms, 0
  {
    if ms == [] then []
    else [Lexeme(KeyColor, ms[0].key), Punctuation(":")] + Expected(ms[0].value) +
         (if |ms| > 1 then [Punctuation(",")] else []) + ExpectedMembers(ms[1..])
  }

  /** The output without the layout. */
  function Lexemes(out: seq<Piece>): seq<Piece> {
    if out == [] then []
    else (if out[0].Lexeme? then [out[0]] else []) + Lexemes(out[1..])
  }

  lemma {:induction false} LexemesConcat(a: seq<Piece>, b: seq<Piece>)
    ensures Lexemes(a + b) == Lexemes(a) + Lexemes(b)
  {
    if a == [] {
      assert a + b == b;
    } else {
      assert (a + b)[0] == a[0] && (a + b)[1..] == a[1..] + b;
      LexemesConcat(a[1..], b);
      Associate(if a[0].Lexeme? then [a[0]] else [], Lexemes(a[1..]), Lexemes(b));
    }
  }

  function Comma(more: bool): seq<Piece> {
    if more then [Punctuation(",")] else []
  }

  function Shown(w: Writer, t: Token, more: bool): seq<Piece> {
    match t
    case Open(d) => [Punctuation(Spelling(d))]
    case Close(d) => [Punctuation(Spelling(d))] + Comma(more)
    case Leaf(a) =>
      if ExpectsKey(w) then [Lexeme(KeyColor, a.text), Punctuation(":")]
      else [Lexeme(ColorOf(a.kind), a.text)] + Comma(more)
  }

  lemma {:induction false} LexemesOfLayout(shown: seq<Piece>, space: Piece)
    requires forall p :: p in shown ==> p.Lexeme?
    requires space.Layout?
    ensures Lexemes(shown) == shown && Lexemes(shown + [space]) == shown
  {
    if shown == [] {
    } else {
      LexemesOfLayout(shown[1..], space);
      assert (shown + [space])[1..] == shown[1..] + [space];
    }
  }

  lemma {:induction false} LexemesOfLine(p: Piece, more: bool, depth: nat, indent: string)
    requires p.Lexeme?
    ensures Lexemes([p] + LineEnd(more, depth, indent)) == [p] + Comma(more)
  {
    LexemesConcat([p], LineEnd(more, depth, indent));
    if more {
      var space := Layout("\n" + Repeat(indent, depth));
      assert LineEnd(more, depth, indent) == [Punctuation(",")] + [space];
      LexemesOfLayout([Punctuation(",")], space);
    }
    LexemesOfLayout([p], Layout(""));
  }

  lemma {:induction false} LexemesOfStep(w: Writer, t: Token, more: bool, indent: string)
    ensures Lexemes(Step(w, t, more, indent).out) == Lexemes(w.out) + Shown(w, t, more)
  {
    LexemesConcat(w.out, Written(w, t, more, indent));
    var depth := |StackAfter(w, t)|;
    match t
    case Open(d) =>
      LexemesConcat([Punctuation(Spelling(d))], if more then [Layout("\n" + Repeat(indent, depth))] else []);
    case Close(d) =>
      LexemesOfLine(Punctuation(Spelling(d)), more, depth, indent);
    case Leaf(a) =>
      if ExpectsKey(w) {
        LexemesOfLayout([Lexeme(KeyColor, a.text), Punctuation(":")], Layout(" "));
        assert Written(w, t, more, indent) == [Lexeme(KeyColor, a.text), Punctuation(":")] + [Layout(" ")];
      } else {
        LexemesOfLine(Lexeme(ColorOf(a.kind), a.text), more, depth, indent);
      }
  }

  // ---------------------------------------------------------------- every value comes out right

  predicate InObject(w: Writer) {
    w.stack != [] && w.stack[|w.stack| - 1] == LeftBrace
  }

  /** `a` became `b` by writing `shown`; the open delimiters are as before and inside an object a key is next. */
  predicate Wrote(a: Writer, b: Writer, shown: seq<Piece>) {
    b.stack == a.stack && Lexemes(b.out) == Lexemes(a.out) + shown && (InObject(a) ==> b.idx % 2 == 0)
  }

  lemma {:induction false} StartsOpen(v: Json)
    ensures Tokens(v) != [] && !Tokens(v)[0].Close?
  {
    match v
    case Scalar(_) =>
    case List(_) =>
    case Object(_) =>
  }

  lemma {:induction false} MoreValues(vs: seq<Json>, rest: seq<Token>)
    ensures More(AllTokens(vs) + rest) == (vs != [] || More(rest))
  {
    if vs == [] {
      assert AllTokens(vs) + rest == rest;
    } else {
      StartsOpen(vs[0]);
    }
  }

  lemma {:induction false} MoreMembers(ms: seq<Member>, rest: seq<Token>)
    ensures More(MemberTokens(ms) + rest) == (ms != [] || More(rest))
  {
    if ms == [] {
      assert MemberTokens(ms) + rest == rest;
    }
  }

  // ---------------------------------------------------------------- the layout

  /** `a` became `b` by writing exactly `shown`; the open delimiters are as before and inside an object a key is
      next. */
  predicate Laid(a: Writer, b: Writer, shown: seq<Piece>) {
    b.stack == a.stack && b.out == a.out + shown && (InObject(a) ==> b.idx % 2 == 0)
  }

  lemma {:induction false} LaidTwice(a: Writer, b: Writer, c: Writer, first: seq<Piece>, second: seq<Piece>)
    requires Laid(a, b, first) && Laid(b, c, second)
    ensures Laid(a, c, first + second)
  {
    Associate(a.out, first, second);
  }

  /** A repetition ends as it begins. */
  lemma {:induction false} RepeatEnd(s: string, n: nat)
    ensures Repeat(s, 0) == "" && Repeat(s, n + 1) == Repeat(s, n) + s
  {
    if n == 0 {
      assert s + "" == "" + s;
    } else {
      RepeatEnd(s, n - 1);
      Associate(s, Repeat(s, n - 1), s);
    }
  }

  /** What the lines start with at the writer's depth. */
  function Margin(w: Writer, indent: string): string {
    Repeat(indent, |w.stack|)
  }

  /** A value's tokens write exactly its pretty form and the end of its line, unless the value is a bare scalar that
      stands where a key is due. */
  lemma {:induction false} ValueLaid(w: Writer, v: Json, rest: seq<Token>, indent: string)
    requires ExpectsKey(w) ==> !v.Scalar?
    ensures Laid(w, Emit(w, Tokens(v), rest, indent),
                 Pretty(v, Margin(w, indent), indent) + LineEnd(More(rest), |w.stack|, indent))
    decreases v, 1
  {
    match v
    case Scalar(a) =>
      ScalarLaid(w, a, rest, indent);
    case List(es) =>
      ArrayLaid(w, es, rest, indent);
    case Object(ms) =>
      ObjectLaid(w, ms, rest, indent);
  }

  lemma {:induction false} EmitOne(w: Writer, t: Token, rest: seq<Token>, indent: string)
    ensures Emit(w, [t], rest, indent) == Step(w, t, More(rest), indent)
  {
    assert [t][1..] + rest == rest;
  }

  lemma {:induction false} ScalarLaid(w: Writer, a: Atom, rest: seq<Token>, indent: string)
    requires !ExpectsKey(w)
    ensures Laid(w, Emit(w, [Leaf(a)], rest, indent), [Shade(a)] + LineEnd(More(rest), |w.stack|, indent))
  {
    EmitOne(w, Leaf(a), rest, indent);
  }

  /** What stands between the delimiters. */
  function Inside(open: Delim, body: seq<Piece>, close: Delim, margin: string, indent: string): seq<Piece> {
    if body == [] then [Punctuation(Spelling(open)), Punctuation(Spelling(close))]
    else
      [Punctuation(Spelling(open)), Layout("\n" + (margin + indent))] + body +
      [Layout("\n" + margin), Punctuation(Spelling(close))]
  }

  lemma {:induction false} ArrayLaid(w: Writer, es: seq<Json>, rest: seq<Token>, indent: string)
    ensures Laid(w, Emit(w, [Open(LeftBracket)] + AllTokens(es) + [Close(RightBracket)], rest, indent),
                 Pretty(List(es), Margin(w, indent), indent) + LineEnd(More(rest), |w.stack|, indent))
    decreases es, 2
  {
    var shown := PrettyList(es, Margin(w, indent) + indent, indent);
    ElementsLaid(w, es, shown, rest, indent);
    BracketsLaid(w, LeftBracket, RightBracket, AllTokens(es), shown, rest, indent);
    InsideArray(es, Margin(w, indent), indent);
  }

  lemma {:induction false} ElementsLaid(w: Writer, es: seq<Json>, shown: seq<Piece>, rest: seq<Token>, indent: string)
    requires shown == PrettyList(es, Margin(w, indent) + indent, indent)
    ensures More(AllTokens(es) + ([Close(RightBracket)] + rest)) == (shown != [])
    ensures var inner := Step(w, Open(LeftBracket), shown != [], indent);
            Laid(inner, Emit(inner, AllTokens(es), [Close(RightBracket)] + rest, indent),
                 shown + LastLine(shown, |w.stack| + 1, indent))
    decreases es, 1
  {
    var inner := Step(w, Open(LeftBracket), shown != [], indent);
    RepeatEnd(indent, |w.stack|);
    MoreValues(es, [Close(RightBracket)] + rest);
    PrettyFull(es, Margin(inner, indent), indent);
    assert inner.stack[|inner.stack| - 1] == LeftBracket;
    ListLaid(inner, es, [Close(RightBracket)] + rest, indent);
  }

  lemma {:induction false} InsideArray(es: seq<Json>, margin: string, indent: string)
    ensures Inside(LeftBracket, PrettyList(es, margin + indent, indent), RightBracket, margin, indent) ==
            Pretty(List(es), margin, indent)
  {
    PrettyFull(es, margin + indent, indent);
  }

  lemma {:induction false} InsideObject(ms: seq<Member>, margin: string, indent: string)
    ensures Inside(LeftBrace, PrettyMembers(ms, margin + indent, indent), RightBrace, margin, indent) ==
            Pretty(Object(ms), margin, indent)
  {
  }

  lemma {:induction false} PropertiesLaid(w: Writer, ms: seq<Member>, shown: seq<Piece>, rest: seq<Token>,
                                          indent: string)
    requires shown == PrettyMembers(ms, Margin(w, indent) + indent, indent)
    ensures More(MemberTokens(ms) + ([Close(RightBrace)] + rest)) == (shown != [])
    ensures var inner := Step(w, Open(LeftBrace), shown != [], indent);
            Laid(inner, Emit(inner, MemberTokens(ms), [Close(RightBrace)] + rest, indent),
                 shown + LastLine(shown, |w.stack| + 1, indent))
    decreases ms, 1
  {
    var inner := Step(w, Open(LeftBrace), shown != [], indent);
    RepeatEnd(indent, |w.stack|);
    MoreMembers(ms, [Close(RightBrace)] + rest);
    MembersLaid(inner, ms, [Close(RightBrace)] + rest, indent);
  }

  lemma {:induction false} ObjectLaid(w: Writer, ms: seq<Member>, rest: seq<Token>, indent: string)
    ensures Laid(w, Emit(w, [Open(LeftBrace)] + MemberTokens(ms) + [Close(RightBrace)], rest, indent),
                 Pretty(Object(ms), Margin(w, indent), indent) + LineEnd(More(rest), |w.stack|, indent))
    decreases ms, 2
  {
    var shown := PrettyMembers(ms, Margin(w, indent) + indent, indent);
    PropertiesLaid(w, ms, shown, rest, indent);
    BracketsLaid(w, LeftBrace, RightBrace, MemberTokens(ms), shown, rest, indent);
    InsideObject(ms, Margin(w, indent), indent);
  }

  lemma {:induction false} PrettyFull(vs: seq<Json>, margin: string, indent: string)
    ensures PrettyList(vs, margin, indent) == [] <==> vs == []
  {
    if vs != [] {
      match vs[0]
      case Scalar(_) =>
      case List(_) =>
      case Object(_) =>
    }
  }

  /** The end of the last line inside, if there is one. */
  function LastLine(body: seq<Piece>, depth: nat, indent: string): seq<Piece> {
    if body == [] then [] else LineEnd(false, depth, indent)
  }

  lemma {:induction false} BracketsLaid(w: Writer, open: Delim, close: Delim, body: seq<Token>, shown: seq<Piece>,
                                        rest: seq<Token>, indent: string)
    requires More(body + ([Close(close)] + rest)) == (shown != [])
    requires var inner := Step(w, Open(open), shown != [], indent);
             Laid(inner, Emit(inner, body, [Close(close)] + rest, indent),
                  shown + LastLine(shown, |w.stack| + 1, indent))
    ensures Laid(w, Emit(w, [Open(open)] + body + [Close(close)], rest, indent),
                 Inside(open, shown, close, Margin(w, indent), indent) + LineEnd(More(rest), |w.stack|, indent))
  {
    var inner := Step(w, Open(open), shown != [], indent);
    BracketsEmit(w, open, close, body, rest, indent);
    BodyLaid(w, open, close, Emit(inner, body, [Close(close)] + rest, indent), shown, More(rest), indent);
  }

  lemma {:induction false} BracketsEmit(w: Writer, open: Delim, close: Delim, body: seq<Token>, rest: seq<Token>,
                                            indent: string)
    ensures var inner := Step(w, Open(open), More(body + ([Close(close)] + rest)), indent);
            Emit(w, [Open(open)] + body + [Close(close)], rest, indent) ==
            Step(Emit(inner, body, [Close(close)] + rest, indent), Close(close), More(rest), indent)
  {
    var inner := Step(w, Open(open), More(body + ([Close(close)] + rest)), indent);
    EmitConcat(w, [Open(open)] + body, [Close(close)], rest, indent);
    EmitConcat(w, [Open(open)], body, [Close(close)] + rest, indent);
    assert [] + (body + ([Close(close)] + rest)) == body + ([Close(close)] + rest);
    assert [] + rest == rest;
  }

  lemma {:induction false} BodyLaid(w: Writer, open: Delim, close: Delim, last: Writer, shown: seq<Piece>, after: bool,
                                    indent: string)
    requires Laid(Step(w, Open(open), shown != [], indent), last, shown + LastLine(shown, |w.stack| + 1, indent))
    ensures Laid(w, Step(last, Close(close), after, indent),
                 Inside(open, shown, close, Margin(w, indent), indent) + LineEnd(after, |w.stack|, indent))
  {
    var done, end := Step(last, Close(close), after, indent), LineEnd(after, |w.stack|, indent);
    var o, c := Punctuation(Spelling(open)), Punctuation(Spelling(close));
    assert last.stack == w.stack + [open] && done.stack == Popped(w.stack + [open]) == w.stack;
    if shown == [] {
      assert done.out == w.out + ([o] + []) + ([] + []) + ([c] + end);
      EmptyBracketing(w.out, o, c, end);
    } else {
      var first, break_ := Layout("\n" + Repeat(indent, |w.stack| + 1)), Layout("\n" + Margin(w, indent));
      RepeatEnd(indent, |w.stack|);
      assert done.out == w.out + ([o] + [first]) + (shown + [break_]) + ([c] + end);
      Bracketing(w.out, o, first, shown, break_, c, end);
    }
  }

  lemma {:induction false} EmptyBracketing(out: seq<Piece>, o: Piece, c: Piece, end: seq<Piece>)
    ensures out + ([o] + []) + ([] + []) + ([c] + end) == out + ([o, c] + end)
  {
    assert [o] + [] == [o] && out + [o] + ([] + []) == out + [o] && out + [o] + ([c] + end) == out + ([o, c] + end);
  }

  lemma {:induction false} Bracketing(out: seq<Piece>, o: Piece, first: Piece, shown: seq<Piece>, last: Piece, c: Piece,
                                      end: seq<Piece>)
    ensures out + ([o] + [first]) + (shown + [last]) + ([c] + end) == out + ([o, first] + shown + [last, c] + end)
  {
  }

  predicate NoScalars(vs: seq<Json>) {
    forall v :: v in vs ==> !v.Scalar?
  }

  /** The elements of an array, or of a stream: one on a line, with commas in between. */
  lemma {:induction false} ListLaid(w: Writer, vs: seq<Json>, rest: seq<Token>, indent: string)
    requires InObject(w) ==> w.idx % 2 == 0 && NoScalars(vs)
    requires !More(rest)
    ensures var shown := PrettyList(vs, Margin(w, indent), indent);
            Laid(w, Emit(w, AllTokens(vs), rest, indent), shown + LastLine(shown, |w.stack|, indent))
    decreases vs, 0
  {
    if vs != [] {
      var others, margin := AllTokens(vs[1..]), Margin(w, indent);
      var mid := Emit(w, Tokens(vs[0]), others + rest, indent);
      var first := Pretty(vs[0], margin, indent) + LineEnd(|vs| > 1, |w.stack|, indent);
      assert Emit(w, AllTokens(vs), rest, indent) == Emit(mid, others, rest, indent) by {
        EmitConcat(w, Tokens(vs[0]), others, rest, indent);
      }
      assert Laid(w, mid, first) by {
        ValueLaid(w, vs[0], others + rest, indent);
        MoreValues(vs[1..], rest);
      }
      ListLaid(mid, vs[1..], rest, indent);
      var more := PrettyList(vs[1..], margin, indent);
      LaidTwice(w, mid, Emit(mid, others, rest, indent), first, more + LastLine(more, |w.stack|, indent));
      OneMoreLine(vs, margin, indent, |w.stack|);
    }
  }

  lemma {:induction false} OneMoreLine(vs: seq<Json>, margin: string, indent: string, depth: nat)
    requires vs != [] && margin == Repeat(indent, depth)
    ensures var more, shown := PrettyList(vs[1..], margin, indent), PrettyList(vs, margin, indent);
            Pretty(vs[0], margin, indent) + LineEnd(|vs| > 1, depth, indent) + (more + LastLine(more, depth, indent)) ==
            shown + LastLine(shown, depth, indent)
  {
    PrettyFull(vs, margin, indent);
    PrettyFull(vs[1..], margin, indent);
    OneLine(Pretty(vs[0], margin, indent), PrettyList(vs[1..], margin, indent), |vs| > 1, margin, indent, depth);
  }

  /** A line, and the lines that follow it. */
  lemma {:induction false} OneLine(first: seq<Piece>, more: seq<Piece>, follows: bool, margin: string, indent: string,
                                   depth: nat)
    requires margin == Repeat(indent, depth) && (follows <==> more != [])
    ensures first + LineEnd(follows, depth, indent) + (more + LastLine(more, depth, indent)) ==
            first + Between(follows, margin) + more + LineEnd(false, depth, indent)
  {
    if follows {
      Associate(first + Between(true, margin), more, LineEnd(false, depth, indent));
    } else {
      assert more + LastLine(more, depth, indent) == [] && first + Between(false, margin) + more == first;
    }
  }

  /** The members of an object: one on a line, each behind its key. */
  lemma {:induction false} MembersLaid(w: Writer, ms: seq<Member>, rest: seq<Token>, indent: string)
    requires InObject(w) && w.idx % 2 == 0
    requires !More(rest)
    ensures var shown := PrettyMembers(ms, Margin(w, indent), indent);
            Laid(w, Emit(w, MemberTokens(ms), rest, indent), shown + LastLine(shown, |w.stack|, indent))
    decreases ms, 0
  {
    if ms != [] {
      var others, margin := MemberTokens(ms[1..]), Margin(w, indent);
      var atValue := AtFirstValue(w, ms, rest, indent);
      var mid := Emit(atValue, Tokens(ms[0].value), others + rest, indent);
      var key := [Lexeme(KeyColor, ms[0].key), Lexeme(DelimColor, ":"), Layout(" ")];
      var first := Pretty(ms[0].value, margin, indent) + LineEnd(|ms| > 1, |w.stack|, indent);
      MemberSplit(w, ms, rest, indent);
      KeyStep(w, ms, rest, indent);
      assert Laid(atValue, mid, first) by {
        MoreMembers(ms[1..], rest);
        ValueLaid(atValue, ms[0].value, others + rest, indent);
      }
      KeyLaid(w, atValue, mid, key, first);
      MembersLaid(mid, ms[1..], rest, indent);
      var more := PrettyMembers(ms[1..], margin, indent);
      LaidTwice(w, mid, Emit(mid, others, rest, indent), key + first, more + LastLine(more, |w.stack|, indent));
      OneMoreMember(ms, margin, indent, |w.stack|);
    }
  }

  lemma {:induction false} KeyLaid(w: Writer, atValue: Writer, mid: Writer, key: seq<Piece>, first: seq<Piece>)
    requires InObject(w) && atValue.stack == w.stack && atValue.out == w.out + key && Laid(atValue, mid, first)
    ensures Laid(w, mid, key + first)
  {
    Associate(w.out, key, first);
  }

  lemma {:induction false} OneMoreMember(ms: seq<Member>, margin: string, indent: string, depth: nat)
    requires ms != [] && margin == Repeat(indent, depth)
    ensures var more, shown := PrettyMembers(ms[1..], margin, indent), PrettyMembers(ms, margin, indent);
            var key := [Lexeme(KeyColor, ms[0].key), Lexeme(DelimColor, ":"), Layout(" ")];
            key + (Pretty(ms[0].value, margin, indent) + LineEnd(|ms| > 1, depth, indent)) +
            (more + LastLine(more, depth, indent)) ==
            shown + LastLine(shown, depth, indent)
  {
    var key := [Lexeme(KeyColor, ms[0].key), Lexeme(DelimColor, ":"), Layout(" ")];
    Associate(key, Pretty(ms[0].value, margin, indent), LineEnd(|ms| > 1, depth, indent));
    OneLine(key + Pretty(ms[0].value, margin, indent), PrettyMembers(ms[1..], margin, indent), |ms| > 1, margin, indent,
            depth);
  }

  /** The writer once the first member's key is written. */
  function AtFirstValue(w: Writer, ms: seq<Member>, rest: seq<Token>, indent: string): Writer
    requires ms != []
  {
    Step(w, Leaf(Atom(Text, ms[0].key)), More(Tokens(ms[0].value) + MemberTokens(ms[1..]) + rest), indent)
  }

  lemma {:induction false} KeyStep(w: Writer, ms: seq<Member>, rest: seq<Token>, indent: string)
    requires ms != [] && ExpectsKey(w)
    ensures var next := AtFirstValue(w, ms, rest, indent);
            !ExpectsKey(next) && InObject(next) && next.stack == w.stack &&
            next.out == w.out + [Lexeme(KeyColor, ms[0].key), Lexeme(DelimColor, ":"), Layout(" ")]
  {
  }

  lemma {:induction false} MemberSplit(w: Writer, ms: seq<Member>, rest: seq<Token>, indent: string)
    requires ms != []
    ensures var more := MemberTokens(ms[1..]);
            var mid := Emit(AtFirstValue(w, ms, rest, indent), Tokens(ms[0].value), more + rest, indent);
            Emit(w, MemberTokens(ms), rest, indent) == Emit(mid, more, rest, indent)
  {
    var key := Leaf(Atom(Text, ms[0].key));
    var value, more := Tokens(ms[0].value), MemberTokens(ms[1..]);
    EmitConcat(w, [key], value + more, rest, indent);
    assert [] + (value + more + rest) == value + more + rest;
    EmitConcat(Step(w, key, More(value + more + rest), indent), value, more, rest, indent);
  }

  // ---------------------------------------------------------------- the lexemes

  lemma {:induction false} LexemesOfPretty(v: Json, margin: string, indent: string)
    ensures Lexemes(Pretty(v, margin, indent)) == Expected(v)
    decreases v, 2
  {
    match v
    case Scalar(a) => LexemesOfLayout([Shade(a)], Layout(""));
    case List(es) =>
      var inner := margin + indent;
      LexemesOfList(es, inner, indent);
      LexemesInside(Punctuation("["), PrettyList(es, inner, indent), Punctuation("]"), inner, margin);
    case Object(ms) =>
      var inner := margin + indent;
      LexemesOfMembers(ms, inner, indent);
      LexemesInside(Punctuation("{"), PrettyMembers(ms, inner, indent), Punctuation("}"), inner, margin);
  }

  lemma {:induction false} LexemesInside(open: Piece, body: seq<Piece>, close: Piece, inner: string, margin: string)
    requires open.Lexeme? && close.Lexeme?
    ensures Lexemes([open, close]) == [open, close]
    ensures Lexemes([open, Layout("\n" + inner)] + body + [Layout("\n" + margin), close]) ==
            [open] + Lexemes(body) + [close]
  {
    LexemesOfLayout([open, close], Layout(""));
    LexemesOfLayout([open], Layout("\n" + inner));
    LexemesOfLayout([close], Layout(""));
    assert [open, Layout("\n" + inner)] == [open] + [Layout("\n" + inner)];
    assert [Layout("\n" + margin), close][1..] == [close];
    LexemesConcat([open, Layout("\n" + inner)], body);
    LexemesConcat([open, Layout("\n" + inner)] + body, [Layout("\n" + margin), close]);
  }

  lemma {:induction false} LexemesBetween(more: bool, margin: string)
    ensures Lexemes(Between(more, margin)) == Comma(more)
  {
    LexemesOfLayout([Punctuation(",")], Layout("\n" + margin));
    assert [Punctuation(",")] + [Layout("\n" + margin)] == Between(true, margin);
  }

  lemma {:induction false} LexemesOfList(vs: seq<Json>, margin: string, indent: string)
    ensures Lexemes(PrettyList(vs, margin, indent)) == ExpectedList(vs)
    decreases vs, 0
  {
    if vs != [] {
      LexemesOfPretty(vs[0], margin, indent);
      LexemesBetween(|vs| > 1, margin);
      LexemesOfList(vs[1..], margin, indent);
      LexemesConcat(Pretty(vs[0], margin, indent), Between(|vs| > 1, margin));
      LexemesConcat(Pretty(vs[0], margin, indent) + Between(|vs| > 1, margin), PrettyList(vs[1..], margin, indent));
    }
  }

  lemma {:induction false} LexemesOfMembers(ms: seq<Member>, margin: string, indent: string)
    ensures Lexemes(PrettyMembers(ms, margin, indent)) == ExpectedMembers(ms)
    decreases ms, 0
  {
    if ms != [] {
      var key := [Lexeme(KeyColor, ms[0].key), Lexeme(DelimColor, ":")];
      var value, sep := Pretty(ms[0].value, margin, indent), Between(|ms| > 1, margin);
      LexemesOfLayout(key, Layout(" "));
      assert key + [Layout(" ")] == [Lexeme(KeyColor, ms[0].key), Lexeme(DelimColor, ":"), Layout(" ")];
      LexemesOfPretty(ms[0].value, margin, indent);
      LexemesBetween(|ms| > 1, margin);
      LexemesOfMembers(ms[1..], margin, indent);
      LexemesConcat(key + [Layout(" ")], value);
      LexemesConcat(key + [Layout(" ")] + value, sep);
      LexemesConcat(key + [Layout(" ")] + value + sep, PrettyMembers(ms[1..], margin, indent));
      MembersSplit(ms);
    }
  }

  lemma {:induction false} LaidIsWrote(a: Writer, b: Writer, shown: seq<Piece>, end: seq<Piece>)
    requires Laid(a, b, shown + end)
    ensures Wrote(a, b, Lexemes(shown) + Lexemes(end))
  {
    LexemesConcat(shown, end);
    LexemesConcat(a.out, shown + end);
  }

  lemma {:induction false} LexemesOfEnd(more: bool, depth: nat, indent: string)
    ensures Lexemes(LineEnd(more, depth, indent)) == Comma(more)
  {
    LexemesBetween(more, Repeat(indent, depth));
  }

  /** A value's tokens write exactly its lexemes, unless the value is a bare scalar that stands where a key is due. */
  lemma {:induction false} ValueShown(w: Writer, v: Json, rest: seq<Token>, indent: string)
    requires ExpectsKey(w) ==> !v.Scalar?
    ensures Wrote(w, Emit(w, Tokens(v), rest, indent), Expected(v) + Comma(More(rest)))
  {
    ValueLaid(w, v, rest, indent);
    LaidIsWrote(w, Emit(w, Tokens(v), rest, indent), Pretty(v, Margin(w, indent), indent),
                LineEnd(More(rest), |w.stack|, indent));
    LexemesOfPretty(v, Margin(w, indent), indent);
    LexemesOfEnd(More(rest), |w.stack|, indent);
  }

  /** The elements of an array, or of a stream: one after the other with commas in between. */
  lemma {:induction false} ListShown(w: Writer, vs: seq<Json>, rest: seq<Token>, indent: string)
    requires InObject(w) ==> w.idx % 2 == 0 && NoScalars(vs)
    requires !More(rest)
    ensures Wrote(w, Emit(w, AllTokens(vs), rest, indent), ExpectedList(vs))
  {
    var shown := PrettyList(vs, Margin(w, indent), indent);
    ListLaid(w, vs, rest, indent);
    LaidIsWrote(w, Emit(w, AllTokens(vs), rest, indent), shown, LastLine(shown, |w.stack|, indent));
    LexemesOfList(vs, Margin(w, indent), indent);
    LexemesOfEnd(false, |w.stack|, indent);
    assert ExpectedList(vs) + [] == ExpectedList(vs);
  }

  /** The members of an object: the key colour and the colon at every key, and nowhere else. */
  lemma {:induction false} MembersShown(w: Writer, ms: seq<Member>, rest: seq<Token>, indent: string)
    requires InObject(w) && w.idx % 2 == 0
    requires !More(rest)
    ensures Wrote(w, Emit(w, MemberTokens(ms), rest, indent), ExpectedMembers(ms))
  {
    var shown := PrettyMembers(ms, Margin(w, indent), indent);
    MembersLaid(w, ms, rest, indent);
    LaidIsWrote(w, Emit(w, MemberTokens(ms), rest, indent), shown, LastLine(shown, |w.stack|, indent));
    LexemesOfMembers(ms, Margin(w, indent), indent);
    LexemesOfEnd(false, |w.stack|, indent);
    assert ExpectedMembers(ms) + [] == ExpectedMembers(ms);
  }

  // ---------------------------------------------------------------- a whole stream

  lemma {:induction false} OnlyAppends(w: Writer, ts: seq<Token>, rest: seq<Token>, indent: string)
    ensures Lexemes(w.out) <= Lexemes(Emit(w, ts, rest, indent).out)
    decreases |ts|
  {
    if ts == [] {
    } else {
      LexemesOfStep(w, ts[0], More(ts[1..] + rest), indent);
      OnlyAppends(Step(w, ts[0], More(ts[1..] + rest), indent), ts[1..], rest, indent);
    }
  }

  /** A bare scalar that stands where a key is due is shown in the key colour. */
  lemma {:induction false} ScalarTakenForKey(w: Writer, vs: seq<Json>, indent: string)
    requires InObject(w) && w.idx % 2 == 0 && !NoScalars(vs)
    ensures Lexemes(Emit(w, AllTokens(vs), [], indent).out) != Lexemes(w.out) + ExpectedList(vs)
    decreases |vs|
  {
    var others := AllTokens(vs[1..]);
    var mid := Emit(w, Tokens(vs[0]), others, indent);
    assert Emit(w, AllTokens(vs), [], indent) == Emit(mid, others, [], indent) by {
      EmitConcat(w, Tokens(vs[0]), others, [], indent);
      assert others + [] == others;
    }
    if vs[0].Scalar? {
      FirstTakenForKey(w, vs, indent);
    } else {
      ValueShown(w, vs[0], others, indent);
      assert More(others) == (|vs| > 1) by {
        MoreValues(vs[1..], []);
        assert others + [] == others;
      }
      ScalarTakenForKey(mid, vs[1..], indent);
      FirstShown(w, mid, vs);
    }
  }

  lemma {:induction false} FirstShown(w: Writer, mid: Writer, vs: seq<Json>)
    requires vs != [] && Wrote(w, mid, Expected(vs[0]) + Comma(|vs| > 1))
    ensures Lexemes(mid.out) + ExpectedList(vs[1..]) == Lexemes(w.out) + ExpectedList(vs)
  {
    ListSplit(vs);
    Associate(Lexemes(w.out), Expected(vs[0]) + Comma(|vs| > 1), ExpectedList(vs[1..]));
  }

  lemma {:induction false} ListSplit(vs: seq<Json>)
    requires vs != []
    ensures ExpectedList(vs) == Expected(vs[0]) + Comma(|vs| > 1) + ExpectedList(vs[1..])
  {
  }

  lemma {:induction false} FirstTakenForKey(w: Writer, vs: seq<Json>, indent: string)
    requires ExpectsKey(w) && vs != [] && vs[0].Scalar?
    ensures Lexemes(Emit(w, AllTokens(vs), [], indent).out) != Lexemes(w.out) + ExpectedList(vs)
  {
    var n, others := |Lexemes(w.out)|, AllTokens(vs[1..]);
    FirstEmitted(w, vs, indent);
    FirstWritten(w, vs[0].atom, More(others), indent);
    OnlyAppends(Step(w, Leaf(vs[0].atom), More(others), indent), others, [], indent);
    FirstExpected(Lexemes(w.out), vs);
  }

  lemma FirstEmitted(w: Writer, vs: seq<Json>, indent: string)
    requires vs != [] && vs[0].Scalar?
    ensures var others := AllTokens(vs[1..]);
            Emit(w, AllTokens(vs), [], indent) ==
              Emit(Step(w, Leaf(vs[0].atom), More(others), indent), others, [], indent)
  {
    var first, others := [Leaf(vs[0].atom)], AllTokens(vs[1..]);
    assert AllTokens(vs) == first + others && (first + others)[1..] == others == others + [];
  }

  lemma FirstWritten(w: Writer, a: Atom, more: bool, indent: string)
    requires ExpectsKey(w)
    ensures var out := Lexemes(Step(w, Leaf(a), more, indent).out);
            |out| > |Lexemes(w.out)| && out[|Lexemes(w.out)|] == Lexeme(KeyColor, a.text)
  {
    LexemesOfStep(w, Leaf(a), more, indent);
  }

  lemma FirstExpected(front: seq<Piece>, vs: seq<Json>)
    requires vs != [] && vs[0].Scalar?
    ensures |front + ExpectedList(vs)| > |front|
    ensures (front + ExpectedList(vs))[|front|] == Lexeme(ColorOf(vs[0].atom.kind), vs[0].atom.text)
  {
    ListSplit(vs);
  }

  /** For a stream of values, the coloured output without its layout is the values' own tokens, separated by commas,
      with the key colour and the colon at the keys and nowhere else. This holds exactly when no bare scalar follows
      a preface that ends inside an object. */
  lemma {:induction false} StreamShown(preface: seq<Delim>, vs: seq<Json>, indent: string)
    ensures var n := Emit(Writer(preface, 0, []), AllTokens(vs), [], indent);
            Lexemes(n.out) == ExpectedList(vs) <==> (InObject(Writer(preface, 0, [])) ==> NoScalars(vs))
    ensures (InObject(Writer(preface, 0, [])) ==> NoScalars(vs)) ==>
              Emit(Writer(preface, 0, []), AllTokens(vs), [], indent).stack == preface
  {
    var w := Writer(preface, 0, []);
    assert Lexemes(w.out) + ExpectedList(vs) == ExpectedList(vs);
    if InObject(w) && !NoScalars(vs) {
      ScalarTakenForKey(w, vs, indent);
    } else {
      ListShown(w, vs, [], indent);
    }
  }

  /** A stream as it should be printed, behind `depth` levels that are open already. */
  function PrettyStream(vs: seq<Json>, depth: nat, indent: string): seq<Piece> {
    if vs == [] then []
    else
      PrettyList(vs, Repeat(indent, depth), indent) +
      [Layout(if depth == 0 then "\n" else "\n" + Repeat(indent, depth - 1))]
  }

  /** With its layout the output is the pretty form of the stream, under exactly the same condition. */
  lemma {:induction false} StreamLaid(preface: seq<Delim>, vs: seq<Json>, indent: string)
    ensures Emit(Writer(preface, 0, []), AllTokens(vs), [], indent).out == PrettyStream(vs, |preface|, indent) <==>
            (InObject(Writer(preface, 0, [])) ==> NoScalars(vs))
  {
    var w, margin := Writer(preface, 0, []), Repeat(indent, |preface|);
    StreamShown(preface, vs, indent);
    if InObject(w) ==> NoScalars(vs) {
      ListLaid(w, vs, [], indent);
      PrettyFull(vs, margin, indent);
      var shown := PrettyList(vs, margin, indent);
      assert PrettyStream(vs, |preface|, indent) == shown + LastLine(shown, |preface|, indent);
      assert w.out + PrettyStream(vs, |preface|, indent) == PrettyStream(vs, |preface|, indent);
    } else {
      LexemesOfStream(vs, |preface|, indent);
    }
  }

  lemma {:induction false} LexemesOfStream(vs: seq<Json>, depth: nat, indent: string)
    ensures Lexemes(PrettyStream(vs, depth, indent)) == ExpectedList(vs)
  {
    if vs != [] {
      var end := [Layout(if depth == 0 then "\n" else "\n" + Repeat(indent, depth - 1))];
      LexemesConcat(PrettyList(vs, Repeat(indent, depth), indent), end);
      LexemesOfList(vs, Repeat(indent, depth), indent);
      assert Lexemes(end) == [];
    }
  }

  // ---------------------------------------------------------------- the text alone

  /** The value as one line of JSON without white space. */
  function Compact(v: Json): string
    decreases v, 1
  {
    match v
    case Scalar(a) => a.text
    case List(es) => "[" + Join(CompactAll(es), ",") + "]"
    case Object(ms) => "{" + Join(CompactMembers(ms), ",") + "}"
  }

  function CompactAll(vs: seq<Json>): (r: seq<string>)
    ensures |r| == |vs|
    decreases vs, 0
  {
    if vs == [] then [] else [Compact(vs[0])] + CompactAll(vs[1..])
  }

  function CompactMembers(ms: seq<Member>): (r: seq<string>)
    ensures |r| == |ms|
    decreases ms, 0
  {
    if ms == [] then [] else [ms[0].key + ":" + Compact(ms[0].value)] + CompactMembers(ms[1..])
  }

  function TextOf(pieces: seq<Piece>): string {
    if pieces == [] then ""
    else (if pieces[0].Lexeme? then pieces[0].text else "") + TextOf(pieces[1..])
  }

  lemma {:induction false} TextConcat(a: seq<Piece>, b: seq<Piece>)
    ensures TextOf(a + b) == TextOf(a) + TextOf(b)
  {
    if a == [] {
      assert a + b == b;
    } else {
      assert (a + b)[0] == a[0] && (a + b)[1..] == a[1..] + b;
      TextConcat(a[1..], b);
      Associate(if a[0].Lexeme? then a[0].text else "", TextOf(a[1..]), TextOf(b));
    }
  }

  /** Without the colours, the expected lexemes of a value are its compact text. */
  lemma {:induction false} TextOfValue(v: Json)
    ensures TextOf(Expected(v)) == Compact(v)
    decreases v, 1
  {
    match v
    case Scalar(a) =>
    case List(es) =>
      TextOfList(es);
      TextConcat([Punctuation("[")], ExpectedList(es));
      TextConcat([Punctuation("[")] + ExpectedList(es), [Punctuation("]")]);
    case Object(ms) =>
      TextOfMembers(ms);
      TextConcat([Punctuation("{")], ExpectedMembers(ms));
      TextConcat([Punctuation("{")] + ExpectedMembers(ms), [Punctuation("}")]);
  }

  lemma {:induction false} TextOfList(vs: seq<Json>)
    ensures TextOf(ExpectedList(vs)) == Join(CompactAll(vs), ",")
    decreases vs, 0
  {
    if vs == [] {
    } else {
      var first, others := Expected(vs[0]), ExpectedList(vs[1..]);
      TextOfValue(vs[0]);
      TextOfList(vs[1..]);
      ListSplit(vs);
      TextJoined(first, |vs| > 1, others);
      CompactSplit(vs);
    }
  }

  lemma {:induction false} CompactSplit(vs: seq<Json>)
    requires vs != []
    ensures Join(CompactAll(vs), ",") ==
            if |vs| == 1 then Compact(vs[0]) else Compact(vs[0]) + "," + Join(CompactAll(vs[1..]), ",")
  {
    assert CompactAll(vs)[1..] == CompactAll(vs[1..]);
  }

  lemma {:induction false} TextOfKey(key: string, value: seq<Piece>)
    ensures TextOf([Lexeme(KeyColor, key), Punctuation(":")] + value) == key + ":" + TextOf(value)
  {
    var shown := [Lexeme(KeyColor, key), Punctuation(":")];
    assert TextOf(shown) == key + ":" by {
      assert shown == [Lexeme(KeyColor, key)] + [Punctuation(":")];
      TextConcat([Lexeme(KeyColor, key)], [Punctuation(":")]);
    }
    TextConcat(shown, value);
  }

  lemma {:induction false} TextOfMembers(ms: seq<Member>)
    ensures TextOf(ExpectedMembers(ms)) == Join(CompactMembers(ms), ",")
    decreases ms, 0
  {
    if ms == [] {
    } else {
      var first := [Lexeme(KeyColor, ms[0].key), Punctuation(":")] + Expected(ms[0].value);
      assert TextOf(first) == ms[0].key + ":" + Compact(ms[0].value) by {
        TextOfKey(ms[0].key, Expected(ms[0].value));
        TextOfValue(ms[0].value);
      }
      TextOfMembers(ms[1..]);
      MembersSplit(ms);
      TextJoined(first, |ms| > 1, ExpectedMembers(ms[1..]));
      CompactMembersSplit(ms);
    }
  }

  lemma {:induction false} MembersSplit(ms: seq<Member>)
    requires ms != []
    ensures ExpectedMembers(ms) ==
            [Lexeme(KeyColor, ms[0].key), Punctuation(":")] + Expected(ms[0].value) + Comma(|ms| > 1) +
            ExpectedMembers(ms[1..])
  {
  }

  lemma {:induction false} CompactMembersSplit(ms: seq<Member>)
    requires ms != []
    ensures var first := ms[0].key + ":" + Compact(ms[0].value);
            Join(CompactMembers(ms), ",") ==
            if |ms| == 1 then first else first + "," + Join(CompactMembers(ms[1..]), ",")
  {
    assert CompactMembers(ms)[1..] == CompactMembers(ms[1..]);
  }

  /** The text of pieces, of a comma if more follows, and of what follows. */
  lemma TextJoined(first: seq<Piece>, more: bool, others: seq<Piece>)
    ensures TextOf(first + Comma(more) + others) == TextOf(first) + (if more then "," else "") + TextOf(others)
  {
    TextConcat(first, Comma(more));
    TextConcat(first + Comma(more), others);
  }

  lemma {:induction false} LayoutHasNoText(out: seq<Piece>)
    ensures TextOf(Lexemes(out)) == TextOf(out)
  {
    if out == [] {
    } else {
      LayoutHasNoText(out[1..]);
      TextConcat(if out[0].Lexeme? then [out[0]] else [], Lexemes(out[1..]));
    }
  }

  /** Colours and layout removed, the output of a stream is the values' compact texts with commas in between. */
  lemma {:induction false} StreamText(preface: seq<Delim>, vs: seq<Json>, indent: string)
    requires InObject(Writer(preface, 0, [])) ==> NoScalars(vs)
    ensures TextOf(Emit(Writer(preface, 0, []), AllTokens(vs), [], indent).out) == Join(CompactAll(vs), ",")
  {
    StreamShown(preface, vs, indent);
    LayoutHasNoText(Emit(Writer(preface, 0, []), AllTokens(vs), [], indent).out);
    TextOfList(vs);
  }

  // ---------------------------------------------------------------- the loop

  /** No token closes a delimiter that these tokens did not open, `depth` being open at the start. */
  predicate NeverUnderflows(ts: seq<Token>, depth: nat)
    decreases |ts|
  {
    ts == [] ||
    match ts[0]
    case Open(_) => NeverUnderflows(ts[1..], depth + 1)
    case Close(_) => depth > 0 && NeverUnderflows(ts[1..], depth - 1)
    case Leaf(_) => NeverUnderflows(ts[1..], depth)
  }

  lemma {:induction false} NestAfter(t: Token, ts: seq<Token>, depth: nat)
    requires match t
             case Open(_) => NeverUnderflows(ts, depth + 1)
             case Close(_) => depth > 0 && NeverUnderflows(ts, depth - 1)
             case Leaf(_) => NeverUnderflows(ts, depth)
    ensures NeverUnderflows([t] + ts, depth)
  {
    assert ([t] + ts)[1..] == ts;
  }

  lemma {:induction false} ValuesNest(vs: seq<Json>, rest: seq<Token>, depth: nat)
    requires NeverUnderflows(rest, depth)
    ensures NeverUnderflows(AllTokens(vs) + rest, depth)
    decreases vs, 0
  {
    if vs == [] {
      assert AllTokens(vs) + rest == rest;
    } else {
      ValuesNest(vs[1..], rest, depth);
      ValueNests(vs[0], AllTokens(vs[1..]) + rest, depth);
      Associate(Tokens(vs[0]), AllTokens(vs[1..]), rest);
    }
  }

  lemma {:induction false} MembersNest(ms: seq<Member>, rest: seq<Token>, depth: nat)
    requires NeverUnderflows(rest, depth)
    ensures NeverUnderflows(MemberTokens(ms) + rest, depth)
    decreases ms, 0
  {
    if ms == [] {
      assert MemberTokens(ms) + rest == rest;
    } else {
      var key, value, more := Leaf(Atom(Text, ms[0].key)), Tokens(ms[0].value), MemberTokens(ms[1..]);
      MembersNest(ms[1..], rest, depth);
      ValueNests(ms[0].value, more + rest, depth);
      NestAfter(key, value + (more + rest), depth);
      Associate(value, more, rest);
      Associate([key], value + more, rest);
    }
  }

  lemma {:induction false} BracketsNest(open: Delim, body: seq<Token>, close: Delim, rest: seq<Token>, depth: nat)
    requires NeverUnderflows(body + ([Close(close)] + rest), depth + 1)
    ensures NeverUnderflows([Open(open)] + body + [Close(close)] + rest, depth)
  {
    NestAfter(Open(open), body + ([Close(close)] + rest), depth);
    Associate([Open(open)] + body, [Close(close)], rest);
    Associate([Open(open)], body, [Close(close)] + rest);
  }

  lemma {:induction false} ValueNests(v: Json, rest: seq<Token>, depth: nat)
    requires NeverUnderflows(rest, depth)
    ensures NeverUnderflows(Tokens(v) + rest, depth)
    decreases v, 1
  {
    match v
    case Scalar(a) =>
      NestAfter(Leaf(a), rest, depth);
    case List(es) =>
      NestAfter(Close(RightBracket), rest, depth + 1);
      ValuesNest(es, [Close(RightBracket)] + rest, depth + 1);
      BracketsNest(LeftBracket, AllTokens(es), RightBracket, rest, depth);
    case Object(ms) =>
      NestAfter(Close(RightBrace), rest, depth + 1);
      MembersNest(ms, [Close(RightBrace)] + rest, depth + 1);
      BracketsNest(LeftBrace, MemberTokens(ms), RightBrace, rest, depth);
  }

  /** One turn of the loop. A turn that pops finds a delimiter to pop. */
  method WriteToken(stack: seq<Delim>, idx: nat, out: seq<Piece>, t: Token, more: bool, indent: string)
    returns (stack': seq<Delim>, idx': nat, out': seq<Piece>)
    requires t.Close? ==> stack != []
    ensures Writer(stack', idx', out') == Step(Writer(stack, idx, out), t, more, indent)
  {
    stack', idx', out' := stack, idx, out;
    match t {
      case Open(d) =>
        stack' := stack + [d];
        idx' := 0;
        out' := out + [Punctuation(Spelling(d))];
        if more {
          out' := out' + [Layout("\n" + Repeat(indent, |stack'|))];
        }
        return;
      case Close(d) =>
        stack' := stack[..|stack| - 1];
        idx' := 0;
        out' := out + [Punctuation(Spelling(d))];
      case Leaf(a) =>
        var isKey := |stack| > 0 && stack[|stack| - 1] == LeftBrace && idx % 2 == 0;
        idx' := idx + 1;
        out' := out + [Lexeme(if isKey then KeyColor else ColorOf(a.kind), a.text)];
        if isKey {
          out' := out' + [Punctuation(":"), Layout(" ")];
          return;
        }
    }
    if more {
      out' := out' + [Punctuation(","), Layout("\n" + Repeat(indent, |stack'|))];
    } else if |stack'| > 0 {
      out' := out' + [Layout("\n" + Repeat(indent, |stack'| - 1))];
    } else {
      out' := out' + [Layout("\n")];
    }
  }

  /** The loop has come to `w` with `ts` still to read, all of which can be read without popping below the preface. */
  ghost predicate Underway(first: Writer, tokens: seq<Token>, w: Writer, ts: seq<Token>, indent: string) {
    && |first.stack| <= |w.stack|
    && NeverUnderflows(ts, |w.stack| - |first.stack|)
    && Emit(first, tokens, [], indent) == Emit(w, ts, [], indent)
  }

  lemma {:induction false} UnderwayStep(first: Writer, tokens: seq<Token>, w: Writer, ts: seq<Token>, indent: string)
    requires Underway(first, tokens, w, ts, indent) && ts != []
    ensures ts[0].Close? ==> |w.stack| > |first.stack|
    ensures Underway(first, tokens, Step(w, ts[0], More(ts[1..]), indent), ts[1..], indent)
  {
    assert ts[1..] + [] == ts[1..];
  }

  /** The token loop. It pops no delimiter that it did not push, and leaves the stack as the preface. */
  method Write(tokens: seq<Token>, ghost vs: seq<Json>, preface: seq<Delim>, indent: string)
    returns (out: seq<Piece>, stack: seq<Delim>)
    requires tokens == AllTokens(vs)
    ensures out == Emit(Writer(preface, 0, []), tokens, [], indent).out
    ensures out == PrettyStream(vs, |preface|, indent) <==> (InObject(Writer(preface, 0, [])) ==> NoScalars(vs))
    ensures Lexemes(out) == ExpectedList(vs) <==> (InObject(Writer(preface, 0, [])) ==> NoScalars(vs))
    ensures (InObject(Writer(preface, 0, [])) ==> NoScalars(vs)) ==>
              stack == preface && TextOf(out) == Join(CompactAll(vs), ",")
  {
    out, stack := [], preface;
    var idx: nat := 0;
    var i := 0;
    ghost var first := Writer(preface, 0, []);
    ValuesNest(vs, [], 0);
    assert AllTokens(vs) + [] == tokens == tokens[0..];
    while i < |tokens|
      invariant 0 <= i <= |tokens|
      invariant Underway(first, tokens, Writer(stack, idx, out), tokens[i..], indent)
    {
      UnderwayStep(first, tokens, Writer(stack, idx, out), tokens[i..], indent);
      assert tokens[i..][1..] == tokens[i + 1..];
      stack, idx, out := WriteToken(stack, idx, out, tokens[i], More(tokens[i + 1..]), indent);
      i := i + 1;
    }
    StreamShown(preface, vs, indent);
    StreamLaid(preface, vs, indent);
    if InObject(first) ==> NoScalars(vs) {
      StreamText(preface, vs, indent);
    }
  }
}

/** Laying out a list of values over lines of limited length. */
module FormatSlice {
  import opened Strings
  import opened Sorting

  const MAX_INT: int := 0x7fff_ffff_ffff_ffff

  /** A 64-bit unsigned number, and its conversion to a signed one. */
  type uint = n: int | 0 <= n <= 2 * MAX_INT + 1

  function AsInt(n: uint): int {
    if n <= MAX_INT then n else n - 2 * (MAX_INT + 1)
  }

  function Spaces(n: nat): string {
    seq(n, i => ' ')
  }

  /** The values as they appear: wrapped, and followed by a comma unless last. */
  function Pieces(values: seq<string>, before: string, after: string): (r: seq<string>)
    ensures |r| == |values|
    ensures forall i :: 0 <= i < |r| ==> r[i] == before + values[i] + after + if i < |r| - 1 then "," else ""
  {
    seq(|values|, i requires 0 <= i < |values| =>
      before + values[i] + after + if i < |values| - 1 then "," else "")
  }

  function Flatten(lines: seq<seq<string>>): seq<string> {
    if lines == [] then [] else Flatten(lines[..|lines| - 1]) + lines[|lines| - 1]
  }

  function Width(line: seq<string>): nat {
    |Join(line, " ")|
  }

  /** The first piece of line `i` would not have fitted on the line before. */
  predicate Full(lines: seq<seq<string>>, i: nat, limit: int)
    requires 0 < i < |lines|
  {
    lines[i - 1] != [] && lines[i] != [] && Width(lines[i - 1] + [lines[i][0]]) > limit
  }

  /** The lines hold the pieces in order, each once. A line of several pieces keeps to the limit, and a line ends only
      where the next piece would exceed it. */
  predicate Layout(lines: seq<seq<string>>, pieces: seq<string>, limit: int) {
    && Flatten(lines) == pieces
    && (forall i :: 0 <= i < |lines| ==> lines[i] != [])
    && (forall i :: 0 <= i < |lines| && |lines[i]| > 1 ==> Width(lines[i]) <= limit)
    && (forall i :: 0 < i < |lines| ==> Full(lines, i, limit))
  }

  function Indented(lines: seq<seq<string>>, pre: string): (r: seq<string>)
    ensures |r| == |lines| && forall i :: 0 <= i < |r| ==> r[i] == pre + Join(lines[i], " ")
  {
    seq(|lines|, i requires 0 <= i < |lines| => pre + Join(lines[i], " "))
  }

  /** The text shows the pieces over the lines of a layout. */
  ghost predicate LaidOut(text: string, pieces: seq<string>, limit: int, pre: string) {
    exists lines :: Layout(lines, pieces, limit) && text == Join(Indented(lines, pre), "\n")
  }

  lemma {:induction false} JoinExtend(parts: seq<string>, separator: string, extra: string)
    requires parts != []
    ensures var n := |parts| - 1; Join(parts[n := parts[n] + extra], separator) == Join(parts, separator) + extra
  {
    var n := |parts| - 1;
    var longer := parts[n := parts[n] + extra];
    if n > 0 {
      JoinExtend(parts[1..], separator, extra);
      assert longer[1..] == parts[1..][n - 1 := parts[1..][n - 1] + extra];
      assert parts[0] + separator + (Join(parts[1..], separator) + extra) ==
             parts[0] + separator + Join(parts[1..], separator) + extra;
    }
  }

  lemma ShownOnNewLine(lines: seq<seq<string>>, piece: string, pre: string)
    ensures Join(Indented(lines + [[piece]], pre), "\n") ==
            Join(Indented(lines, pre), "\n") + (if lines == [] then "" else "\n") + pre + piece
  {
    var shown := Indented(lines, pre);
    assert Indented(lines + [[piece]], pre) == shown + [pre + piece];
    if lines == [] {
      assert Join([pre + piece], "\n") == pre + piece && Join(shown, "\n") == "";
    } else {
      JoinSnoc(shown, "\n", pre + piece);
      Associate(Join(shown, "\n") + "\n", pre, piece);
    }
  }

  /** The lines with one more piece, on a line of its own. */
  lemma OnNewLine(lines: seq<seq<string>>, pieces: seq<string>, piece: string, limit: int)
    requires Layout(lines, pieces, limit)
    requires lines != [] ==> Width(lines[|lines| - 1] + [piece]) > limit
    ensures Layout(lines + [[piece]], pieces + [piece], limit)
    ensures (lines + [[piece]])[|lines|] == [piece] && Width([piece]) == |piece|
  {
    var more := lines + [[piece]];
    assert more[..|lines|] == lines;
    forall i | 0 < i < |more| ensures Full(more, i, limit) {
      assert i < |lines| ==> Full(lines, i, limit);
    }
  }

  /** The lines with one more piece at the end of the last. */
  lemma OnSameLine(lines: seq<seq<string>>, pieces: seq<string>, piece: string, limit: int, pre: string)
    requires Layout(lines, pieces, limit) && lines != []
    requires Width(lines[|lines| - 1] + [piece]) <= limit
    ensures var n := |lines| - 1;
            var more := lines[n := lines[n] + [piece]];
            Layout(more, pieces + [piece], limit) &&
            Join(Indented(more, pre), "\n") == Join(Indented(lines, pre), "\n") + (" " + piece)
  {
    var n := |lines| - 1;
    var more := lines[n := lines[n] + [piece]];
    assert more[..n] == lines[..n];
    assert Flatten(lines[..n]) + (lines[n] + [piece]) == Flatten(lines[..n]) + lines[n] + [piece];
    JoinSnoc(lines[n], " ", piece);
    assert pre + (Join(lines[n], " ") + " " + piece) == pre + Join(lines[n], " ") + (" " + piece);
    assert Indented(more, pre) == Indented(lines, pre)[n := Indented(lines, pre)[n] + (" " + piece)];
    JoinExtend(Indented(lines, pre), "\n", " " + piece);
    forall i | 0 < i < |more| ensures Full(more, i, limit) {
      assert Full(lines, i, limit);
    }
  }

  /** The loop has placed `i` pieces. A current length of zero means that a new line is due. */
  predicate Underway(lines: seq<seq<string>>, pieces: seq<string>, i: nat, current: int, limit: int, pre: string,
                     text: string)
  {
    && i <= |pieces|
    && Layout(lines, pieces[..i], limit)
    && (lines == [] <==> i == 0) && current >= 0 && (i == 0 ==> current == 0)
    && (current > 0 ==> current == Width(lines[|lines| - 1]))
    && (current == 0 && 0 < i < |pieces| ==> Width(lines[|lines| - 1] + [pieces[i]]) > limit)
    && text == Join(Indented(lines, pre), "\n") + if current == 0 && 0 < i < |pieces| then "\n" else ""
  }

  lemma Appended(text: string, v: string, isLast: bool)
    ensures (if isLast then text + v else text + v + ",") == text + (v + if isLast then "" else ",")
  {
  }

  lemma PlacedFirst(lines: seq<seq<string>>, pieces: seq<string>, i: nat, limit: int, pre: string,
                    text: string, v: string, isLast: bool)
    returns (more: seq<seq<string>>)
    requires Underway(lines, pieces, i, 0, limit, pre, text) && i < |pieces| && isLast == (i + 1 == |pieces|)
    requires pieces[i] == v + if isLast then "" else ","
    ensures Underway(more, pieces, i + 1, |pieces[i]|, limit, pre,
                     if isLast then text + pre + v else text + pre + v + ",")
  {
    more := lines + [[pieces[i]]];
    assert pieces[..i + 1] == pieces[..i] + [pieces[i]];
    assert Layout(more, pieces[..i + 1], limit) && Width(more[|lines|]) == |pieces[i]| by {
      OnNewLine(lines, pieces[..i], pieces[i], limit);
    }
    assert (if isLast then text + pre + v else text + pre + v + ",") == Join(Indented(more, pre), "\n") by {
      ShownOnNewLine(lines, pieces[i], pre);
      Appended(text + pre, v, isLast);
    }
  }

  lemma PlacedNext(lines: seq<seq<string>>, pieces: seq<string>, i: nat, current: int, limit: int,
                   pre: string, text: string, v: string, isLast: bool)
    returns (more: seq<seq<string>>)
    requires Underway(lines, pieces, i, current, limit, pre, text) && i < |pieces| && isLast == (i + 1 == |pieces|)
    requires pieces[i] == v + if isLast then "" else ","
    requires 0 < current && current + 1 + |pieces[i]| <= limit
    ensures Underway(more, pieces, i + 1, current + 1 + |pieces[i]|, limit, pre,
                     if isLast then text + " " + v else text + " " + v + ",")
  {
    var n := |lines| - 1;
    more := lines[n := lines[n] + [pieces[i]]];
    assert pieces[..i + 1] == pieces[..i] + [pieces[i]];
    JoinSnoc(lines[|lines| - 1], " ", pieces[i]);
    OnSameLine(lines, pieces[..i], pieces[i], limit, pre);
    Appended(text + " ", v, isLast);
    Associate(text, " ", pieces[i]);
  }

  lemma Broke(lines: seq<seq<string>>, pieces: seq<string>, i: nat, current: int, limit: int,
                   pre: string, text: string)
    requires Underway(lines, pieces, i, current, limit, pre, text) && i < |pieces|
    requires 0 < current && current + 1 + |pieces[i]| > limit
    ensures Underway(lines, pieces, i, 0, limit, pre, text + "\n")
  {
    JoinSnoc(lines[|lines| - 1], " ", pieces[i]);
  }

  lemma Finished(lines: seq<seq<string>>, pieces: seq<string>, current: int, limit: int, pre: string, text: string)
    requires Underway(lines, pieces, |pieces|, current, limit, pre, text)
    ensures LaidOut(text, pieces, limit, pre)
  {
    assert pieces[..|pieces|] == pieces;
  }

  /** Writes the values over as few lines as the limit allows. The list itself is not touched, sorted or not; a single
      value is not wrapped. */
  method Format(values: array<string>, lineLength: uint, indent: nat, before: string, after: string, sort: bool)
    returns (text: string)
    requires indent <= MAX_INT
    ensures var shown := if sort then Sort(values[..]) else values[..];
            var limit := if lineLength == 0 then MAX_INT else AsInt(lineLength);
            if |shown| == 0 then text == Spaces(indent)
            else if |shown| == 1 then text == Spaces(indent) + shown[0]
            else LaidOut(text, Pieces(shown, before, after), limit, Spaces(indent))
  {
    var length := if lineLength <= 0 then MAX_INT else lineLength;
    var shown := values[..];
    if sort {
      shown := Sort(shown);
    }
    var pre := Spaces(indent);
    if |shown| == 0 {
      return pre;
    } else if |shown| == 1 {
      return pre + shown[0];
    }
    text := FormatLines(shown, AsInt(length), pre, before, after);
  }

  /** The value, and the comma that follows all but the last. */
  method WriteValue(text: string, length: int, v: string, isLast: bool) returns (text': string, length': int)
    ensures text' == (if isLast then text + v else text + v + ",")
    ensures length' == length + |v + if isLast then "" else ","|
  {
    var sep := ",";
    text', length' := text + v, length + |v|;
    if !isLast {
      text', length' := text' + sep, length' + |sep|;
    }
  }

  /** One pass of the loop: it places the value, or breaks the line for another pass over the same value. */
  method Pass(text: string, current: int, v: string, isLast: bool, limit: int, pre: string,
              ghost lines: seq<seq<string>>, ghost pieces: seq<string>, ghost i: nat)
    returns (placed: bool, text': string, current': int, ghost lines': seq<seq<string>>)
    requires Underway(lines, pieces, i, current, limit, pre, text) && i < |pieces| && isLast == (i + 1 == |pieces|)
    requires pieces[i] == v + if isLast then "" else ","
    ensures Underway(lines', pieces, if placed then i + 1 else i, current', limit, pre, text')
    ensures !placed ==> current' < current
  {
    var sep, ws := ",", " ";
    if current == 0 {
      text', current' := WriteValue(text + pre, current, v, isLast);
      lines' := PlacedFirst(lines, pieces, i, limit, pre, text, v, isLast);
    } else {
      if (!isLast && current + |ws| + |v| + |sep| > limit) || (isLast && current + |ws| + |v| > limit) {
        Broke(lines, pieces, i, current, limit, pre, text);
        return false, text + "\n", 0, lines;
      }
      text', current' := WriteValue(text + ws, current + |ws|, v, isLast);
      lines' := PlacedNext(lines, pieces, i, current, limit, pre, text, v, isLast);
    }
    placed := true;
  }

  method FormatLines(shown: seq<string>, limit: int, pre: string, before: string, after: string)
    returns (text: string)
    ensures LaidOut(text, Pieces(shown, before, after), limit, pre)
  {
    text := "";
    ghost var lines: seq<seq<string>> := [];
    ghost var pieces := Pieces(shown, before, after);
    var currentLineLength := 0;
    var i := 0;
    while i < |shown|
      invariant Underway(lines, pieces, i, currentLineLength, limit, pre, text)
      decreases |shown| - i, currentLineLength
    {
      var placed;
      placed, text, currentLineLength, lines :=
        Pass(text, currentLineLength, before + shown[i] + after, i == |shown| - 1, limit, pre, lines, pieces, i);
      if !placed {
        i := i - 1;
      }
      i := i + 1;
    }
    Finished(lines, pieces, currentLineLength, limit, pre, text);
  }

  // ---------------------------------------------------------------- there is one such layout only

  lemma {:induction false} FlattenFront(lines: seq<seq<string>>)
    requires lines != []
    ensures Flatten(lines) == lines[0] + Flatten(lines[1..])
  {
    var n := |lines| - 1;
    if n == 0 {
      assert lines[..n] == [] && Flatten(lines) == [] + lines[0];
    } else {
      FlattenFront(lines[..n]);
      assert lines[..n][1..] == lines[1..][..n - 1];
      assert lines[0] + (Flatten(lines[1..][..n - 1]) + lines[n]) == lines[0] + Flatten(lines[1..][..n - 1]) + lines[n];
    }
  }

  lemma {:induction false} WidthGrows(line: seq<string>, more: seq<string>)
    requires line != []
    ensures Width(line + more) >= Width(line)
    decreases |more|
  {
    if more == [] {
      assert line + more == line;
    } else {
      var n := |more| - 1;
      WidthGrows(line, more[..n]);
      JoinSnoc(line + more[..n], " ", more[n]);
      assert line + more == line + more[..n] + [more[n]];
    }
  }

  lemma LayoutTail(lines: seq<seq<string>>, pieces: seq<string>, limit: int)
    requires Layout(lines, pieces, limit) && lines != []
    ensures lines[0] <= pieces && Layout(lines[1..], pieces[|lines[0]|..], limit)
  {
    FlattenFront(lines);
    assert pieces[|lines[0]|..] == Flatten(lines[1..]);
    forall i | 0 < i < |lines[1..]| ensures Full(lines[1..], i, limit) {
      assert Full(lines, i + 1, limit);
    }
  }

  /** No first line of a layout is shorter than that of another. */
  lemma FirstLineNoShorter(a: seq<seq<string>>, b: seq<seq<string>>, pieces: seq<string>, limit: int)
    requires Layout(a, pieces, limit) && Layout(b, pieces, limit) && a != [] && b != []
    ensures |a[0]| >= |b[0]|
  {
    FlattenFront(a);
    FlattenFront(b);
    var n := |a[0]|;
    assert |a| == 1 ==> a[1..] == [] && Flatten(a[1..]) == [];
    if n < |b[0]| {
      assert pieces[..n] == a[0] && pieces[..n] == b[0][..n];
      FlattenFront(a[1..]);
      assert pieces[n] == a[1][0] && Full(a, 1, limit);
      assert b[0] == b[0][..n + 1] + b[0][n + 1..] && b[0][..n + 1] == a[0] + [a[1][0]];
      WidthGrows(b[0][..n + 1], b[0][n + 1..]);
      assert false;
    }
  }

  /** The pieces and the limit decide the lines: the text that is written is the only layout there is. */
  lemma {:induction false} LayoutUnique(a: seq<seq<string>>, b: seq<seq<string>>, pieces: seq<string>, limit: int)
    requires Layout(a, pieces, limit) && Layout(b, pieces, limit)
    ensures a == b
    decreases |a|
  {
    if a == [] || b == [] {
      if a != [] { FlattenFront(a); }
      if b != [] { FlattenFront(b); }
    } else {
      FirstLineNoShorter(a, b, pieces, limit);
      FirstLineNoShorter(b, a, pieces, limit);
      LayoutTail(a, pieces, limit);
      LayoutTail(b, pieces, limit);
      assert a[0] == b[0];
      LayoutUnique(a[1..], b[1..], pieces[|a[0]|..], limit);
      assert a == [a[0]] + a[1..] && b == [b[0]] + b[1..];
    }
  }

  lemma {:induction false} FlattenSingles(lines: seq<seq<string>>)
    requires forall i :: 0 <= i < |lines| ==> |lines[i]| == 1
    ensures |Flatten(lines)| == |lines|
  {
    if lines != [] {
      FlattenSingles(lines[..|lines| - 1]);
    }
  }

  /** Values that fit on one line are written on one, if and only if the limit is one that the conversion to a signed
      number keeps. Beyond that the limit is negative and each value gets a line of its own. */
  lemma FitOnOneLine(lines: seq<seq<string>>, pieces: seq<string>, lineLength: uint)
    requires |pieces| >= 2 && Width(pieces) <= lineLength && Layout(lines, pieces, AsInt(lineLength))
    ensures |lines| == 1 <==> lineLength <= MAX_INT
    ensures lineLength > MAX_INT ==> |lines| == |pieces|
  {
    if lineLength <= MAX_INT {
      assert [pieces][..0] == [] && Flatten([pieces]) == [] + pieces == pieces;
      LayoutUnique(lines, [pieces], pieces, lineLength);
    } else {
      FlattenSingles(lines);
    }
  }
}

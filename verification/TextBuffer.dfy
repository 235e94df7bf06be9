/** The incrementally edited document (verible/common/lsp/lsp-text-buffer.cc). */
module TextBuffer {
  import Seqs
  import opened Utf8

  datatype Position = Position(line: int, character: int)

  /** A change of a range of the document, or of the whole document. */
  datatype Change = Change(hasRange: bool, start: Position, end: Position, text: Bytes)

  // ----- the simple definition: a flat document

  function NewlineCount(s: Bytes): nat {
    if s == [] then 0 else (if s[0] == NEWLINE then 1 else 0) + NewlineCount(s[1..])
  }

  /** The position of the first newline, or the end. */
  function FirstNewline(s: Bytes): (i: nat)
    ensures i <= |s| && (i < |s| ==> s[i] == NEWLINE)
    ensures forall j :: 0 <= j < i ==> s[j] != NEWLINE
  {
    if s == [] || s[0] == NEWLINE then 0 else 1 + FirstNewline(s[1..])
  }

  /** The position at which line l starts. */
  function LineStart(doc: Bytes, l: nat): (i: nat)
    ensures i <= |doc|
    decreases l
  {
    var n := FirstNewline(doc);
    if l == 0 then 0 else if n == |doc| then |doc| else n + 1 + LineStart(doc[n + 1..], l - 1)
  }

  /** The text of line l without its newline. */
  function LineContent(doc: Bytes, l: nat): Bytes {
    var rest := doc[LineStart(doc, l)..];
    rest[..FirstNewline(rest)]
  }

  /** The position lies within the document. */
  predicate PositionOk(doc: Bytes, p: Position) {
    && 0 <= p.line <= NewlineCount(doc)
    && ValidUtf8(LineContent(doc, p.line))
    && 0 <= p.character <= CharCount(LineContent(doc, p.line))
  }

  function Offset(doc: Bytes, p: Position): nat
    requires PositionOk(doc, p)
  {
    LineStart(doc, p.line) + CharOffset(LineContent(doc, p.line), p.character)
  }

  predicate ChangeOk(doc: Bytes, c: Change) {
    && ValidUtf8(c.text)
    && (c.hasRange ==>
          && PositionOk(doc, c.start) && PositionOk(doc, c.end)
          && (c.start.line < c.end.line || (c.start.line == c.end.line && c.start.character <= c.end.character)))
    && (!c.hasRange ==> c.text != [])
  }

  /** The document with a change spliced in. */
  function Spliced(doc: Bytes, c: Change): Bytes
    requires ChangeOk(doc, c)
  {
    if !c.hasRange then c.text
    else
      var a, b := Offset(doc, c.start), Offset(doc, c.end);
      if a <= |doc| && b <= |doc| then doc[..a] + c.text + doc[b..] else doc
  }

  /** Line l with its newline. */
  function WholeLine(doc: Bytes, l: nat): Bytes {
    var rest := doc[LineStart(doc, l)..];
    var n := FirstNewline(rest);
    if n < |rest| then rest[..n + 1] else rest
  }

  /** The range of a change lies in lines of the document; its characters may lie beyond them. */
  predicate InDocument(doc: Bytes, c: Change) {
    && c.hasRange && ValidUtf8(c.text) && 0 <= c.start.line <= c.end.line <= NewlineCount(doc)
    && 0 <= c.start.character && 0 <= c.end.character
    && ValidUtf8(WholeLine(doc, c.start.line)) && ValidUtf8(WholeLine(doc, c.end.line))
  }

  /** Where an edit across lines finds a position: a character beyond the line stands behind its newline. */
  function WideOffset(doc: Bytes, p: Position): (n: nat)
    requires 0 <= p.line && 0 <= p.character && ValidUtf8(WholeLine(doc, p.line))
    ensures n <= |doc|
  {
    LineStart(doc, p.line) + CharOffset(WholeLine(doc, p.line), p.character)
  }

  function WideSpliced(doc: Bytes, c: Change): Bytes
    requires InDocument(doc, c)
  {
    doc[..WideOffset(doc, c.start)] + c.text + doc[WideOffset(doc, c.end)..]
  }

  /** Positions within their lines are found where they are, so a well-formed change is spliced in as it should be. */
  lemma WideIsExact(doc: Bytes, p: Position)
    requires PositionOk(doc, p)
    ensures ValidUtf8(WholeLine(doc, p.line)) && WideOffset(doc, p) == Offset(doc, p)
  {
    hide ValidUtf8, CharOffset, LineStart, NewlineCount, CharCount;
    var content := LineContent(doc, p.line);
    if WholeLine(doc, p.line) != content {
      assert WholeLine(doc, p.line) == content + [NEWLINE];
      NewlineIsValid();
      OffsetInPrefix(content, [NEWLINE], p.character);
    }
  }

  lemma WellFormedIsWide(doc: Bytes, c: Change)
    requires c.hasRange && ChangeOk(doc, c)
    ensures InDocument(doc, c) && Spliced(doc, c) == WideSpliced(doc, c)
  {
    hide ValidUtf8, WideOffset, Offset, LineContent, WholeLine;
    WideIsExact(doc, c.start);
    WideIsExact(doc, c.end);
  }

  // ----- the document as lines

  type Line = Bytes

  function Flat(lines: seq<Line>): Bytes {
    if lines == [] then [] else lines[0] + Flat(lines[1..])
  }

  lemma {:induction false} FlatConcat(s: seq<Line>, t: seq<Line>)
    ensures Flat(s + t) == Flat(s) + Flat(t)
  {
    if s == [] {
      assert s + t == t;
    } else {
      FlatConcat(s[1..], t);
      Seqs.TailOfConcat(s, t);
      Seqs.Associative(s[0], Flat(s[1..]), Flat(t));
    }
  }

  predicate EndsInNewline(s: Bytes) { s != [] && s[|s| - 1] == NEWLINE }

  predicate LineOk(s: Bytes) {
    ValidUtf8(s) && forall i :: 0 <= i < |s| - 1 ==> s[i] != NEWLINE
  }

  /** Every line but the last ends in its only newline. */
  predicate LinesOk(lines: seq<Line>) {
    && (forall i :: 0 <= i < |lines| ==> LineOk(lines[i]))
    && (forall i :: 0 <= i < |lines| - 1 ==> EndsInNewline(lines[i]))
  }

  predicate AllEnd(lines: seq<Line>) {
    forall i :: 0 <= i < |lines| ==> EndsInNewline(lines[i])
  }

  function Content(s: Line): Bytes {
    if EndsInNewline(s) then s[..|s| - 1] else s
  }

  lemma ContentOk(s: Line)
    requires LineOk(s)
    ensures ValidUtf8(Content(s)) && NEWLINE !in Content(s)
    ensures EndsInNewline(s) ==> s == Content(s) + [NEWLINE] && CharCount(s) == CharCount(Content(s)) + 1
  {
    if EndsInNewline(s) {
      CutAtNewline(s, |s| - 1);
      assert ValidUtf8([NEWLINE]) && CharCount([NEWLINE]) == 1 by { assert [NEWLINE][1..] == []; }
      assert s == Content(s) + [NEWLINE];
      ValidConcat(Content(s), [NEWLINE]);
    }
  }

  lemma FirstNewlineIs(s: Bytes, i: nat)
    requires i <= |s| && (i < |s| ==> s[i] == NEWLINE) && forall j :: 0 <= j < i ==> s[j] != NEWLINE
    ensures FirstNewline(s) == i
  {
  }

  lemma {:induction false} CountConcat(s: Bytes, t: Bytes)
    ensures NewlineCount(s + t) == NewlineCount(s) + NewlineCount(t)
  {
    if s == [] {
      assert s + t == t;
    } else {
      CountConcat(s[1..], t);
      assert (s + t)[1..] == s[1..] + t;
    }
  }

  lemma {:induction false} NoNewlines(s: Bytes)
    requires NEWLINE !in s
    ensures NewlineCount(s) == 0
  {
    if s != [] {
      NoNewlines(s[1..]);
    }
  }

  lemma LineNewlines(s: Line)
    requires LineOk(s)
    ensures NewlineCount(s) == if EndsInNewline(s) then 1 else 0
  {
    ContentOk(s);
    NoNewlines(Content(s));
    CountConcat(Content(s), [NEWLINE]);
    assert NewlineCount([NEWLINE]) == 1 + NewlineCount([NEWLINE][1..]);
  }

  lemma FirstLineEnds(s: Line, rest: Bytes)
    requires LineOk(s)
    ensures EndsInNewline(s) ==> FirstNewline(s + rest) == |s| - 1 && (s + rest)[|s|..] == rest
    ensures !EndsInNewline(s) && rest == [] ==> FirstNewline(s + rest) == |s|
  {
    if EndsInNewline(s) {
      FirstNewlineIs(s + rest, |s| - 1);
    } else if rest == [] {
      FirstNewlineIs(s + rest, |s|);
    }
  }

  lemma FlatOne(s: Line)
    ensures Flat([s]) == s
  {
    assert [s][1..] == [];
  }

  /** Line l of the list starts where line l of the document starts. */
  lemma {:induction false} LineStartInList(lines: seq<Line>, l: nat)
    requires LinesOk(lines) && l <= |lines| && (l == |lines| ==> AllEnd(lines))
    ensures LineStart(Flat(lines), l) == |Flat(lines[..l])|
    decreases l
  {
    if l > 0 {
      var s, rest := lines[0], lines[1..];
      hide ValidUtf8, Flat, LineOk;
      FlatParts(lines, l);
      FirstLineEnds(s, Flat(rest));
      LineStartInList(rest, l - 1);
    }
  }

  lemma FlatParts(lines: seq<Line>, l: nat)
    requires 0 < l <= |lines|
    ensures Flat(lines) == lines[0] + Flat(lines[1..])
    ensures Flat(lines[..l]) == lines[0] + Flat(lines[1..][..l - 1])
  {
    assert lines[..l][1..] == lines[1..][..l - 1];
  }

  /** Cutting the document at line l. */
  lemma CutAtLine(lines: seq<Line>, l: nat)
    requires l < |lines|
    ensures Flat(lines) == Flat(lines[..l]) + lines[l] + Flat(lines[l + 1..])
  {
    assert lines == lines[..l] + lines[l..] && lines[l..][1..] == lines[l + 1..];
    FlatConcat(lines[..l], lines[l..]);
  }

  /** Line l of the list is line l of the document. */
  lemma ContentInList(lines: seq<Line>, l: nat)
    requires LinesOk(lines) && l < |lines|
    ensures LineStart(Flat(lines), l) == |Flat(lines[..l])|
    ensures LineContent(Flat(lines), l) == Content(lines[l])
  {
    hide ValidUtf8, Flat, LineStart;
    LineStartInList(lines, l);
    CutAtLine(lines, l);
    var rest := Flat(lines[l + 1..]);
    assert Flat(lines)[|Flat(lines[..l])|..] == lines[l] + rest;
    if l + 1 == |lines| {
      FlatNothing(lines[l + 1..]);
    }
    FirstLineEnds(lines[l], rest);
  }

  lemma FlatNothing(lines: seq<Line>)
    requires lines == []
    ensures Flat(lines) == []
  {
  }

  lemma {:induction false} CountInList(lines: seq<Line>)
    requires LinesOk(lines)
    ensures NewlineCount(Flat(lines)) == if lines == [] || EndsInNewline(lines[|lines| - 1]) then |lines| else |lines| - 1
    decreases |lines|
  {
    if lines != [] {
      var s, rest := lines[0], lines[1..];
      CountInList(rest);
      CountConcat(s, Flat(rest));
      LineNewlines(s);
    }
  }

  // ----- splitting text into lines

  /** GenerateLines: the text split at newlines, each line keeping its own. */
  method GenerateLines(content: Bytes) returns (result: seq<Line>)
    requires ValidUtf8(content)
    ensures LinesOk(result) && result != [] && Flat(result) == content
    ensures EndsInNewline(content) ==> AllEnd(result)
  {
    hide ValidUtf8, Flat, LinesOk, AllEnd, LineOk;
    result := [];
    var rest := content;
    FlatNothing([]);
    NoPieces();
    // Every piece but the last is followed by a newline.
    while FirstNewline(rest) < |rest|
      invariant AllEnd(result) && LinesOk(result) && Flat(result) + rest == content && ValidUtf8(rest)
      decreases |rest|
    {
      var n := FirstNewline(rest);
      var piece := rest[..n + 1];
      PieceOk(rest, n);
      FlatConcat(result, [piece]);
      FlatOne(piece);
      Seqs.Associative(Flat(result), piece, rest[n + 1..]);
      PiecesOk(result, piece);
      result, rest := result + [piece], rest[n + 1..];
    }
    // The last piece gets no newline, and no line if the text ended in one.
    if content == [] || content[|content| - 1] != NEWLINE {
      FlatConcat(result, [rest]);
      FlatOne(rest);
      PiecesOk(result, rest);
      result := result + [rest];
    } else {
      assert rest == [];
      SomePiece(result, content);
    }
  }

  lemma NoPieces()
    ensures LinesOk([]) && AllEnd([])
  {
  }

  lemma PiecesOk(lines: seq<Line>, piece: Line)
    requires LinesOk(lines) && AllEnd(lines) && LineOk(piece)
    ensures LinesOk(lines + [piece]) && (EndsInNewline(piece) ==> AllEnd(lines + [piece]))
  {
  }

  lemma SomePiece(lines: seq<Line>, content: Bytes)
    requires Flat(lines) == content != []
    ensures lines != []
  {
  }

  lemma PieceOk(rest: Bytes, n: nat)
    requires ValidUtf8(rest) && n < |rest| && n == FirstNewline(rest)
    ensures LineOk(rest[..n + 1]) && EndsInNewline(rest[..n + 1]) && ValidUtf8(rest[n + 1..])
    ensures rest == rest[..n + 1] + rest[n + 1..]
  {
    hide ValidUtf8, CharCount, FirstNewline;
    CutAtNewline(rest, n);
    assert rest[..n + 1] == rest[..n] + [NEWLINE];
    NewlineIsValid();
    ValidConcat(rest[..n], [NEWLINE]);
  }

  // ----- edits

  /** What a well-formed position means in the list of lines. */
  lemma PositionInList(lines: seq<Line>, p: Position)
    requires LinesOk(lines) && p.line < |lines| && PositionOk(Flat(lines), p)
    ensures 0 <= p.line && 0 <= p.character
    ensures ValidUtf8(Content(lines[p.line])) && p.character <= CharCount(Content(lines[p.line]))
    ensures CharOffset(lines[p.line], p.character) == CharOffset(Content(lines[p.line]), p.character)
            <= |Content(lines[p.line])|
    ensures Offset(Flat(lines), p) == |Flat(lines[..p.line])| + CharOffset(lines[p.line], p.character)
    ensures p.character <= CharCount(lines[p.line])
  {
    hide Flat, LineStart, LineContent, NewlineCount, CharOffset;
    var s := lines[p.line];
    ContentInList(lines, p.line);
    ContentOk(s);
    if EndsInNewline(s) {
      NewlineIsValid();
      OffsetInPrefix(Content(s), [NEWLINE], p.character);
    }
  }

  lemma NewlineIsValid()
    ensures ValidUtf8([NEWLINE])
  {
    assert [NEWLINE][1..] == [];
  }

  /** The lines that replace lines l1 to l2. */
  function Replaced(lines: seq<Line>, l1: int, l2: int, new_: seq<Line>): seq<Line>
    requires 0 <= l1 <= l2 < |lines|
  {
    lines[..l1] + new_ + lines[l2 + 1..]
  }

  lemma ReplacedFlat(lines: seq<Line>, l1: int, l2: int, new_: seq<Line>, o1: int, o2: int, text: Bytes)
    requires 0 <= l1 <= l2 < |lines| && 0 <= o1 <= |lines[l1]| && 0 <= o2 <= |lines[l2]|
    requires Flat(new_) == lines[l1][..o1] + text + lines[l2][o2..]
    ensures var doc, a, b := Flat(lines), |Flat(lines[..l1])| + o1, |Flat(lines[..l2])| + o2;
            a <= |doc| && b <= |doc| && Flat(Replaced(lines, l1, l2, new_)) == doc[..a] + text + doc[b..]
  {
    hide Flat;
    var doc := Flat(lines);
    var a, b := |Flat(lines[..l1])| + o1, |Flat(lines[..l2])| + o2;
    CutAtLine(lines, l1);
    CutAtLine(lines, l2);
    assert doc[..a] == Flat(lines[..l1]) + lines[l1][..o1];
    assert doc[b..] == lines[l2][o2..] + Flat(lines[l2 + 1..]);
    FlatConcat(lines[..l1] + new_, lines[l2 + 1..]);
    FlatConcat(lines[..l1], new_);
    assert Flat(lines[..l1]) + (lines[l1][..o1] + text + lines[l2][o2..]) + Flat(lines[l2 + 1..])
        == (Flat(lines[..l1]) + lines[l1][..o1]) + text + (lines[l2][o2..] + Flat(lines[l2 + 1..]));
  }

  lemma ReplacedOk(lines: seq<Line>, l1: int, l2: int, new_: seq<Line>)
    requires 0 <= l1 <= l2 < |lines| && LinesOk(lines) && LinesOk(new_) && new_ != []
    requires l2 + 1 < |lines| ==> AllEnd(new_)
    ensures LinesOk(Replaced(lines, l1, l2, new_))
  {
    hide LineOk, EndsInNewline;
    var r, k := Replaced(lines, l1, l2, new_), |new_|;
    forall i | 0 <= i < |r| ensures LineOk(r[i]) && (i < |r| - 1 ==> EndsInNewline(r[i])) {
      if i < l1 {
        assert r[i] == lines[i];
      } else if i < l1 + k {
        assert r[i] == new_[i - l1];
      } else {
        assert r[i] == lines[i - l1 - k + l2 + 1];
      }
    }
  }

  lemma SplicedAt(s: Bytes, o1: nat, o2: nat, text: Bytes, i: nat)
    requires o1 <= |s| && o2 <= |s| && i < o1 + |text| + |s| - o2
    ensures var r := s[..o1] + text + s[o2..];
            && (i < o1 ==> r[i] == s[i])
            && (o1 <= i < o1 + |text| ==> r[i] == text[i - o1])
            && (o1 + |text| <= i ==> r[i] == s[i - o1 - |text| + o2])
  {
  }

  /** A line with text spliced into it that has no newline is a line. */
  lemma EditedLineOk(s: Line, o1: nat, o2: nat, text: Bytes)
    requires LineOk(s) && o1 <= |Content(s)| && o2 <= |Content(s)| && NEWLINE !in text
    requires ValidUtf8(s[..o1] + text + s[o2..])
    ensures LineOk(s[..o1] + text + s[o2..])
    ensures EndsInNewline(s) ==> EndsInNewline(s[..o1] + text + s[o2..])
  {
    hide ValidUtf8, CharCount;
    var r := s[..o1] + text + s[o2..];
    ContentOk(s);
    forall i | 0 <= i < |r| - 1 ensures r[i] != NEWLINE {
      SplicedAt(s, o1, o2, text, i);
      if i < o1 {
        assert Content(s)[i] == s[i];
      }
    }
    assert EndsInNewline(s) ==> r[|r| - 1] == s[|s| - 1];
  }

  lemma EditedValid(s: Line, t: Line, c1: nat, c2: nat, text: Bytes)
    requires ValidUtf8(s) && ValidUtf8(t) && ValidUtf8(text)
    ensures ValidUtf8(s[..CharOffset(s, c1)] + text + t[CharOffset(t, c2)..])
  {
    CutBetweenChars(s, c1);
    CutBetweenChars(t, c2);
    ValidConcat(s[..CharOffset(s, c1)], text);
    ValidConcat(s[..CharOffset(s, c1)] + text, t[CharOffset(t, c2)..]);
  }

  /** An edit within line l, between byte positions o1 and o2 of that line. */
  lemma LineReplaced(lines: seq<Line>, c: Change, o1: nat, o2: nat, edited: Line)
    requires LinesOk(lines) && c.hasRange && ChangeOk(Flat(lines), c) && NEWLINE !in c.text
    requires 0 <= c.start.line < |lines|
    requires var s := lines[c.start.line];
             && o1 <= |Content(s)| && o2 <= |Content(s)| && edited == s[..o1] + c.text + s[o2..] && ValidUtf8(edited)
    requires Offset(Flat(lines), c.start) == |Flat(lines[..c.start.line])| + o1
    requires Offset(Flat(lines), c.end) == |Flat(lines[..c.start.line])| + o2
    ensures var lines' := lines[c.start.line := edited];
            && LinesOk(lines') && Flat(lines') == Spliced(Flat(lines), c)
            && |Flat(lines')| == |Flat(lines)| - |lines[c.start.line]| + |edited|
  {
    hide Flat, ValidUtf8, LineOk, Offset, PositionOk;
    var l, s := c.start.line, lines[c.start.line];
    assert LineOk(s);
    EditedLineOk(s, o1, o2, c.text);
    FlatOne(edited);
    FlatOne(s);
    ReplacedFlat(lines, l, l, [edited], o1, o2, c.text);
    OneLineOk(edited);
    ReplacedOk(lines, l, l, [edited]);
    LengthReplaced(lines, l, l, [edited]);
    assert lines[l..l + 1] == [s];
    assert lines[l := edited] == Replaced(lines, l, l, [edited]);
    SpliceIs(Flat(lines), c);
  }

  /** A change within one line of the document, with any character positions. */
  predicate OneLineChange(doc: Bytes, c: Change) {
    && c.hasRange && ValidUtf8(c.text) && NEWLINE !in c.text
    && 0 <= c.start.line == c.end.line <= NewlineCount(doc) && ValidUtf8(LineContent(doc, c.start.line))
    && 0 <= c.start.character && 0 <= c.end.character
  }

  function ClampedEnd(doc: Bytes, c: Change): int
    requires OneLineChange(doc, c)
  {
    var n := CharCount(LineContent(doc, c.start.line));
    if c.end.character < n then c.end.character else n
  }

  /** The change with its end cut back to the end of the line. */
  function Clamped(doc: Bytes, c: Change): Change
    requires OneLineChange(doc, c)
  {
    c.(end := Position(c.end.line, ClampedEnd(doc, c)))
  }

  predicate FitsLine(doc: Bytes, c: Change)
    requires OneLineChange(doc, c)
  {
    c.start.character <= ClampedEnd(doc, c)
  }

  lemma ClampedOk(doc: Bytes, c: Change)
    requires OneLineChange(doc, c) && FitsLine(doc, c)
    ensures ChangeOk(doc, Clamped(doc, c))
    ensures PositionOk(doc, Clamped(doc, c).start) && PositionOk(doc, Clamped(doc, c).end)
  {
  }

  lemma ClampNothing(doc: Bytes, c: Change)
    requires ChangeOk(doc, c) && c.hasRange && c.start.line == c.end.line && NEWLINE !in c.text
    ensures OneLineChange(doc, c) && FitsLine(doc, c) && Clamped(doc, c) == c
  {
  }

  lemma LineInList(lines: seq<Line>, l: nat)
    requires LinesOk(lines) && l < |lines|
    ensures LineContent(Flat(lines), l) == Content(lines[l]) && ValidUtf8(Content(lines[l]))
  {
    ContentInList(lines, l);
    ContentOk(lines[l]);
  }

  /** The end that the edit computes is the end of the document's line. */
  lemma LineEndIs(lines: seq<Line>, c: Change)
    requires LinesOk(lines) && OneLineChange(Flat(lines), c) && c.start.line < |lines|
    ensures 0 <= c.start.line && 0 <= c.start.character && 0 <= c.end.character && ValidUtf8(lines[c.start.line])
    ensures var str := lines[c.start.line];
            var n := Utf8Len(str) - if EndsInNewline(str) then 1 else 0;
            && ClampedEnd(Flat(lines), c) == (if c.end.character < n then c.end.character else n)
            && (FitsLine(Flat(lines), c) <==> c.start.character <= ClampedEnd(Flat(lines), c))
  {
    hide Flat, ValidUtf8, LineContent, Content, CharCount, NewlineCount, EndsInNewline;
    LineInList(lines, c.start.line);
    assert LineOk(lines[c.start.line]);
    LengthsOf(lines[c.start.line]);
  }

  /** Replacing one line splices the clamped change into the document. */
  lemma LineSpliced(lines: seq<Line>, c: Change, endChar: int, edited: Line)
    requires LinesOk(lines) && OneLineChange(Flat(lines), c) && c.start.line < |lines| && FitsLine(Flat(lines), c)
    requires 0 <= endChar == ClampedEnd(Flat(lines), c)
    requires var str := lines[c.start.line];
             && ValidUtf8(str) && edited == str[..CharOffset(str, c.start.character)] + c.text + str[CharOffset(str, endChar)..]
    ensures ChangeOk(Flat(lines), Clamped(Flat(lines), c))
    ensures var lines' := lines[c.start.line := edited];
            && LinesOk(lines') && Flat(lines') == Spliced(Flat(lines), Clamped(Flat(lines), c))
            && |Flat(lines')| == |Flat(lines)| - |lines[c.start.line]| + |edited|
  {
    hide Flat, ValidUtf8, LineContent, Content, CharCount, CharOffset, NewlineCount, EndsInNewline, LineOk, PositionOk, Offset, Spliced, ClampedEnd;
    var clamped, str := Clamped(Flat(lines), c), lines[c.start.line];
    ClampedOk(Flat(lines), c);
    PositionInList(lines, clamped.start);
    PositionInList(lines, clamped.end);
    EditedValid(str, str, c.start.character, endChar, c.text);
    LineReplaced(lines, clamped, CharOffset(str, c.start.character), CharOffset(str, endChar), edited);
  }

  /** The lines that a change reaches. */
  lemma ChangedLines(lines: seq<Line>, c: Change)
    requires LinesOk(lines) && InDocument(Flat(lines), c) && c.end.line < |lines|
    ensures ValidUtf8(lines[c.start.line]) && ValidUtf8(lines[c.end.line])
    ensures WideOffset(Flat(lines), c.start)
         == |Flat(lines[..c.start.line])| + CharOffset(lines[c.start.line], c.start.character)
    ensures WideOffset(Flat(lines), c.end) == |Flat(lines[..c.end.line])| + CharOffset(lines[c.end.line], c.end.character)
  {
    hide Flat, ValidUtf8, LineStart, WholeLine, NewlineCount, CharOffset;
    WholeLineInList(lines, c.start.line);
    WholeLineInList(lines, c.end.line);
    LineIsValid(lines, c.start.line);
    LineIsValid(lines, c.end.line);
  }

  /** A whole line of the document is the line of the list. */
  lemma WholeLineInList(lines: seq<Line>, l: nat)
    requires LinesOk(lines) && l < |lines|
    ensures WholeLine(Flat(lines), l) == lines[l] && LineStart(Flat(lines), l) == |Flat(lines[..l])|
  {
    hide ValidUtf8, Flat, LineStart;
    ContentInList(lines, l);
    CutAtLine(lines, l);
    var rest := Flat(lines[l + 1..]);
    assert Flat(lines)[|Flat(lines[..l])|..] == lines[l] + rest;
    if l + 1 == |lines| {
      FlatNothing(lines[l + 1..]);
    }
    FirstLineEnds(lines[l], rest);
    LineIsValid(lines, l);
  }

  lemma LineIsValid(lines: seq<Line>, l: nat)
    requires LinesOk(lines) && l < |lines|
    ensures LineOk(lines[l]) && ValidUtf8(lines[l]) && (l + 1 < |lines| ==> EndsInNewline(lines[l]))
  {
  }

  /** What a change leaves of the lines it reaches. */
  function NewContent(lines: seq<Line>, c: Change): Bytes
    requires 0 <= c.start.line < |lines| && 0 <= c.end.line < |lines| && 0 <= c.start.character && 0 <= c.end.character
    requires ValidUtf8(lines[c.start.line]) && ValidUtf8(lines[c.end.line])
  {
    var s, t := lines[c.start.line], lines[c.end.line];
    s[..CharOffset(s, c.start.character)] + c.text + t[CharOffset(t, c.end.character)..]
  }

  /** The edit reaches the last line, or what it leaves ends in a newline. */
  predicate KeepsLines(lines: seq<Line>, c: Change)
    requires LinesOk(lines) && 0 <= c.start.line <= c.end.line && 0 <= c.start.character && 0 <= c.end.character
  {
    c.end.line + 1 >= |lines| || EndsInNewline(NewContent(lines, c))
  }

  /** The regenerated lines stand for that content. */
  predicate Regenerates(content: Bytes, regenerated: seq<Line>) {
    LinesOk(regenerated) && regenerated != [] && Flat(regenerated) == content && (EndsInNewline(content) ==> AllEnd(regenerated))
  }

  lemma LastEnds(lines: seq<Line>)
    requires lines != [] && EndsInNewline(lines[|lines| - 1])
    ensures EndsInNewline(Flat(lines))
  {
    var n := |lines| - 1;
    assert lines == lines[..n] + [lines[n]];
    FlatConcat(lines[..n], [lines[n]]);
    FlatOne(lines[n]);
  }

  /** Lines stay lines exactly if the last one of those regenerated ends in a newline wherever lines follow. */
  lemma RegeneratedOk(lines: seq<Line>, l1: int, l2: int, content: Bytes, regenerated: seq<Line>)
    requires LinesOk(lines) && 0 <= l1 <= l2 < |lines| && Regenerates(content, regenerated)
    ensures LinesOk(Replaced(lines, l1, l2, regenerated)) <==> l2 + 1 == |lines| || EndsInNewline(content)
  {
    hide Flat, LineOk, EndsInNewline;
    if l2 + 1 == |lines| || EndsInNewline(content) {
      ReplacedOk(lines, l1, l2, regenerated);
    } else {
      var r, k := Replaced(lines, l1, l2, regenerated), |regenerated| - 1;
      assert r[l1 + k] == regenerated[k] && l1 + k < |r| - 1;
      if EndsInNewline(regenerated[k]) {
        LastEnds(regenerated);
      }
    }
  }

  /** Replacing lines by regenerated ones splices the change into the document. */
  lemma LinesSpliced(lines: seq<Line>, c: Change, regenerated: seq<Line>)
    requires LinesOk(lines) && InDocument(Flat(lines), c) && c.end.line < |lines|
    requires ValidUtf8(lines[c.start.line]) && ValidUtf8(lines[c.end.line])
    requires Regenerates(NewContent(lines, c), regenerated)
    ensures Flat(Replaced(lines, c.start.line, c.end.line, regenerated)) == WideSpliced(Flat(lines), c)
    ensures LinesOk(Replaced(lines, c.start.line, c.end.line, regenerated)) <==> KeepsLines(lines, c)
  {
    hide Flat, ValidUtf8, LinesOk, CharOffset, NewlineCount, WholeLine, WideOffset, Replaced, EndsInNewline, AllEnd;
    ChangedLines(lines, c);
    RegeneratedOk(lines, c.start.line, c.end.line, NewContent(lines, c), regenerated);
    ReplacedFlat(lines, c.start.line, c.end.line, regenerated, CharOffset(lines[c.start.line], c.start.character),
                 CharOffset(lines[c.end.line], c.end.character), c.text);
  }

  /** A well-formed change leaves the newline of its last line. */
  lemma WellFormedKeeps(lines: seq<Line>, c: Change)
    requires LinesOk(lines) && c.hasRange && ChangeOk(Flat(lines), c)
    ensures 0 <= c.start.line <= c.end.line && KeepsLines(lines, c)
  {
    assert PositionOk(Flat(lines), c.start) && PositionOk(Flat(lines), c.end);
    if c.end.line + 1 < |lines| {
      hide Flat, ValidUtf8, CharCount, CharOffset, NewlineCount, LineContent, PositionOk, EndsInNewline, Offset, Content;
      PositionInList(lines, c.end);
      LineIsValid(lines, c.end.line);
      LineIsValid(lines, c.start.line);
      AfterEnds(lines[c.end.line], CharOffset(lines[c.end.line], c.end.character),
                lines[c.start.line][..CharOffset(lines[c.start.line], c.start.character)] + c.text);
    }
  }

  /** Otherwise lines are kept exactly if the end lies within its line, or what stands before it ends in a newline. */
  lemma KeepsExactly(lines: seq<Line>, c: Change)
    requires LinesOk(lines) && 0 <= c.start.line <= c.end.line && 0 <= c.start.character && 0 <= c.end.character
    requires c.end.line + 1 < |lines|
    ensures ValidUtf8(lines[c.start.line]) && ValidUtf8(Content(lines[c.end.line]))
    ensures KeepsLines(lines, c)
       <==> c.end.character <= CharCount(Content(lines[c.end.line]))
            || EndsInNewline(lines[c.start.line][..CharOffset(lines[c.start.line], c.start.character)] + c.text)
  {
    hide Flat, ValidUtf8, CharCount, CharOffset, EndsInNewline, LinesOk, Content;
    LineIsValid(lines, c.start.line);
    LineIsValid(lines, c.end.line);
    var s, t := lines[c.start.line], lines[c.end.line];
    var before := s[..CharOffset(s, c.start.character)] + c.text;
    BehindLine(t, c.end.character);
    if c.end.character <= CharCount(Content(t)) {
      AfterEnds(t, CharOffset(t, c.end.character), before);
    } else {
      assert before + t[CharOffset(t, c.end.character)..] == before;
    }
  }

  /** A character beyond a line stands behind its newline. */
  lemma BehindLine(s: Line, c: nat)
    requires LineOk(s) && EndsInNewline(s)
    ensures ValidUtf8(Content(s)) && ValidUtf8(s)
    ensures c <= CharCount(Content(s)) ==> CharOffset(s, c) <= |Content(s)|
    ensures c > CharCount(Content(s)) ==> CharOffset(s, c) == |s|
  {
    hide CharOffset, CharCount, ValidUtf8;
    ContentOk(s);
    NewlineIsValid();
    if c <= CharCount(Content(s)) {
      OffsetInPrefix(Content(s), [NEWLINE], c);
    } else {
      OffsetPastEnd(s, c);
    }
  }

  lemma {:induction false} OffsetPastEnd(s: Bytes, c: nat)
    requires ValidUtf8(s) && CharCount(s) <= c
    ensures CharOffset(s, c) == |s|
    decreases |s|
  {
    if s != [] {
      OffsetPastEnd(s[CharLen(s[0])..], c - 1);
    }
  }

  lemma LinePastEnd(lines: seq<Line>, p: Position)
    requires LinesOk(lines) && (p.line <= NewlineCount(Flat(lines)) || PositionOk(Flat(lines), p))
    ensures p.line <= |lines|
    ensures p.line == |lines| ==> LinesOk(lines + [[]]) && Flat(lines + [[]]) == Flat(lines)
  {
    hide Flat, ValidUtf8, LineContent;
    CountInList(lines);
    FlatConcat(lines, [[]]);
    FlatOne([]);
    EmptyLineOk();
    assert p.line == |lines| ==> (lines == [] || EndsInNewline(lines[|lines| - 1]));
  }

  lemma EmptyLineOk()
    ensures LineOk([])
  {
  }

  class EditTextBuffer {
    var lines: seq<Line>
    var documentLength: int

    ghost predicate Valid()
      reads this
    {
      LinesOk(lines) && documentLength == |Flat(lines)|
    }

    ghost function Document(): Bytes
      reads this
    {
      Flat(lines)
    }

    constructor (initialText: Bytes)
      requires ValidUtf8(initialText)
      ensures Valid() && Document() == initialText
    {
      lines, documentLength := [], 0;
      new;
      ReplaceDocument(initialText);
    }

    /** An empty text only resets the length: the lines stay. */
    method ReplaceDocument(content: Bytes)
      requires ValidUtf8(content)
      modifies this
      ensures content != [] ==> Valid() && Document() == content
      ensures content == [] ==> lines == old(lines) && documentLength == 0
    {
      documentLength := |content|;
      if content == [] {
        return;
      }
      lines := GenerateLines(content);
    }

    /** An edit within one line; an end beyond the line is cut back to its end. */
    method LineEdit(c: Change) returns (ok: bool)
      requires Valid() && OneLineChange(Document(), c) && c.start.line < |lines|
      modifies this
      ensures ok <==> FitsLine(old(Document()), c)
      ensures ok ==> ChangeOk(old(Document()), Clamped(old(Document()), c))
      ensures ok ==> Valid() && Document() == Spliced(old(Document()), Clamped(old(Document()), c))
      ensures !ok ==> lines == old(lines) && documentLength == old(documentLength)
    {
      hide Flat, ValidUtf8, Clamped, ChangeOk, Spliced, LinesOk, FitsLine, OneLineChange, IsSubstring, Skips, CharOffset, Utf8Len;
      var l := c.start.line;
      LineEndIs(lines, c);
      var str := lines[l];
      var endChar := c.end.character;
      var strEnd := Utf8Len(str);
      if str != [] && str[|str| - 1] == NEWLINE {
        strEnd := strEnd - 1;
      }
      if c.start.character > strEnd {
        return false;
      }
      endChar := if endChar < strEnd then endChar else strEnd;
      if endChar < c.start.character {
        return false;
      }
      documentLength := documentLength - |str|;
      NoOffsetAtZero(str);
      var before := Utf8Substring(str, 0, c.start.character);
      var after := Utf8Substr(str, endChar);
      var edited := before + c.text + after;
      LineSpliced(lines, c, endChar, edited);
      lines := lines[l := edited];
      documentLength := documentLength + |edited|;
      return true;
    }

    /** An edit across lines, or one that brings new lines. */
    method MultiLineEdit(c: Change) returns (ok: bool)
      requires Valid() && InDocument(Document(), c) && c.end.line < |lines|
      modifies this
      ensures ok && documentLength == |Document()| && Document() == WideSpliced(old(Document()), c)
      ensures Valid() <==> KeepsLines(old(lines), c)
    {
      hide Flat, ValidUtf8, WideSpliced, LinesOk, AllEnd, EndsInNewline, CharOffset, Replaced, WholeLine, NewlineCount,
        IsSubstring, Skips;
      var l1, l2 := c.start.line, c.end.line;
      ChangedLines(lines, c);
      var startLine, endLine := lines[l1], lines[l2];
      NoOffsetAtZero(startLine);
      var before := Utf8Substring(startLine, 0, c.start.character);
      var after := Utf8Substr(endLine, c.end.character);
      var newContent := before + c.text + after;
      EditedValid(startLine, endLine, c.start.character, c.end.character, c.text);
      var removed := LengthOf(lines[l1..l2 + 1]);
      documentLength := documentLength - removed;
      documentLength := documentLength + |newContent|;
      var regenerated := GenerateLines(newContent);
      LinesSpliced(lines, c, regenerated);
      LengthReplaced(lines, l1, l2, regenerated);
      lines := Replaced(lines, l1, l2, regenerated);
      return true;
    }

    /** Applies one change. */
    method ApplyChange(c: Change) returns (ok: bool)
      requires Valid() && ValidUtf8(c.text) && (c.hasRange ==> InDocument(Document(), c))
      modifies this
      ensures ChangeOk(old(Document()), c) ==> ok && Valid() && Document() == Spliced(old(Document()), c)
      ensures OneLineChange(old(Document()), c) ==>
                && (ok <==> FitsLine(old(Document()), c)) && Valid()
                && (!ok ==> Document() == old(Document()))
                && (ok ==> ChangeOk(old(Document()), Clamped(old(Document()), c))
                           && Document() == Spliced(old(Document()), Clamped(old(Document()), c)))
      ensures c.hasRange && !OneLineChange(old(Document()), c) ==>
                && ok && documentLength == |Document()| && Document() == WideSpliced(old(Document()), c)
                && (Valid() <==> KeepsLines(old(lines), c))
      ensures !c.hasRange && c.text == [] ==> Document() == old(Document()) && (Valid() <==> old(Document()) == [])
    {
      if !c.hasRange {
        ReplaceDocument(c.text);
        return true;
      }
      hide Flat, ValidUtf8, LineOk, NewlineCount, LineStart, LineContent, PositionOk, CharCount, Offset, Spliced, LinesOk, WholeLine,
        WideOffset, ChangeOk, WideSpliced, Clamped, FitsLine, OneLineChange, InDocument, KeepsLines;
      RangeMeans(Flat(lines), c);
      LinePastEnd(lines, c.end);
      ghost var lines0 := lines;
      if ChangeOk(Flat(lines), c) {
        WellFormedIsWide(Flat(lines), c);
        WellFormedKeeps(lines, c);
        if c.start.line == c.end.line && NEWLINE !in c.text {
          ClampNothing(Flat(lines), c);
        }
      }
      if c.end.line >= |lines| {
        KeepsBehind(lines, c);
        lines := lines + [[]];
      }
      if c.start.line == c.end.line && NEWLINE !in c.text {
        ok := LineEdit(c);
      } else {
        ok := MultiLineEdit(c);
      }
    }

    /** Applies a run of changes, each of which keeps the lines. */
    method ApplyChanges(cc: seq<Change>)
      requires Valid() && RunOk(Document(), cc)
      modifies this
      ensures Valid() && Document() == AfterRun(old(Document()), cc)
    {
      hide Flat, ValidUtf8, LinesOk, ChangeOk, OneLineChange, Spliced, Clamped, FitsLine, InDocument, WideSpliced, KeepsLines;
      for i := 0 to |cc|
        invariant Valid() && RunOk(Document(), cc[i..]) && AfterRun(Document(), cc[i..]) == AfterRun(old(Document()), cc)
      {
        assert cc[i..][1..] == cc[i + 1..];
        StepIsInDocument(Document(), cc[i]);
        var _ := ApplyChange(cc[i]);
      }
    }
  }

  /** A change that is well-formed, or lies in one line with any characters. */
  ghost predicate StepOk(doc: Bytes, c: Change) { ChangeOk(doc, c) || OneLineChange(doc, c) }

  /** The flat document after it: within one line its end is cut back, and it is refused if it does not fit. */
  ghost function AfterStep(doc: Bytes, c: Change): Bytes
    requires StepOk(doc, c)
  {
    if !OneLineChange(doc, c) then Spliced(doc, c)
    else if FitsLine(doc, c) && ChangeOk(doc, Clamped(doc, c)) then Spliced(doc, Clamped(doc, c))
    else doc
  }

  ghost predicate RunOk(doc: Bytes, cc: seq<Change>)
    decreases |cc|
  {
    cc == [] || (StepOk(doc, cc[0]) && RunOk(AfterStep(doc, cc[0]), cc[1..]))
  }

  /** The flat document after a run of changes. */
  ghost function AfterRun(doc: Bytes, cc: seq<Change>): Bytes
    requires RunOk(doc, cc)
    decreases |cc|
  {
    if cc == [] then doc else AfterRun(AfterStep(doc, cc[0]), cc[1..])
  }

  lemma StepIsInDocument(doc: Bytes, c: Change)
    requires StepOk(doc, c)
    ensures ValidUtf8(c.text) && (c.hasRange ==> InDocument(doc, c))
  {
    hide NewlineCount, LineStart;
    if c.hasRange && ChangeOk(doc, c) {
      WellFormedIsWide(doc, c);
    } else if c.hasRange {
      WholeIsValid(doc, c.start.line);
    }
  }

  lemma WholeIsValid(doc: Bytes, l: nat)
    ensures ValidUtf8(LineContent(doc, l)) <==> ValidUtf8(WholeLine(doc, l))
  {
    hide ValidUtf8, LineStart, CharCount;
    var content, line := LineContent(doc, l), WholeLine(doc, l);
    if line != content {
      assert line == content + [NEWLINE];
      if ValidUtf8(content) {
        NewlineIsValid();
        ValidConcat(content, [NEWLINE]);
      }
      if ValidUtf8(line) {
        CutAtNewline(line, |line| - 1);
        assert line[..|line| - 1] == content;
      }
    }
  }

  /** What a range in the document is for the two kinds of edits. */
  lemma RangeMeans(doc: Bytes, c: Change)
    requires InDocument(doc, c)
    ensures c.hasRange && 0 <= c.start.line <= c.end.line <= NewlineCount(doc) && 0 <= c.start.character && 0 <= c.end.character
    ensures OneLineChange(doc, c) <==> c.start.line == c.end.line && NEWLINE !in c.text
  {
    hide NewlineCount, LineStart, ValidUtf8, LineContent, WholeLine;
    WholeIsValid(doc, c.start.line);
  }

  /** A line behind the last one has nothing behind it. */
  lemma KeepsBehind(lines: seq<Line>, c: Change)
    requires LinesOk(lines) && LinesOk(lines + [[]]) && 0 <= c.start.line <= c.end.line == |lines|
    requires 0 <= c.start.character && 0 <= c.end.character
    ensures KeepsLines(lines, c) && KeepsLines(lines + [[]], c)
  {
  }

  // ----- a range that ends beyond its last line

  /** "ab", "cd", "ef" */
  function ThreeLines(): seq<Line> { [[97, 98, NEWLINE], [99, 100, NEWLINE], [101, 102]] }

  /** Replaces everything from behind "a" to a character beyond "cd" by an "x". */
  function BeyondLine(): Change { Change(true, Position(0, 1), Position(1, 3), [120]) }

  lemma {:induction false} AsciiIsValid(s: Bytes, c: nat)
    requires forall i :: 0 <= i < |s| ==> s[i] < 128
    ensures ValidUtf8(s) && CharCount(s) == |s| && CharOffset(s, c) == if c < |s| then c else |s|
  {
    if s != [] {
      AsciiIsValid(s[1..], if c == 0 then 0 else c - 1);
    }
  }

  lemma ThreeLinesOk()
    ensures LinesOk(ThreeLines()) && Flat(ThreeLines()) == [97, 98, NEWLINE, 99, 100, NEWLINE, 101, 102]
  {
    hide ValidUtf8, CharOffset, CharCount;
    var a, b, c := ThreeLines()[0], ThreeLines()[1], ThreeLines()[2];
    AsciiIsValid(a, 0);
    AsciiIsValid(b, 0);
    AsciiIsValid(c, 0);
    assert ThreeLines() == [a] + [b] + [c];
    FlatConcat([a] + [b], [c]);
    FlatConcat([a], [b]);
    FlatOne(a);
    FlatOne(b);
    FlatOne(c);
  }

  /** The newline behind "cd" is swallowed: the text joins "ax" and "ef", which the list keeps as two lines. */
  lemma NewlineSwallowed()
    ensures LinesOk(ThreeLines()) && InDocument(Flat(ThreeLines()), BeyondLine()) && !KeepsLines(ThreeLines(), BeyondLine())
    ensures WideSpliced(Flat(ThreeLines()), BeyondLine()) == [97, 120, 101, 102]
  {
    var lines, c := ThreeLines(), BeyondLine();
    hide ValidUtf8, CharOffset, CharCount, LineStart, FirstNewline, NewlineCount, Flat, LinesOk, WholeLine, WideOffset, KeepsLines;
    ThreeLinesOk();
    CountInList(lines);
    AsciiIsValid(c.text, 0);
    AsciiIsValid(lines[0], 1);
    AsciiIsValid(lines[1], 3);
    WholeLineInList(lines, 0);
    WholeLineInList(lines, 1);
    ChangedLines(lines, c);
    assert lines[..0] == [] && lines[..1] == [lines[0]];
    FlatNothing([]);
    FlatOne(lines[0]);
    KeepsExactly(lines, c);
    assert Content(lines[1]) == [99, 100];
    AsciiIsValid([99, 100], 0);
  }

  lemma LengthsOf(s: Line)
    requires LineOk(s)
    ensures ValidUtf8(s) && ValidUtf8(Content(s))
    ensures Utf8Len(s) == CharCount(Content(s)) + (if EndsInNewline(s) then 1 else 0)
  {
    ContentOk(s);
    LenIsCharCount(s);
  }

  lemma OneLineOk(s: Line)
    requires LineOk(s)
    ensures LinesOk([s]) && (EndsInNewline(s) ==> AllEnd([s]))
  {
  }

  lemma SpliceIs(doc: Bytes, c: Change)
    requires ChangeOk(doc, c) && c.hasRange && Offset(doc, c.start) <= |doc| && Offset(doc, c.end) <= |doc|
    ensures Spliced(doc, c) == doc[..Offset(doc, c.start)] + c.text + doc[Offset(doc, c.end)..]
  {
  }

  lemma AfterEnds(s: Line, o: nat, before: Bytes)
    requires EndsInNewline(s) && o <= |Content(s)|
    ensures EndsInNewline(before + s[o..])
  {
  }

  /** The total length of some lines. */
  method LengthOf(lines: seq<Line>) returns (n: int)
    ensures n == |Flat(lines)|
  {
    n := 0;
    for i := 0 to |lines|
      invariant n == |Flat(lines[..i])|
    {
      assert lines[..i + 1] == lines[..i] + [lines[i]];
      FlatConcat(lines[..i], [lines[i]]);
      FlatOne(lines[i]);
      n := n + |lines[i]|;
    }
    assert lines[..|lines|] == lines;
  }

  lemma LengthReplaced(lines: seq<Line>, l1: int, l2: int, new_: seq<Line>)
    requires 0 <= l1 <= l2 < |lines|
    ensures |Flat(Replaced(lines, l1, l2, new_))| == |Flat(lines)| - |Flat(lines[l1..l2 + 1])| + |Flat(new_)|
  {
    assert lines == lines[..l1] + lines[l1..l2 + 1] + lines[l2 + 1..];
    FlatConcat(lines[..l1] + lines[l1..l2 + 1], lines[l2 + 1..]);
    FlatConcat(lines[..l1], lines[l1..l2 + 1]);
    FlatConcat(lines[..l1] + new_, lines[l2 + 1..]);
    FlatConcat(lines[..l1], new_);
  }
}

/** Lines of a text and the tokens on them
    (verible/common/strings/line-column-map.cc, verible/common/text/text-structure.cc). */
module LineIndex {
  import opened Utf8
  import opened TextBuffer

  // ----- the simple definitions: counting newlines

  /** The line of a position is the number of newlines before it. */
  function LineOf(text: Bytes, p: nat): nat {
    NewlineCount(text[..if p < |text| then p else |text|])
  }

  /** The starts of the lines: 0, and every position that follows a newline, in order. */
  predicate IsIndex(text: Bytes, offsets: seq<int>) {
    && |offsets| > 0 && offsets[0] == 0
    && Increasing(offsets)
    && (forall k :: 1 <= k < |offsets| ==> 1 <= offsets[k] <= |text| && text[offsets[k] - 1] == NEWLINE)
    && (forall p :: 0 <= p < |text| && text[p] == NEWLINE ==> p + 1 in offsets)
  }

  predicate Increasing(offsets: seq<int>) {
    forall i, j :: 0 <= i < j < |offsets| ==> offsets[i] < offsets[j]
  }

  lemma CountLast(text: Bytes, p: nat)
    requires p < |text|
    ensures NewlineCount(text[..p + 1]) == NewlineCount(text[..p]) + if text[p] == NEWLINE then 1 else 0
  {
    assert text[..p + 1] == text[..p] + [text[p]];
    CountConcat(text[..p], [text[p]]);
    assert [text[p]][1..] == [];
  }

  /** The entry at or before a position has the number of its line. */
  lemma {:induction false} IndexCounts(text: Bytes, offsets: seq<int>, p: nat, k: nat)
    requires IsIndex(text, offsets) && p <= |text| && k < |offsets|
    requires offsets[k] <= p && (k + 1 < |offsets| ==> p < offsets[k + 1])
    ensures NewlineCount(text[..p]) == k
  {
    if p == 0 {
      assert k == 0;
    } else {
      CountLast(text, p - 1);
      if text[p - 1] == NEWLINE {
        var j :| 0 <= j < |offsets| && offsets[j] == p - 1 + 1;
        assert j == k;
        IndexCounts(text, offsets, p - 1, k - 1);
      } else {
        IndexCounts(text, offsets, p - 1, k);
      }
    }
  }

  lemma IndexLength(text: Bytes, offsets: seq<int>)
    requires IsIndex(text, offsets)
    ensures |offsets| == NewlineCount(text) + 1
  {
    var k := |offsets| - 1;
    assert offsets[k] <= |text|;
    IndexCounts(text, offsets, |text|, k);
    assert text[..|text|] == text;
  }

  /** A text has only one index. */
  lemma IndexUnique(text: Bytes, a: seq<int>, b: seq<int>)
    requires IsIndex(text, a) && IsIndex(text, b)
    ensures a == b
  {
    IndexLength(text, a);
    IndexLength(text, b);
    forall i | 0 <= i < |a| ensures a[i] == b[i] {
      if i > 0 {
        assert text[a[i] - 1] == NEWLINE;
        var j :| 0 <= j < |b| && b[j] == a[i] - 1 + 1;
        IndexCounts(text, a, a[i], i);
        IndexCounts(text, b, b[j], j);
      }
    }
  }

  // ----- building the index

  lemma NoLineBreak(text: Bytes, from: nat, to: nat, offsets: seq<int>)
    requires from <= to <= |text| && IsIndex(text[..from], offsets)
    requires forall p :: from <= p < to ==> text[p] != NEWLINE
    ensures IsIndex(text[..to], offsets)
  {
    forall p | 0 <= p < |text[..to]| && text[..to][p] == NEWLINE ensures p + 1 in offsets {
      assert text[..from][p] == NEWLINE;
    }
    forall k | 1 <= k < |offsets| ensures 1 <= offsets[k] <= to && text[..to][offsets[k] - 1] == NEWLINE {
      assert text[..from][offsets[k] - 1] == NEWLINE;
    }
  }

  lemma LineBreak(text: Bytes, p: nat, offsets: seq<int>)
    requires p < |text| && text[p] == NEWLINE && IsIndex(text[..p], offsets)
    ensures IsIndex(text[..p + 1], offsets + [p + 1])
  {
    var t, r := text[..p + 1], offsets + [p + 1];
    forall q | 0 <= q < |t| && t[q] == NEWLINE ensures q + 1 in r {
      if q < p {
        assert text[..p][q] == NEWLINE;
        assert q + 1 in offsets;
      } else {
        assert r[|offsets|] == q + 1;
      }
    }
    forall k | 1 <= k < |r| ensures 1 <= r[k] <= |t| && t[r[k] - 1] == NEWLINE {
      if k < |offsets| {
        assert text[..p][offsets[k] - 1] == NEWLINE;
      }
    }
    forall i, j | 0 <= i < j < |r| ensures r[i] < r[j] {
      if j == |offsets| {
        assert i == 0 || offsets[i] <= |text[..p]|;
      }
    }
  }

  /** LineColumnMap(text): the index of a text. */
  method IndexOfText(text: Bytes) returns (offsets: seq<int>)
    ensures IsIndex(text, offsets)
  {
    offsets := [0];
    var offset := FirstNewline(text);
    assert IsIndex(text[..0], offsets);
    NoLineBreak(text, 0, offset, offsets);
    while offset < |text|
      invariant 0 <= offset <= |text| && (offset < |text| ==> text[offset] == NEWLINE)
      invariant IsIndex(text[..offset], offsets)
    {
      LineBreak(text, offset, offsets);
      offsets := offsets + [offset + 1];
      var rest := text[offset + 1..];
      var next := FirstNewline(rest);
      forall p | offset + 1 <= p < offset + 1 + next ensures text[p] != NEWLINE {
        assert rest[p - offset - 1] == text[p];
      }
      NoLineBreak(text, offset + 1, offset + 1 + next, offsets);
      offset := offset + 1 + next;
    }
    assert text[..offset] == text;
  }

  /** Lines joined by newlines. */
  function Joined(lines: seq<Bytes>): Bytes
    requires lines != []
  {
    var n := |lines| - 1;
    if n == 0 then lines[0] else Joined(lines[..n]) + [NEWLINE] + lines[n]
  }

  predicate NoneBroken(lines: seq<Bytes>) {
    forall i :: 0 <= i < |lines| ==> NEWLINE !in lines[i]
  }

  /** The text split at its newlines. */
  predicate IsSplit(text: Bytes, lines: seq<Bytes>) {
    lines != [] && NoneBroken(lines) && Joined(lines) == text
  }

  lemma JoinedMore(lines: seq<Bytes>, line: Bytes)
    requires lines != []
    ensures Joined(lines + [line]) == Joined(lines) + [NEWLINE] + line
  {
    assert (lines + [line])[..|lines|] == lines;
  }

  lemma IndexMore(text: Bytes, line: Bytes, offsets: seq<int>)
    requires IsIndex(text, offsets) && NEWLINE !in line
    ensures IsIndex(text + [NEWLINE] + line, offsets + [|text| + 1])
  {
    var r, n := text + [NEWLINE] + line, |text|;
    assert r[..n] == text;
    LineBreak(r, n, offsets);
    forall p | n + 1 <= p < |r| ensures r[p] != NEWLINE {
      assert r[p] == line[p - n - 1];
    }
    NoLineBreak(r, n + 1, |r|, offsets + [n + 1]);
    assert r[..|r|] == r;
  }

  /** LineColumnMap(lines): the index of a text from its lines. */
  method IndexOfLines(lines: seq<Bytes>) returns (offsets: seq<int>)
    requires NoneBroken(lines)
    ensures lines != [] ==> IsIndex(Joined(lines), offsets)
    ensures lines == [] ==> offsets == []
  {
    offsets := [];
    var offset := 0;
    for i := 0 to |lines|
      invariant i == 0 ==> offset == 0 && offsets == []
      invariant i > 0 ==> IsIndex(Joined(lines[..i]), offsets) && offset == |Joined(lines[..i])| + 1
    {
      assert lines[..i + 1] == lines[..i] + [lines[i]];
      if i > 0 {
        JoinedMore(lines[..i], lines[i]);
        IndexMore(Joined(lines[..i]), lines[i], offsets);
      }
      offsets := offsets + [offset];
      offset := offset + |lines[i]| + 1;
    }
    assert lines[..|lines|] == lines;
  }

  /** Both ways to build the index agree on a text and its lines. */
  method IndexBothWays(text: Bytes, lines: seq<Bytes>) returns (ofText: seq<int>, ofLines: seq<int>)
    requires IsSplit(text, lines)
    ensures ofText == ofLines && IsIndex(text, ofText)
  {
    ofText := IndexOfText(text);
    ofLines := IndexOfLines(lines);
    IndexUnique(text, ofText, ofLines);
  }

  /** The lines of a text, as split at newlines. */
  method SplitLines(text: Bytes) returns (lines: seq<Bytes>)
    ensures IsSplit(text, lines)
  {
    var n := FirstNewline(text);
    lines := [text[..n]];
    while n < |text|
      invariant 0 <= n <= |text| && (n < |text| ==> text[n] == NEWLINE)
      invariant IsSplit(text[..n], lines)
    {
      var rest := text[n + 1..];
      var k := FirstNewline(rest);
      JoinedMore(lines, rest[..k]);
      lines := lines + [rest[..k]];
      assert text[..n + 1 + k] == text[..n] + [NEWLINE] + rest[..k];
      n := n + 1 + k;
    }
    assert text[..n] == text;
  }

  // ----- looking up positions

  /** The first entry above a value. */
  method UpperBound(offsets: seq<int>, value: int) returns (k: nat)
    requires Increasing(offsets)
    ensures k <= |offsets|
    ensures forall i :: 0 <= i < k ==> offsets[i] <= value
    ensures forall i :: k <= i < |offsets| ==> value < offsets[i]
  {
    var lo, hi := 0, |offsets|;
    while lo < hi
      invariant 0 <= lo <= hi <= |offsets|
      invariant forall i :: 0 <= i < lo ==> offsets[i] <= value
      invariant forall i :: hi <= i < |offsets| ==> value < offsets[i]
    {
      var mid := (lo + hi) / 2;
      if offsets[mid] <= value {
        lo := mid + 1;
      } else {
        hi := mid;
      }
    }
    k := lo;
  }

  /** LineAtOffset: the binary search counts newlines. */
  method LineAtOffset(ghost text: Bytes, offsets: seq<int>, p: nat) returns (line: int)
    requires IsIndex(text, offsets)
    ensures line == LineOf(text, p)
    ensures 0 <= line < |offsets| && offsets[line] <= p
  {
    var k := UpperBound(offsets, p);
    assert k > 0;
    LookedUp(text, offsets, p, k - 1);
    line := k - 1;
  }

  lemma LookedUp(text: Bytes, offsets: seq<int>, p: nat, k: nat)
    requires IsIndex(text, offsets) && k < |offsets|
    requires offsets[k] <= p && (k + 1 < |offsets| ==> p < offsets[k + 1])
    ensures LineOf(text, p) == k
  {
    var q := if p < |text| then p else |text|;
    assert k + 1 < |offsets| ==> offsets[k + 1] <= |text|;
    assert k == 0 || offsets[k] <= |text|;
    IndexCounts(text, offsets, q, k);
  }

  datatype LineColumn = LineColumn(line: int, column: int)

  /** The start of the line of a position: just after the last newline before it. */
  function LastLineStart(text: Bytes, p: nat): (s: nat)
    requires p <= |text|
    ensures s <= p && (forall i :: s <= i < p ==> text[i] != NEWLINE) && (s > 0 ==> text[s - 1] == NEWLINE)
  {
    if p == 0 || text[p - 1] == NEWLINE then p else LastLineStart(text, p - 1)
  }

  /** The line and the column, in characters, of a position. */
  function LineColumnOf(text: Bytes, p: nat): LineColumn
    requires p <= |text|
  {
    LineColumn(LineOf(text, p), Utf8Len(text[LastLineStart(text, p)..p]))
  }

  lemma EntryIsLineStart(text: Bytes, offsets: seq<int>, p: nat, k: nat)
    requires IsIndex(text, offsets) && p <= |text| && k < |offsets|
    requires offsets[k] <= p && (k + 1 < |offsets| ==> p < offsets[k + 1])
    ensures offsets[k] == LastLineStart(text, p)
  {
    var s := LastLineStart(text, p);
    if s > 0 {
      var j :| 0 <= j < |offsets| && offsets[j] == s - 1 + 1;
      assert j <= k;
    }
    assert offsets[k] <= s;
  }

  method GetLineColAtOffset(text: Bytes, offsets: seq<int>, p: nat) returns (r: LineColumn)
    requires IsIndex(text, offsets) && p <= |text|
    ensures r == LineColumnOf(text, p)
  {
    var k := UpperBound(offsets, p);
    assert k > 0;
    LookedUp(text, offsets, p, k - 1);
    EntryIsLineStart(text, offsets, p, k - 1);
    r := LineColumn(k - 1, Utf8Len(text[offsets[k - 1]..p]));
  }

  // ----- positions and offsets are inverse

  /** The count of newlines up to a position, past the first line. */
  lemma LineOfRest(text: Bytes, n: nat, p: nat)
    requires n == FirstNewline(text) && n < p <= |text|
    ensures LineOf(text, p) == 1 + LineOf(text[n + 1..], p - n - 1)
  {
    hide FirstNewline, NewlineCount;
    var front, k := text[n + 1..p], p - n - 1;
    assert NEWLINE !in text[..n];
    NoNewlines(text[..n]);
    CountLast(text, n);
    assert text[..p] == text[..n + 1] + front;
    CountConcat(text[..n + 1], front);
    assert text[n + 1..][..k] == front;
  }

  lemma LinesAtMost(text: Bytes, p: nat)
    requires p <= |text|
    ensures LineOf(text, p) <= NewlineCount(text)
  {
    assert text == text[..p] + text[p..];
    CountConcat(text[..p], text[p..]);
  }

  lemma FirstLine(text: Bytes, p: nat)
    requires p <= FirstNewline(text)
    ensures LineOf(text, p) == 0 && LastLineStart(text, p) == 0
  {
    NoNewlines(text[..p]);
  }

  /** Line number and line start, counted from the front. */
  lemma {:induction false} LineStartOf(text: Bytes, p: nat)
    requires p <= |text|
    ensures LineStart(text, LineOf(text, p)) == LastLineStart(text, p)
    decreases |text|
  {
    hide LineOf, LastLineStart, FirstNewline, NewlineCount;
    var n := FirstNewline(text);
    if p <= n {
      FirstLine(text, p);
    } else {
      var rest := text[n + 1..];
      LineStartOf(rest, p - n - 1);
      LineOfRest(text, n, p);
      SameLastLine(text, rest, n + 1, p);
    }
  }

  lemma SameLastLine(text: Bytes, rest: Bytes, n: nat, p: nat)
    requires 1 <= n <= p <= |text| && rest == text[n..] && text[n - 1] == NEWLINE
    ensures LastLineStart(text, p) == n + LastLineStart(rest, p - n)
  {
    var s := LastLineStart(rest, p - n);
    assert s > 0 ==> rest[s - 1] == text[n + s - 1];
    assert forall i :: n + s <= i < p ==> text[i] == rest[i - n];
    LineStartUnique(text, p, n + s);
  }

  lemma LineStartUnique(text: Bytes, p: nat, s: nat)
    requires s <= p <= |text| && (forall i :: s <= i < p ==> text[i] != NEWLINE) && (s > 0 ==> text[s - 1] == NEWLINE)
    ensures LastLineStart(text, p) == s
  {
  }

  /** Text valid up to a position is valid from the start of that position's line. */
  lemma ValidFromLineStart(text: Bytes, p: nat)
    requires p <= |text| && ValidUtf8(text[..p])
    ensures ValidUtf8(text[LastLineStart(text, p)..p])
  {
    var s := LastLineStart(text, p);
    if s > 0 {
      CutAtNewline(text[..p], s - 1);
      assert text[..p][s - 1 + 1..] == text[s..p];
    } else {
      assert text[..p] == text[s..p];
    }
  }

  lemma {:induction false} OffsetOfAll(s: Bytes)
    requires ValidUtf8(s)
    ensures CharOffset(s, CharCount(s)) == |s|
    decreases |s|
  {
    if s != [] {
      OffsetOfAll(s[CharLen(s[0])..]);
    }
  }

  lemma ValidToLineEnd(text: Bytes, p: nat)
    requires p <= |text| && ValidUtf8(text[p..])
    ensures ValidUtf8(text[p..p + FirstNewline(text[p..])])
  {
    var rest := text[p..];
    var n := FirstNewline(rest);
    if n < |rest| {
      CutAtNewline(rest, n);
      assert rest[..n] == text[p..p + n];
    } else {
      assert rest == text[p..p + n];
    }
  }

  lemma NewlineFromLineStart(text: Bytes, p: nat)
    requires p <= |text|
    ensures FirstNewline(text[LastLineStart(text, p)..]) == p - LastLineStart(text, p) + FirstNewline(text[p..])
  {
    hide FirstNewline, LastLineStart;
    var s, n := LastLineStart(text, p), FirstNewline(text[p..]);
    var rest, tail := text[s..], text[p..];
    forall j | 0 <= j < p - s + n ensures rest[j] != NEWLINE {
      assert j < p - s ==> text[s + j] != NEWLINE;
      assert j >= p - s ==> tail[j - (p - s)] != NEWLINE;
    }
    assert n < |tail| ==> tail[n] == rest[p - s + n];
    FirstNewlineIs(rest, p - s + n);
  }

  lemma TwoParts(text: Bytes, s: nat, p: nat, e: nat)
    requires s <= p <= e <= |text|
    ensures text[s..e] == text[s..p] + text[p..e]
  {
  }

  lemma LineContentFrom(text: Bytes, l: nat, s: nat, p: nat, n: nat)
    requires s <= p <= |text| && LineStart(text, l) == s && FirstNewline(text[s..]) == p - s + n
    ensures p + n <= |text| && LineContent(text, l) == text[s..p] + text[p..p + n]
  {
    assert text[s..][..p - s + n] == text[s..p + n];
    TwoParts(text, s, p, p + n);
  }

  lemma LineContentAround(text: Bytes, p: nat)
    requires p <= |text|
    ensures LineContent(text, LineOf(text, p))
            == text[LastLineStart(text, p)..p] + text[p..p + FirstNewline(text[p..])]
  {
    hide LineContent, LineOf, NewlineCount, LineStart, LastLineStart, FirstNewline;
    LineStartOf(text, p);
    NewlineFromLineStart(text, p);
    var s, n := LastLineStart(text, p), FirstNewline(text[p..]);
    LineContentFrom(text, LineOf(text, p), s, p, n);
  }

  /**
   * For a position between two characters, the line and column found for it
   * lead the editor's text buffer back to the same position.
   */
  lemma PositionRoundTrip(text: Bytes, p: nat)
    requires p <= |text| && ValidUtf8(text[..p]) && ValidUtf8(text[p..])
    ensures var lc := LineColumnOf(text, p);
            var q := Position(lc.line, lc.column);
            PositionOk(text, q) && Offset(text, q) == p
  {
    hide ValidUtf8, CharOffset, CharCount, LineContent, LineOf, Utf8Len, NewlineCount, LineStart;
    var s, e := LastLineStart(text, p), p + FirstNewline(text[p..]);
    var a, b := text[s..p], text[p..e];
    ValidFromLineStart(text, p);
    ValidToLineEnd(text, p);
    LineContentAround(text, p);
    LineStartOf(text, p);
    LinesAtMost(text, p);
    LenIsCharCount(a);
    ValidConcat(a, b);
    OffsetInPrefix(a, b, CharCount(a));
    OffsetOfAll(a);
  }

  // ----- tokens by line

  /** A token's range in the text; the end-of-file token covers nothing. */
  datatype Token = Token(left: int, right: int, isEof: bool)

  predicate TokenOk(text: Bytes, t: Token) { 0 <= t.left <= |text| && 0 <= t.right <= |text| }

  predicate TokensOk(text: Bytes, tokens: seq<Token>) {
    && (forall i :: 0 <= i < |tokens| ==> TokenOk(text, tokens[i]))
    && (forall i, j :: 0 <= i < j < |tokens| ==> tokens[i].left <= tokens[j].left)
  }

  /** The ranges of the map partition the tokens, each in the line of its start. */
  predicate IsTokenMap(text: Bytes, tokens: seq<Token>, m: seq<int>)
    requires TokensOk(text, tokens)
  {
    && |m| == NewlineCount(text) + 2 && m[0] == 0 && m[|m| - 1] == |tokens|
    && (forall l, k :: 0 <= l <= k < |m| ==> 0 <= m[l] <= m[k] <= |tokens|)
    && (forall l, i :: 0 <= l < |m| - 1 && 0 <= i < |tokens| ==>
          (m[l] <= i < m[l + 1] <==> LineOf(text, tokens[i].left) == l))
  }

  /** m[l] is the first token at or after the start of line l. */
  predicate CutsAt(tokens: seq<Token>, offset: int, c: int) {
    && 0 <= c <= |tokens|
    && (forall i :: 0 <= i < c ==> tokens[i].left < offset)
    && (forall i :: c <= i < |tokens| ==> offset <= tokens[i].left)
  }

  method LowerBound(tokens: seq<Token>, from: nat, offset: int) returns (c: int)
    requires from <= |tokens|
    requires forall i, j :: 0 <= i < j < |tokens| ==> tokens[i].left <= tokens[j].left
    requires forall i :: 0 <= i < from ==> tokens[i].left < offset
    ensures from <= c && CutsAt(tokens, offset, c)
  {
    var lo, hi := from, |tokens|;
    while lo < hi
      invariant from <= lo <= hi <= |tokens|
      invariant forall i :: 0 <= i < lo ==> tokens[i].left < offset
      invariant forall i :: hi <= i < |tokens| ==> offset <= tokens[i].left
    {
      var mid := (lo + hi) / 2;
      if tokens[mid].left < offset {
        lo := mid + 1;
      } else {
        hi := mid;
      }
    }
    c := lo;
  }

  predicate CutsUpTo(tokens: seq<Token>, offsets: seq<int>, m: seq<int>, n: nat) {
    n <= |m| && n <= |offsets| && forall l :: 0 <= l < n ==> CutsAt(tokens, offsets[l], m[l])
  }

  /** Tokens cut at the line starts are grouped by line. */
  lemma CutsGiveMap(text: Bytes, tokens: seq<Token>, offsets: seq<int>, m: seq<int>)
    requires TokensOk(text, tokens) && IsIndex(text, offsets)
    requires |m| == |offsets| && CutsUpTo(tokens, offsets, m, |m|)
    ensures IsTokenMap(text, tokens, m + [|tokens|])
  {
    IndexLength(text, offsets);
    var r := m + [|tokens|];
    assert CutsAt(tokens, offsets[0], m[0]);
    assert 0 < |tokens| ==> 0 <= tokens[0].left;
    forall l, k | 0 <= l <= k < |r| ensures 0 <= r[l] <= r[k] <= |tokens| {
      assert l < |m| ==> CutsAt(tokens, offsets[l], m[l]);
      assert k < |m| ==> CutsAt(tokens, offsets[k], m[k]);
      assert k < |m| && m[l] > 0 ==> tokens[m[l] - 1].left < offsets[k];
    }
    forall l, i | 0 <= l < |r| - 1 && 0 <= i < |tokens|
      ensures r[l] <= i < r[l + 1] <==> LineOf(text, tokens[i].left) == l
    {
      CutLine(text, tokens, offsets, m, l, i);
    }
  }

  lemma CutLine(text: Bytes, tokens: seq<Token>, offsets: seq<int>, m: seq<int>, l: nat, i: nat)
    requires TokensOk(text, tokens) && IsIndex(text, offsets)
    requires |m| == |offsets| && CutsUpTo(tokens, offsets, m, |m|) && l < |m| && i < |tokens|
    ensures m[l] <= i && (l + 1 < |m| ==> i < m[l + 1]) <==> LineOf(text, tokens[i].left) == l
  {
    var p := tokens[i].left;
    assert CutsAt(tokens, offsets[l], m[l]);
    assert m[l] <= i <==> offsets[l] <= p;
    if l + 1 < |m| {
      assert CutsAt(tokens, offsets[l + 1], m[l + 1]);
      assert i < m[l + 1] <==> p < offsets[l + 1];
    }
    var k := EntryBefore(offsets, p);
    LookedUp(text, offsets, p, k);
    if k == l {
    } else if k < l {
      assert offsets[k + 1] <= offsets[l];
    } else {
      assert offsets[l + 1] <= offsets[k];
    }
  }

  /** The last entry at or before p. */
  ghost function EntryBefore(offsets: seq<int>, p: nat): (k: nat)
    requires |offsets| > 0 && offsets[0] == 0 && Increasing(offsets)
    ensures k < |offsets| && offsets[k] <= p && (k + 1 < |offsets| ==> p < offsets[k + 1])
  {
    var n := |offsets| - 1;
    if n == 0 || offsets[n] <= p then n else EntryBefore(offsets[..n], p)
  }

  /** The first token of every line, and the end of the tokens. */
  method BuildTokenMap(ghost text: Bytes, tokens: seq<Token>, offsets: seq<int>) returns (m: seq<int>)
    requires TokensOk(text, tokens) && IsIndex(text, offsets)
    ensures m != [] && IsTokenMap(text, tokens, m)
  {
    hide IsIndex, IsTokenMap;
    assert Increasing(offsets) by { IndexIncreasing(text, offsets); }
    var tokenIter := 0;
    m := [];
    for l := 0 to |offsets|
      invariant 0 <= tokenIter <= |tokens| && |m| == l && CutsUpTo(tokens, offsets, m, l)
      invariant forall i :: 0 <= i < tokenIter ==> l > 0 && tokens[i].left < offsets[l - 1]
    {
      tokenIter := LowerBound(tokens, tokenIter, offsets[l]);
      m := m + [tokenIter];
    }
    CutsGiveMap(text, tokens, offsets, m);
    m := m + [|tokens|];
  }

  lemma IndexIncreasing(text: Bytes, offsets: seq<int>)
    requires IsIndex(text, offsets)
    ensures Increasing(offsets)
  {
  }

  /** A text, its tokens, and two indices built when first asked for. */
  class TextStructureView {
    var contents: Bytes
    var tokens: seq<Token>
    var linesValid: bool
    var lines: seq<Bytes>
    var lineOffsets: seq<int>
    var lineTokenMap: seq<int>

    ghost predicate Valid()
      reads this
    {
      && TokensOk(contents, tokens)
      && (linesValid ==> IsSplit(contents, lines) && IsIndex(contents, lineOffsets))
      && (lineTokenMap != [] ==> IsTokenMap(contents, tokens, lineTokenMap))
    }

    constructor (text: Bytes)
      ensures Valid() && contents == text && tokens == [] && !linesValid && lineTokenMap == []
    {
      contents, tokens, linesValid, lines, lineOffsets, lineTokenMap := text, [], false, [], [], [];
    }

    /** Replacing the tokens has to drop the token map. */
    method SetTokens(newTokens: seq<Token>)
      requires Valid() && TokensOk(contents, newTokens)
      modifies this
      ensures Valid() && tokens == newTokens && contents == old(contents)
    {
      tokens := newTokens;
      CalculateFirstTokensPerLine();
    }

    method CalculateFirstTokensPerLine()
      modifies this`lineTokenMap
      ensures lineTokenMap == []
    {
      lineTokenMap := [];
    }

    /** Fills the lines and the index unless they are still good. */
    method GetLinesInfo()
      requires Valid()
      modifies this`linesValid, this`lines, this`lineOffsets
      ensures Valid() && linesValid
    {
      if linesValid {
        return;
      }
      lines := SplitLines(contents);
      lineOffsets := IndexOfLines(lines);
      linesValid := true;
    }

    method GetLineTokenMap()
      requires Valid()
      modifies this`linesValid, this`lines, this`lineOffsets, this`lineTokenMap
      ensures Valid() && lineTokenMap != [] && IsTokenMap(contents, tokens, lineTokenMap)
    {
      if lineTokenMap != [] {
        return;
      }
      GetLinesInfo();
      lineTokenMap := BuildTokenMap(contents, tokens, lineOffsets);
    }

    /** The tokens that start on a line; none for a line beyond the text. */
    method TokenRangeOnLine(line: nat) returns (begin: int, end: int)
      requires Valid()
      modifies this`linesValid, this`lines, this`lineOffsets, this`lineTokenMap
      ensures Valid() && 0 <= begin <= end <= |tokens|
      ensures forall i :: 0 <= i < |tokens| ==> (begin <= i < end <==> LineOf(contents, tokens[i].left) == line)
    {
      GetLineTokenMap();
      if line + 1 < |lineTokenMap| {
        return lineTokenMap[line], lineTokenMap[line + 1];
      }
      forall i | 0 <= i < |tokens| ensures LineOf(contents, tokens[i].left) != line {
        LinesAtMost(contents, tokens[i].left);
      }
      return |tokens|, |tokens|;
    }

    /** The tokens that start in a range of positions. */
    method TokenRangeSpanningOffsets(lower: nat, upper: nat) returns (left: int, right: int)
      requires Valid() && lower <= upper
      ensures 0 <= left <= right <= |tokens|
      ensures forall i :: 0 <= i < |tokens| ==> (left <= i < right <==> lower <= tokens[i].left < upper)
    {
      left := LowerBound(tokens, 0, lower);
      right := LowerBound(tokens, left, upper);
    }

    ghost function Covers(t: Token, pos: LineColumn): bool
      requires TokenOk(contents, t)
      reads this
    {
      !t.isEof && InRange(LineColumnOf(contents, t.left), LineColumnOf(contents, t.right), pos)
    }

    method GetRangeForToken(t: Token) returns (start: LineColumn, end: LineColumn)
      requires Valid() && TokenOk(contents, t)
      modifies this`linesValid, this`lines, this`lineOffsets
      ensures Valid()
      ensures forall pos :: InRange(start, end, pos) <==> Covers(t, pos)
    {
      GetLinesInfo();
      if t.isEof {
        start := GetLineColAtOffset(contents, lineOffsets, |contents|);
        return start, start;
      }
      start := GetLineColAtOffset(contents, lineOffsets, t.left);
      end := GetLineColAtOffset(contents, lineOffsets, t.right);
    }

    /** The first token that covers a position among those that start on its line; -1 stands for end of file. */
    method FindTokenAt(pos: LineColumn) returns (r: int)
      requires Valid()
      modifies this`linesValid, this`lines, this`lineOffsets, this`lineTokenMap
      ensures Valid() && -1 <= r < |tokens|
      ensures forall i :: 0 <= i < |tokens| ==> TokenOk(contents, tokens[i])
      ensures r >= 0 ==> Covers(tokens[r], pos) && LineOf(contents, tokens[r].left) == pos.line && pos.column >= 0
      ensures r >= 0 ==> forall i :: 0 <= i < r && LineOf(contents, tokens[i].left) == pos.line ==> !Covers(tokens[i], pos)
      ensures r < 0 && pos.column >= 0 ==>
                forall i :: 0 <= i < |tokens| && LineOf(contents, tokens[i].left) == pos.line ==> !Covers(tokens[i], pos)
    {
      if pos.line < 0 || pos.column < 0 {
        return -1;
      }
      var begin, end := TokenRangeOnLine(pos.line);
      for i := begin to end
        invariant Valid()
        invariant forall j :: begin <= j < i ==> !Covers(tokens[j], pos)
      {
        var s, e := GetRangeForToken(tokens[i]);
        if InRange(s, e, pos) {
          return i;
        }
      }
      return -1;
    }
  }

  predicate Before(a: LineColumn, b: LineColumn) {
    a.line < b.line || (a.line == b.line && a.column < b.column)
  }

  predicate InRange(start: LineColumn, end: LineColumn, pos: LineColumn) {
    !Before(pos, start) && Before(pos, end)
  }
}

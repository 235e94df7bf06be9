/** Writing messages the way a client of the language server does, and reading them back: header lines, one of
    which announces the length of the body, an empty line, and the body. */
module MessageFraming {
  import Seqs
  import opened MessageStream

  // ----- numbers

  function Digit(d: nat): char
    requires d < 10
  {
    '0' + d as char
  }

  /** A number in decimal, without leading zeros. */
  function Decimal(n: nat): string {
    if n < 10 then [Digit(n)] else Decimal(n / 10) + [Digit(n % 10)]
  }

  predicate AllDigits(s: string) { forall i :: 0 <= i < |s| ==> IsDigit(s[i]) }

  lemma {:induction false} DecimalReadsBack(n: nat)
    ensures Decimal(n) != "" && AllDigits(Decimal(n)) && Value(Decimal(n)) == n
  {
    if n < 10 {
      assert Decimal(n)[..0] == "";
    } else {
      DecimalReadsBack(n / 10);
      assert Decimal(n)[..|Decimal(n)| - 1] == Decimal(n / 10);
    }
  }

  lemma {:induction false} DigitsEnd(digits: string, rest: string)
    requires AllDigits(digits) && (rest == "" || !IsDigit(rest[0]))
    ensures LeadingDigits(digits + rest) == digits
  {
    if digits == "" {
      assert digits + rest == rest;
    } else {
      DigitsEnd(digits[1..], rest);
      assert (digits + rest)[1..] == digits[1..] + rest;
    }
  }

  // ----- header lines

  const LINE_END: string := "\r\n"

  predicate IsHeaderLine(l: string) { l != "" && '\r' !in l && '\n' !in l }

  predicate AreHeaderLines(lines: seq<string>) { forall i :: 0 <= i < |lines| ==> IsHeaderLine(lines[i]) }

  /** The lines of a header, one below the other. */
  function Head(lines: seq<string>): string {
    if lines == [] then "" else if |lines| == 1 then lines[0] else lines[0] + LINE_END + Head(lines[1..])
  }

  /** Every line break is followed by a character that starts a line. */
  predicate NoEmptyLine(s: string) {
    && s != "" && s[|s| - 1] != '\r' && s[|s| - 1] != '\n' && s[0] != '\r' && s[0] != '\n'
    && forall j :: 0 <= j < |s| && s[j] == '\n' ==> j + 1 < |s| && s[j + 1] != '\r'
  }

  lemma {:induction false} HeadHasNoEmptyLine(lines: seq<string>)
    requires lines != [] && AreHeaderLines(lines)
    ensures NoEmptyLine(Head(lines))
  {
    var l := lines[0];
    assert IsHeaderLine(l);
    assert l[0] in l && l[|l| - 1] in l;
    if |lines| > 1 {
      HeadHasNoEmptyLine(lines[1..]);
      var s, t := Head(lines), Head(lines[1..]);
      assert forall i :: 0 <= i < |l| ==> s[i] == l[i] && l[i] in l;
      forall j | 0 <= j < |s| && s[j] == '\n' ensures j + 1 < |s| && s[j + 1] != '\r' {
        if j >= |l| + 2 {
          assert s[j] == t[j - |l| - 2];
          assert s[j + 1] == t[j - |l| - 1];
        }
      }
    }
  }

  /** The header ends at its first empty line. */
  lemma EndFound(head: string, rest: string)
    requires NoEmptyLine(head)
    ensures Find(head + END_HEADER_MARKER + rest, END_HEADER_MARKER) == |head|
  {
    var s, m := head + END_HEADER_MARKER + rest, END_HEADER_MARKER;
    assert s[|head|..|head| + 4] == m;
    assert forall i :: 0 <= i < |head| ==> s[i] == head[i];
    forall j | 0 <= j < |head| ensures !OccursAt(s, m, j) {
      if OccursAt(s, m, j) {
        EndMarkerAt(s, j);
      }
    }
    FirstIs(s, m, |head|);
  }

  lemma EndMarkerAt(s: string, j: int)
    requires OccursAt(s, END_HEADER_MARKER, j)
    ensures s[j] == '\r' && s[j + 1] == '\n' && s[j + 2] == '\r'
  {
    var t := s[j..j + 4];
    assert t[0] == s[j] && t[1] == s[j + 1] && t[2] == s[j + 2];
  }

  lemma FirstIs(text: string, pattern: string, r: nat)
    requires OccursAt(text, pattern, r) && forall j :: 0 <= j < r ==> !OccursAt(text, pattern, j)
    ensures Find(text, pattern) == r
  {
  }

  ghost predicate Contains(text: string, pattern: string) { exists j :: OccursAt(text, pattern, j) }

  /** A pattern without line ends is found within lines only. */
  lemma WithinLine(l: string, rest: string, pattern: string, j: int)
    requires pattern != "" && '\r' !in pattern && '\n' !in pattern && OccursAt(l + LINE_END + rest, pattern, j)
    ensures OccursAt(l, pattern, j) || OccursAt(rest, pattern, j - |l| - 2)
  {
    var s, k := l + LINE_END + rest, |l|;
    assert s[k] == '\r' && s[k + 1] == '\n';
    if j <= k < j + |pattern| {
      CharOf(s, pattern, j, k - j);
    } else if j == k + 1 {
      CharOf(s, pattern, j, 0);
    } else if j < k {
      assert l[j..j + |pattern|] == s[j..j + |pattern|];
    } else {
      assert rest[j - k - 2..j - k - 2 + |pattern|] == s[j..j + |pattern|];
    }
  }

  lemma CharOf(s: string, pattern: string, j: int, i: int)
    requires OccursAt(s, pattern, j) && 0 <= i < |pattern|
    ensures s[j + i] in pattern
  {
    assert s[j..j + |pattern|][i] == s[j + i];
  }

  lemma BehindLine(l: string, rest: string, pattern: string, j: nat)
    requires OccursAt(rest, pattern, j)
    ensures OccursAt(l + LINE_END + rest, pattern, |l| + 2 + j)
  {
    var s := l + LINE_END + rest;
    assert s[|l| + 2..] == rest;
    assert s[|l| + 2 + j..|l| + 2 + j + |pattern|] == rest[j..j + |pattern|];
  }

  /** A line that does not hold the pattern shifts what is found. */
  lemma FindBehindLine(l: string, rest: string, pattern: string)
    requires pattern != "" && '\r' !in pattern && '\n' !in pattern && !Contains(l, pattern)
    ensures Find(l + LINE_END + rest, pattern) == if Find(rest, pattern) == -1 then -1 else |l| + 2 + Find(rest, pattern)
  {
    var s, r := l + LINE_END + rest, Find(rest, pattern);
    forall j: int | OccursAt(s, pattern, j) ensures r != -1 && |l| + 2 + r <= j {
      WithinLine(l, rest, pattern, j);
    }
    if r != -1 {
      BehindLine(l, rest, pattern, r);
      FirstIs(s, pattern, |l| + 2 + r);
    }
  }

  lemma KeyIsPlain()
    ensures CONTENT_LENGTH_HEADER != "" && '\r' !in CONTENT_LENGTH_HEADER && '\n' !in CONTENT_LENGTH_HEADER
  {
  }

  ghost predicate NoLength(lines: seq<string>) {
    forall i :: 0 <= i < |lines| ==> !Contains(lines[i], CONTENT_LENGTH_HEADER)
  }

  lemma {:induction false} KeyNotFound(lines: seq<string>)
    requires NoLength(lines)
    ensures Find(Head(lines), CONTENT_LENGTH_HEADER) == -1
  {
    if |lines| == 1 {
      assert !Contains(lines[0], CONTENT_LENGTH_HEADER);
    } else if |lines| > 1 {
      KeyNotFound(lines[1..]);
      KeyIsPlain();
      FindBehindLine(lines[0], Head(lines[1..]), CONTENT_LENGTH_HEADER);
    }
  }

  function LengthLine(n: nat): string { CONTENT_LENGTH_HEADER + Decimal(n) }

  /** The first line that announces a length is found, and its digits end with it. */
  lemma {:induction false} KeyFound(before: seq<string>, n: nat, after: seq<string>)
    requires NoLength(before)
    ensures var head := Head(before + [LengthLine(n)] + after);
            var key := Find(head, CONTENT_LENGTH_HEADER);
            && key != -1 && key + |CONTENT_LENGTH_HEADER| <= |head|
            && LeadingDigits(head[key + |CONTENT_LENGTH_HEADER|..]) == Decimal(n)
  {
    var lines := before + [LengthLine(n)] + after;
    if before == [] {
      assert lines == [LengthLine(n)] + after;
      KeyInFirstLine(n, after);
    } else {
      hide Find, LengthLine, LeadingDigits;
      var l := before[0];
      assert lines[1..] == before[1..] + [LengthLine(n)] + after;
      KeyFound(before[1..], n, after);
      KeyIsPlain();
      var rest := Head(lines[1..]);
      FindBehindLine(l, rest, CONTENT_LENGTH_HEADER);
      RestBehind(l, rest, Find(rest, CONTENT_LENGTH_HEADER) + |CONTENT_LENGTH_HEADER|);
    }
  }

  lemma RestBehind(l: string, rest: string, k: nat)
    requires k <= |rest|
    ensures (l + LINE_END + rest)[|l| + 2 + k..] == rest[k..]
  {
  }

  lemma KeyInFirstLine(n: nat, after: seq<string>)
    ensures var head := Head([LengthLine(n)] + after);
            && Find(head, CONTENT_LENGTH_HEADER) == 0 && |CONTENT_LENGTH_HEADER| <= |head|
            && LeadingDigits(head[|CONTENT_LENGTH_HEADER|..]) == Decimal(n)
  {
    hide Find, Decimal, LeadingDigits;
    var lines, pattern := [LengthLine(n)] + after, CONTENT_LENGTH_HEADER;
    assert lines[1..] == after;
    var rest := if after == [] then "" else LINE_END + Head(after);
    DecimalReadsBack(n);
    DigitsEnd(Decimal(n), rest);
    FirstLine(lines, pattern, Decimal(n), rest);
  }

  lemma FirstLine(lines: seq<string>, pattern: string, digits: string, rest: string)
    requires lines != [] && lines[0] == pattern + digits
    requires rest == if lines[1..] == [] then "" else LINE_END + Head(lines[1..])
    ensures var head := Head(lines);
            Find(head, pattern) == 0 && |pattern| <= |head| && head[|pattern|..] == digits + rest
  {
    hide Find;
    var head := Head(lines);
    assert head == pattern + (digits + rest);
    assert head[0..|pattern|] == pattern;
    FirstIs(head, pattern, 0);
  }

  // ----- what a header announces

  /** A header with a length announces just that, if it is not too large; otherwise it is garbled. */
  lemma AnnouncesLength(before: seq<string>, n: nat, after: seq<string>, rest: string)
    requires AreHeaderLines(before) && AreHeaderLines(after) && NoLength(before)
    ensures var head := Head(before + [LengthLine(n)] + after);
            ParseHeader(head + END_HEADER_MARKER + rest)
            == if n <= MAX_INT then Complete(|head| + |END_HEADER_MARKER|, n) else Garbled
  {
    hide Head, Find, Decimal, LeadingDigits, Value, LengthLine, NoEmptyLine, IsHeaderLine, NoLength;
    var lines := before + [LengthLine(n)] + after;
    LengthLineOk(n);
    assert AreHeaderLines(lines);
    HeadHasNoEmptyLine(lines);
    KeyFound(before, n, after);
    DecimalReadsBack(n);
    var head := Head(lines);
    EndFound(head, rest);
    assert (head + END_HEADER_MARKER + rest)[..|head|] == head;
  }

  lemma LengthLineOk(n: nat)
    ensures IsHeaderLine(LengthLine(n))
  {
    DecimalReadsBack(n);
    KeyIsPlain();
    var l := LengthLine(n);
    forall i | 0 <= i < |l| ensures l[i] != '\r' && l[i] != '\n' {
      if i < |CONTENT_LENGTH_HEADER| {
        assert l[i] == CONTENT_LENGTH_HEADER[i];
      } else {
        assert l[i] == Decimal(n)[i - |CONTENT_LENGTH_HEADER|];
      }
    }
  }

  /** A header without a length is garbled. */
  lemma WithoutLengthGarbled(lines: seq<string>, rest: string)
    requires lines != [] && AreHeaderLines(lines) && NoLength(lines)
    ensures ParseHeader(Head(lines) + END_HEADER_MARKER + rest) == Garbled
  {
    var head := Head(lines);
    HeadHasNoEmptyLine(lines);
    KeyNotFound(lines);
    EndFound(head, rest);
    assert (head + END_HEADER_MARKER + rest)[..|head|] == head;
  }

  // ----- messages

  /** A message as it is sent: other header lines may stand before and after the length. */
  datatype Sent = Sent(before: seq<string>, after: seq<string>, body: string) {
    ghost predicate Ok() { AreHeaderLines(before) && AreHeaderLines(after) && NoLength(before) && |body| <= MAX_INT }

    function Header(): string { Head(before + [LengthLine(|body|)] + after) + END_HEADER_MARKER }
  }

  /** Reading a message back: it comes out as it was sent, and reading goes on behind it. */
  lemma MessageReadsBack(m: Sent, rest: string)
    requires m.Ok()
    ensures Parse(m.Header() + m.body + rest) == Then(Parsed([Message(m.Header(), m.body)], "", false), Parse(rest))
  {
    var head := Head(m.before + [LengthLine(|m.body|)] + m.after);
    var stream, h := m.Header() + m.body + rest, m.Header();
    AnnouncesLength(m.before, |m.body|, m.after, m.body + rest);
    assert stream == head + END_HEADER_MARKER + (m.body + rest);
    hide ParseHeader, Parse;
    ParseFirst(stream);
    assert stream[..|h|] == h && stream[|h|..|h| + |m.body|] == m.body && stream[|h| + |m.body|..] == rest;
  }

  function Wire(ms: seq<Sent>): string {
    if ms == [] then "" else ms[0].Header() + ms[0].body + Wire(ms[1..])
  }

  function Received(ms: seq<Sent>): (r: seq<Message>)
    ensures |r| == |ms|
  {
    seq(|ms|, i requires 0 <= i < |ms| => Message(ms[i].Header(), ms[i].body))
  }

  /** Whatever is sent is received, message by message, with nothing left over. */
  lemma {:induction false} RoundTrip(ms: seq<Sent>)
    requires forall i :: 0 <= i < |ms| ==> ms[i].Ok()
    ensures Parse(Wire(ms)) == Parsed(Received(ms), "", false)
  {
    if ms != [] {
      hide Parse, Head, LengthLine, AreHeaderLines, NoLength, Received, Sent.Ok, Sent.Header;
      MessageReadsBack(ms[0], Wire(ms[1..]));
      RoundTrip(ms[1..]);
      FirstReceived(ms);
    }
  }

  lemma FirstReceived(ms: seq<Sent>)
    requires ms != []
    ensures Received(ms) == [Message(ms[0].Header(), ms[0].body)] + Received(ms[1..])
  {
    hide Sent.Header;
  }

  /** Reading a stream of messages in any division into reads, the messages come out as they were sent. */
  lemma ReceivedHoweverDivided(ms: seq<Sent>, chunks: seq<string>)
    requires (forall i :: 0 <= i < |ms| ==> ms[i].Ok()) && Concat(chunks) == Wire(ms)
    ensures Feed(chunks) == Parsed(Received(ms), "", false)
  {
    RoundTrip(ms);
    DivisionDoesNotMatter(chunks);
  }
}

/** Framing of language-server messages (verible/common/lsp/message-stream-splitter.cc). */
module MessageStream {
  import Seqs

  /** A header, up to and including the empty line that ends it, and a body. */
  datatype Message = Message(header: string, body: string)

  const END_HEADER_MARKER: string := "\r\n\r\n"
  const CONTENT_LENGTH_HEADER: string := "Content-Length: "
  const MAX_INT: int := 0x7fff_ffff

  // ----- finding text

  predicate OccursAt(text: string, pattern: string, i: int) {
    0 <= i <= i + |pattern| <= |text| && text[i..i + |pattern|] == pattern
  }

  /** The first occurrence of pattern at or after position i, or -1. */
  function FindFrom(text: string, pattern: string, i: nat): (r: int)
    ensures r == -1 || (i <= r && OccursAt(text, pattern, r))
    ensures forall j :: i <= j && (r == -1 || j < r) ==> !OccursAt(text, pattern, j)
    decreases |text| - i
  {
    if i + |pattern| > |text| then -1
    else if OccursAt(text, pattern, i) then i
    else if i == |text| then -1
    else FindFrom(text, pattern, i + 1)
  }

  function Find(text: string, pattern: string): int { FindFrom(text, pattern, 0) }

  /** An occurrence is found in the same place however much text follows. */
  lemma FindExtends(text: string, more: string, pattern: string)
    requires Find(text, pattern) != -1
    ensures Find(text + more, pattern) == Find(text, pattern)
  {
    var r, r' := Find(text, pattern), Find(text + more, pattern);
    assert (text + more)[r..r + |pattern|] == text[r..r + |pattern|];
    assert OccursAt(text + more, pattern, r);
    assert r' != -1 && r' <= r;
    assert text[r'..r' + |pattern|] == (text + more)[r'..r' + |pattern|];
    assert OccursAt(text, pattern, r');
  }

  // ----- the header

  datatype Header = Incomplete | Garbled | Complete(bodyOffset: nat, bodySize: nat)

  predicate IsDigit(c: char) { '0' <= c <= '9' }

  /** The digits a text starts with. */
  function LeadingDigits(s: string): (r: string)
    ensures forall i :: 0 <= i < |r| ==> IsDigit(r[i])
    ensures r <= s
  {
    if s == "" || !IsDigit(s[0]) then "" else [s[0]] + LeadingDigits(s[1..])
  }

  function Value(digits: string): nat
    requires forall i :: 0 <= i < |digits| ==> IsDigit(digits[i])
  {
    if digits == "" then 0
    else assert IsDigit(digits[|digits| - 1]); 10 * Value(digits[..|digits| - 1]) + (digits[|digits| - 1] as int - '0' as int)
  }

  /** ParseHeaderGetBodyOffset */
  function ParseHeader(data: string): (h: Header)
    ensures h.Complete? ==> |END_HEADER_MARKER| <= h.bodyOffset <= |data|
  {
    var endOfHeader := Find(data, END_HEADER_MARKER);
    if endOfHeader == -1 then Incomplete
    else
      var content := data[..endOfHeader];
      var key := Find(content, CONTENT_LENGTH_HEADER);
      if key == -1 then Garbled
      else
        var digits := LeadingDigits(content[key + |CONTENT_LENGTH_HEADER|..]);
        if digits == "" || Value(digits) > MAX_INT then Garbled
        else Complete(endOfHeader + |END_HEADER_MARKER|, Value(digits))
  }

  lemma HeaderExtends(data: string, more: string)
    requires ParseHeader(data) != Incomplete
    ensures ParseHeader(data + more) == ParseHeader(data)
  {
    FindExtends(data, more, END_HEADER_MARKER);
    var e := Find(data, END_HEADER_MARKER);
    assert (data + more)[..e] == data[..e];
  }

  // ----- the simple definition: parsing a whole stream at once

  /** The messages of a stream, what is left over, and whether a header was garbled there. */
  datatype Parsed = Parsed(messages: seq<Message>, rest: string, garbled: bool)

  function Parse(stream: string): (r: Parsed)
    decreases |stream|
  {
    if stream == "" then Parsed([], "", false)
    else
      match ParseHeader(stream)
      case Incomplete => Parsed([], stream, false)
      case Garbled => Parsed([], stream, true)
      case Complete(offset, size) =>
        if offset + size > |stream| then Parsed([], stream, false)
        else
          var later := Parse(stream[offset + size..]);
          later.(messages := [Message(stream[..offset], stream[offset..offset + size])] + later.messages)
  }

  /** later goes on where r left off. */
  function Then(r: Parsed, later: Parsed): Parsed {
    later.(messages := r.messages + later.messages)
  }

  /** A stream that starts with a whole message. */
  predicate StartsWithMessage(stream: string) {
    stream != "" && ParseHeader(stream).Complete?
    && ParseHeader(stream).bodyOffset + ParseHeader(stream).bodySize <= |stream|
  }

  function FirstSize(stream: string): (n: nat)
    requires StartsWithMessage(stream)
    ensures 0 < n <= |stream|
  {
    ParseHeader(stream).bodyOffset + ParseHeader(stream).bodySize
  }

  function FirstMessage(stream: string): Message
    requires StartsWithMessage(stream)
  {
    var h := ParseHeader(stream);
    Message(stream[..h.bodyOffset], stream[h.bodyOffset..h.bodyOffset + h.bodySize])
  }

  lemma ParseFirst(stream: string)
    ensures StartsWithMessage(stream) ==>
              Parse(stream) == Then(Parsed([FirstMessage(stream)], "", false), Parse(stream[FirstSize(stream)..]))
    ensures !StartsWithMessage(stream) ==>
              Parse(stream) == Parsed([], stream, stream != "" && ParseHeader(stream).Garbled?)
  {
    hide ParseHeader;
  }

  lemma FirstExtends(stream: string, more: string)
    requires StartsWithMessage(stream)
    ensures StartsWithMessage(stream + more) && FirstMessage(stream + more) == FirstMessage(stream)
    ensures FirstSize(stream + more) == FirstSize(stream)
    ensures (stream + more)[FirstSize(stream)..] == stream[FirstSize(stream)..] + more
  {
    hide ParseHeader;
    HeaderExtends(stream, more);
    MessageExtends(stream, more, ParseHeader(stream).bodyOffset, FirstSize(stream));
  }

  /** Parsing can stop anywhere and go on later with what was left over. */
  lemma {:induction false} ParseExtends(stream: string, more: string)
    ensures var r, whole := Parse(stream), Parse(stream + more);
            if r.garbled then whole == r.(rest := r.rest + more) else whole == Then(r, Parse(r.rest + more))
    decreases |stream|
  {
    hide ParseHeader, Parse, FirstMessage, FirstSize, StartsWithMessage;
    ParseFirst(stream);
    ParseFirst(stream + more);
    if StartsWithMessage(stream) {
      FirstExtends(stream, more);
      ParseExtends(stream[FirstSize(stream)..], more);
    } else if Parse(stream).garbled {
      HeaderExtends(stream, more);
      assert StartsWithMessage(stream + more) == false by { GarbledStays(stream + more); }
    }
  }

  lemma GarbledStays(stream: string)
    requires ParseHeader(stream).Garbled?
    ensures !StartsWithMessage(stream)
  {
  }

  lemma MessageExtends(stream: string, more: string, offset: nat, n: nat)
    requires offset <= n <= |stream|
    ensures (stream + more)[n..] == stream[n..] + more
    ensures (stream + more)[..offset] == stream[..offset]
    ensures (stream + more)[offset..n] == stream[offset..n]
  {
  }

  function Concat(chunks: seq<string>): string {
    if chunks == [] then "" else Concat(chunks[..|chunks| - 1]) + chunks[|chunks| - 1]
  }

  /** Reading chunk by chunk, carrying over what is left; a garbled header ends it. */
  function Feed(chunks: seq<string>): Parsed {
    if chunks == [] then Parsed([], "", false)
    else
      var before, chunk := Feed(chunks[..|chunks| - 1]), chunks[|chunks| - 1];
      if before.garbled then before.(rest := before.rest + chunk)
      else
        Then(before, Parse(before.rest + chunk))
  }

  /** However a stream is divided into reads, the same messages come out of it. */
  lemma {:induction false} DivisionDoesNotMatter(chunks: seq<string>)
    ensures Feed(chunks) == Parse(Concat(chunks))
  {
    if chunks != [] {
      var init := chunks[..|chunks| - 1];
      DivisionDoesNotMatter(init);
      ParseExtends(Concat(init), chunks[|chunks| - 1]);
    }
  }

  // ----- nothing is lost

  function TotalLength(ms: seq<Message>): nat {
    if ms == [] then 0 else TotalLength(ms[1..]) + |ms[0].header| + |ms[0].body|
  }

  function Spelled(ms: seq<Message>): string {
    if ms == [] then "" else ms[0].header + ms[0].body + Spelled(ms[1..])
  }

  lemma OneMore(m: Message, ms: seq<Message>)
    ensures Spelled([m] + ms) == m.header + m.body + Spelled(ms)
    ensures TotalLength([m] + ms) == TotalLength(ms) + |m.header| + |m.body|
  {
    assert ([m] + ms)[1..] == ms;
  }

  lemma MessageSpelled(stream: string)
    requires StartsWithMessage(stream)
    ensures stream == FirstMessage(stream).header + FirstMessage(stream).body + stream[FirstSize(stream)..]
  {
    hide ParseHeader;
    var h := ParseHeader(stream);
    var n := h.bodyOffset + h.bodySize;
    assert stream[..h.bodyOffset] + stream[h.bodyOffset..n] == stream[..n];
  }

  /** The delivered messages and the rest spell out the stream, byte for byte. */
  lemma {:induction false} NothingIsLost(stream: string)
    ensures stream == Spelled(Parse(stream).messages) + Parse(stream).rest
    ensures |stream| == TotalLength(Parse(stream).messages) + |Parse(stream).rest|
    decreases |stream|
  {
    hide ParseHeader, Parse, FirstMessage, FirstSize, StartsWithMessage;
    ParseFirst(stream);
    if StartsWithMessage(stream) {
      var m, n := FirstMessage(stream), FirstSize(stream);
      var later := Parse(stream[n..]);
      NothingIsLost(stream[n..]);
      MessageSpelled(stream);
      OneMore(m, later.messages);
      Seqs.Associative(m.header + m.body, Spelled(later.messages), later.rest);
    }
  }

  /** Every delivered message has a header that announces the length of its body. */
  lemma {:induction false} EveryMessageIsFramed(stream: string)
    ensures forall m :: m in Parse(stream).messages ==> ParseHeader(m.header) == Complete(|m.header|, |m.body|)
    decreases |stream|
  {
    hide ParseHeader;
    if stream != "" {
      var h := ParseHeader(stream);
      if h.Complete? && h.bodyOffset + h.bodySize <= |stream| {
        EveryMessageIsFramed(stream[h.bodyOffset + h.bodySize..]);
        HeaderAlone(stream);
      }
    }
  }

  lemma HeaderAlone(stream: string)
    requires ParseHeader(stream).Complete?
    ensures ParseHeader(stream[..ParseHeader(stream).bodyOffset]) == ParseHeader(stream)
  {
    var e := Find(stream, END_HEADER_MARKER);
    var short := stream[..e + |END_HEADER_MARKER|];
    assert short[e..e + |END_HEADER_MARKER|] == stream[e..e + |END_HEADER_MARKER|];
    assert OccursAt(short, END_HEADER_MARKER, e);
    assert stream == short + stream[|short|..];
    FindExtends(short, stream[|short|..], END_HEADER_MARKER);
    assert short[..e] == stream[..e];
  }

  function LargestBody(ms: seq<Message>): nat {
    if ms == [] then 0 else
      var m := LargestBody(ms[..|ms| - 1]);
      if |ms[|ms| - 1].body| > m then |ms[|ms| - 1].body| else m
  }

  // ----- the splitter

  datatype Status = Ok | InvalidArgument | DataLoss | Unavailable

  class MessageStreamSplitter {
    var bufferSize: nat
    var pending: string
    var totalBytesRead: nat
    var largestBody: nat
    var delivered: seq<Message>  // what the message processor was called with
    ghost var stream: string     // everything read so far

    /** The state is a function of the stream alone. */
    ghost predicate Valid()
      reads this
    {
      && Parse(stream) == Parsed(delivered, pending, false)
      && totalBytesRead == |stream|
      && |pending| <= bufferSize
      && largestBody == LargestBody(delivered)
    }

    constructor (initialBufferSize: nat)
      ensures Valid() && stream == "" && bufferSize == initialBufferSize
    {
      bufferSize, pending, totalBytesRead, largestBody, delivered, stream := initialBufferSize, "", 0, 0, [], "";
    }

    /** The room that the next read may fill. */
    function FreeSpace(): (n: nat)
      requires |pending| <= bufferSize
      reads this
    {
      (if |pending| == bufferSize then 2 * bufferSize else bufferSize) - |pending|
    }

    /** Delivers all complete messages of data; what remains is returned. */
    method ProcessContainedMessages(data0: string) returns (data: string, status: Status)
      requires largestBody == LargestBody(delivered)
      modifies this`delivered, this`largestBody
      ensures delivered == old(delivered) + Parse(data0).messages && data == Parse(data0).rest
      ensures status == if Parse(data0).garbled then InvalidArgument else Ok
      ensures largestBody == LargestBody(delivered)
    {
      hide ParseHeader;
      data := data0;
      while data != ""
        invariant delivered + Parse(data).messages == old(delivered) + Parse(data0).messages
        invariant Parse(data).rest == Parse(data0).rest && Parse(data).garbled == Parse(data0).garbled
        invariant largestBody == LargestBody(delivered)
        decreases |data|
      {
        var header := ParseHeader(data);
        if header.Garbled? {
          return data, InvalidArgument;
        }
        if header.Incomplete? || header.bodyOffset + header.bodySize > |data| {
          return data, Ok;
        }
        var messageSize := header.bodyOffset + header.bodySize;
        var message := Message(data[..header.bodyOffset], data[header.bodyOffset..messageSize]);
        ghost var later := Parse(data[messageSize..]).messages;
        assert delivered + ([message] + later) == (delivered + [message]) + later;
        assert (delivered + [message])[..|delivered|] == delivered;
        delivered := delivered + [message];
        largestBody := if |message.body| > largestBody then |message.body| else largestBody;
        data := data[messageSize..];
      }
      return data, Ok;
    }

    /** Takes what one read delivered, at most as much as there is room for. */
    method ReadInput(chunk: string) returns (status: Status)
      requires Valid() && |chunk| <= FreeSpace()
      modifies this
      ensures chunk == "" ==> stream == old(stream) && delivered == old(delivered) && Valid()
      ensures chunk == "" ==> status == if old(pending) != "" then DataLoss else Unavailable
      ensures chunk != "" ==> stream == old(stream) + chunk && delivered == Parse(stream).messages
      ensures chunk != "" ==> status == if Parse(stream).garbled then InvalidArgument else Ok
      ensures status == Ok ==> Valid()
      ensures chunk != "" ==> totalBytesRead == |stream|
    {
      hide Parse;
      if |pending| == bufferSize {
        bufferSize := 2 * bufferSize;
      }
      if chunk == "" {
        return if pending != "" then DataLoss else Unavailable;
      }
      totalBytesRead := totalBytesRead + |chunk|;
      ParseExtends(stream, chunk);
      NothingIsLost(pending + chunk);
      var data;
      data, status := ProcessContainedMessages(pending + chunk);
      stream := stream + chunk;
      if status == Ok {
        pending := data;
      }
    }
  }
}

/** Characters of UTF-8 text (verible/common/strings/utf8.h, section 3 of RFC 3629). */
module Utf8 {
  import Seqs

  type Byte = b: int | 0 <= b < 256
  type Bytes = seq<Byte>

  const NEWLINE: Byte := 10

  predicate IsContinuation(b: Byte) { 128 <= b < 192 }

  /** The number of bytes of a character that starts with b, or 0. */
  function CharLen(b: Byte): nat {
    if b < 128 then 1 else if 192 <= b < 224 then 2 else if 224 <= b < 240 then 3 else if 240 <= b < 248 then 4 else 0
  }

  /** s starts with one whole character. */
  predicate StartsWithChar(s: Bytes) {
    s != [] && 0 < CharLen(s[0]) <= |s| && forall i :: 0 < i < CharLen(s[0]) ==> IsContinuation(s[i])
  }

  predicate ValidUtf8(s: Bytes)
    decreases |s|
  {
    s == [] || (StartsWithChar(s) && ValidUtf8(s[CharLen(s[0])..]))
  }

  function CharCount(s: Bytes): nat
    requires ValidUtf8(s)
    decreases |s|
  {
    if s == [] then 0 else 1 + CharCount(s[CharLen(s[0])..])
  }

  /** The byte position after c characters, or the end of the text. */
  function CharOffset(s: Bytes, c: nat): (n: nat)
    requires ValidUtf8(s)
    ensures n <= |s|
    decreases |s|
  {
    if c == 0 || s == [] then 0 else CharLen(s[0]) + CharOffset(s[CharLen(s[0])..], c - 1)
  }

  lemma StartConcat(s: Bytes, t: Bytes)
    requires StartsWithChar(s)
    ensures StartsWithChar(s + t) && (s + t)[0] == s[0]
  {
  }

  lemma {:induction false} ValidConcat(s: Bytes, t: Bytes)
    requires ValidUtf8(s) && ValidUtf8(t)
    ensures ValidUtf8(s + t) && CharCount(s + t) == CharCount(s) + CharCount(t)
    decreases |s|
  {
    if s == [] {
      assert s + t == t;
    } else {
      var n := CharLen(s[0]);
      ValidConcat(s[n..], t);
      StartConcat(s, t);
      hide CharLen, StartsWithChar;
      Seqs.DropOfConcat(s, t, n);
    }
  }

  /** Going one character further. */
  lemma OffsetStep(s: Bytes, c: nat)
    requires ValidUtf8(s) && s != [] && c > 0
    ensures var n := CharLen(s[0]);
            && StartsWithChar(s) && 0 < n <= |s| && ValidUtf8(s[n..])
            && CharOffset(s, c) == n + CharOffset(s[n..], c - 1)
  {
  }

  lemma NoOffset(s: Bytes, c: nat)
    requires ValidUtf8(s) && (s == [] || c == 0)
    ensures CharOffset(s, c) == 0 && s[..0] == [] && ValidUtf8(s[..0]) && s[0..] == s
  {
  }

  /** Text cut between characters is valid on both sides. */
  lemma {:induction false} CutBetweenChars(s: Bytes, c: nat)
    requires ValidUtf8(s)
    ensures ValidUtf8(s[..CharOffset(s, c)]) && ValidUtf8(s[CharOffset(s, c)..])
    decreases |s|
  {
    hide ValidUtf8, CharOffset, CharLen, StartsWithChar;
    if c == 0 || s == [] {
      NoOffset(s, c);
    } else {
      OffsetStep(s, c);
      var n := CharLen(s[0]);
      var tail := s[n..];
      var k := CharOffset(tail, c - 1);
      CutBetweenChars(tail, c - 1);
      SingleChar(s);
      Seqs.CutInTail(s, n, k);
      ValidConcat(s[..n], tail[..k]);
    }
  }

  lemma SingleChar(s: Bytes)
    requires StartsWithChar(s)
    ensures ValidUtf8(s[..CharLen(s[0])]) && CharCount(s[..CharLen(s[0])]) == 1
  {
    var t := s[..CharLen(s[0])];
    assert t[CharLen(t[0])..] == [];
  }

  lemma FirstCharOf(s: Bytes, t: Bytes)
    requires s != [] && ValidUtf8(s) && ValidUtf8(s + t)
    ensures var n := CharLen(s[0]);
            && 0 < n <= |s| && ValidUtf8(s[n..]) && CharLen((s + t)[0]) == n && (s + t)[n..] == s[n..] + t
            && CharCount(s) == 1 + CharCount(s[n..])
  {
  }

  /** Offsets within the first part do not depend on what follows. */
  lemma {:induction false} OffsetInPrefix(s: Bytes, t: Bytes, c: nat)
    requires ValidUtf8(s) && ValidUtf8(t) && c <= CharCount(s)
    ensures ValidUtf8(s + t) && CharOffset(s + t, c) == CharOffset(s, c)
    decreases |s|
  {
    ValidConcat(s, t);
    if s != [] && c != 0 {
      var n := CharLen(s[0]);
      hide ValidUtf8, CharLen;
      FirstCharOf(s, t);
      OffsetInPrefix(s[n..], t, c - 1);
    }
  }

  // ----- the operations

  /** utf8_len: the number of bytes that are not continuation bytes. */
  function Utf8Len(s: Bytes): nat {
    if s == [] then 0 else (if IsContinuation(s[0]) then 0 else 1) + Utf8Len(s[1..])
  }

  lemma {:induction false} LenConcat(s: Bytes, t: Bytes)
    ensures Utf8Len(s + t) == Utf8Len(s) + Utf8Len(t)
  {
    if s == [] {
      assert s + t == t;
    } else {
      LenConcat(s[1..], t);
      assert (s + t)[1..] == s[1..] + t;
    }
  }

  lemma {:induction false} ContinuationsHaveNoLength(s: Bytes)
    requires forall i :: 0 <= i < |s| ==> IsContinuation(s[i])
    ensures Utf8Len(s) == 0
  {
    if s != [] {
      ContinuationsHaveNoLength(s[1..]);
    }
  }

  /** Counting bytes counts characters. */
  lemma {:induction false} LenIsCharCount(s: Bytes)
    requires ValidUtf8(s)
    ensures Utf8Len(s) == CharCount(s)
    decreases |s|
  {
    if s != [] {
      var n := CharLen(s[0]);
      LenIsCharCount(s[n..]);
      assert s == s[..n] + s[n..];
      LenConcat(s[..n], s[n..]);
      var more := s[..n][1..];
      forall i | 0 <= i < |more| ensures IsContinuation(more[i]) {
        assert more[i] == s[i + 1];
      }
      ContinuationsHaveNoLength(more);
    }
  }

  /** How many more bytes utf8_substr expects after byte b. */
  function Extra(b: Byte): nat {
    if 192 <= b < 224 then 1 else if 224 <= b < 240 then 2 else if 240 <= b < 248 then 3 else 0
  }

  /** The loop of utf8_substr as a recursion. */
  function Skip(s: Bytes, remaining: nat): Bytes
    decreases |s|
  {
    if remaining == 0 || s == [] then s else Skip(s[1..], remaining + Extra(s[0]) - 1)
  }

  /** The bytes that the bytes of s announce to follow. */
  function Announced(s: Bytes): nat {
    if s == [] then 0 else Announced(s[..|s| - 1]) + Extra(s[|s| - 1])
  }

  /** n bytes are skipped for c characters: the first n at which no byte is outstanding, counting one for each
      character and those announced by the bytes skipped, or all of them. This holds of any bytes. */
  predicate Skips(s: Bytes, c: nat, n: nat) {
    && n <= |s|
    && (forall m :: 0 <= m < n ==> m < c + Announced(s[..m]))
    && (n < |s| ==> n == c + Announced(s[..n]))
  }

  /** utf8_substr with a start */
  method Utf8Substr(s: Bytes, characterPos: nat) returns (r: Bytes)
    ensures |r| <= |s| && r == s[|s| - |r|..] && Skips(s, characterPos, |s| - |r|)
    ensures ValidUtf8(s) ==> r == s[CharOffset(s, characterPos)..]
  {
    var remaining, it := characterPos, 0;
    assert s[0..] == s;
    while remaining != 0 && it != |s|
      invariant 0 <= it <= |s| && 0 <= remaining == characterPos + Announced(s[..it]) - it
      invariant forall m :: 0 <= m < it ==> m < characterPos + Announced(s[..m])
      invariant Skip(s[it..], remaining) == Skip(s, characterPos)
      decreases |s| - it
    {
      assert s[it..][1..] == s[it + 1..] && s[..it + 1][..it] == s[..it];
      if 192 <= s[it] < 224 {
        remaining := remaining + 1;
      } else if 224 <= s[it] < 240 {
        remaining := remaining + 2;
      } else if 240 <= s[it] < 248 {
        remaining := remaining + 3;
      }
      it, remaining := it + 1, remaining - 1;
    }
    if ValidUtf8(s) {
      SkipIsOffset(s, characterPos);
    }
    return s[it..];
  }

  /** utf8_substr with a start and a length */
  method Utf8Substring(s: Bytes, characterPos: nat, characterLen: nat) returns (r: Bytes)
    ensures exists n :: IsSubstring(s, characterPos, characterLen, n, r)
    ensures ValidUtf8(s) ==>
              var a, b := CharOffset(s, characterPos), CharOffset(s, characterPos + characterLen);
              a <= b && r == s[a..b]
  {
    var prefix := Utf8Substr(s, characterPos);
    var chopEnd := Utf8Substr(prefix, characterLen);
    r := prefix[..|prefix| - |chopEnd|];
    assert IsSubstring(s, characterPos, characterLen, |s| - |prefix|, r);
    if ValidUtf8(s) {
      CutBetweenChars(s, characterPos);
      OffsetAdds(s, characterPos, characterLen);
    }
  }

  /** r stands behind the n bytes skipped for the start, and is what is skipped for the length. */
  predicate IsSubstring(s: Bytes, characterPos: nat, characterLen: nat, n: nat, r: Bytes) {
    Skips(s, characterPos, n) && n + |r| <= |s| && r == s[n..n + |r|] && Skips(s[n..], characterLen, |r|)
  }

  /** Skipping some characters and then others. */
  lemma {:induction false} OffsetAdds(s: Bytes, c: nat, d: nat)
    requires ValidUtf8(s)
    ensures ValidUtf8(s[CharOffset(s, c)..])
    ensures CharOffset(s, c + d) == CharOffset(s, c) + CharOffset(s[CharOffset(s, c)..], d)
    decreases |s|
  {
    hide ValidUtf8, StartsWithChar, CharOffset, CharLen;
    if c == 0 || s == [] {
      NoOffset(s, c);
      if s == [] {
        NoOffset(s, c + d);
        NoOffset(s, d);
      }
    } else {
      OffsetStep(s, c);
      OffsetStep(s, c + d);
      var n := CharLen(s[0]);
      OffsetAdds(s[n..], c - 1, d);
      DropTwice(s, n, CharOffset(s[n..], c - 1));
    }
  }

  lemma DropTwice(s: Bytes, n: nat, k: nat)
    requires n + k <= |s|
    ensures s[n..][k..] == s[n + k..]
  {
  }

  lemma NoOffsetAtZero(s: Bytes)
    requires ValidUtf8(s)
    ensures CharOffset(s, 0) == 0
  {
  }

  lemma {:induction false} SkipContinuations(s: Bytes, n: nat, r: nat)
    requires n <= |s| && forall i :: 0 <= i < n ==> IsContinuation(s[i])
    ensures Skip(s, n + r) == Skip(s[n..], r)
    decreases n
  {
    if n == 0 {
      assert s[0..] == s;
    } else {
      SkipContinuations(s[1..], n - 1, r);
      assert s[1..][n - 1..] == s[n..];
    }
  }

  /** Skipping one character skips all of its bytes. */
  lemma SkipChar(s: Bytes, c: nat)
    requires StartsWithChar(s) && 0 < c
    ensures Skip(s, c) == Skip(s[CharLen(s[0])..], c - 1)
  {
    var n, t := CharLen(s[0]), s[1..];
    assert Extra(s[0]) == n - 1;
    forall i | 0 <= i < n - 1 ensures IsContinuation(t[i]) {
      assert t[i] == s[i + 1];
    }
    SkipContinuations(t, n - 1, c - 1);
    assert t[n - 1..] == s[n..];
  }

  lemma {:induction false} SkipIsOffset(s: Bytes, c: nat)
    requires ValidUtf8(s)
    ensures Skip(s, c) == s[CharOffset(s, c)..]
    decreases |s|
  {
    if c == 0 || s == [] {
      assert s[0..] == s;
    } else {
      hide StartsWithChar, Skip;
      SkipChar(s, c);
      SkipIsOffset(s[CharLen(s[0])..], c - 1);
    }
  }

  // ----- newlines are characters

  /** Text on both sides of a newline is valid. */
  lemma {:induction false} CutAtNewline(s: Bytes, i: nat)
    requires ValidUtf8(s) && i < |s| && s[i] == NEWLINE
    ensures ValidUtf8(s[..i]) && ValidUtf8(s[i + 1..])
    decreases |s|
  {
    var n := CharLen(s[0]);
    if i == 0 {
    } else {
      assert n <= i;
      var tail := s[n..];
      CutAtNewline(tail, i - n);
      SingleChar(s);
      ValidConcat(s[..n], tail[..i - n]);
      assert s[..i] == s[..n] + tail[..i - n];
      assert s[i + 1..] == tail[i - n + 1..];
    }
  }
}

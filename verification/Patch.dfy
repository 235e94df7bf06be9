/** Selective application of patches (verible/common/strings/patch.cc). */
module Patch {
  import Seqs

  datatype Marker = Common | Deleted | Added

  datatype MarkedLine = MarkedLine(marker: Marker, text: string)

  /** A 1-based first line and a number of lines. */
  datatype HunkIndices = HunkIndices(start: int, count: int)

  datatype Hunk = Hunk(oldRange: HunkIndices, newRange: HunkIndices, lines: seq<MarkedLine>)

  // ----- what a list of marked lines says

  function OldText(lines: seq<MarkedLine>): seq<string> {
    if lines == [] then [] else
      OldText(lines[..|lines| - 1]) + if lines[|lines| - 1].marker == Added then [] else [lines[|lines| - 1].text]
  }

  function NewText(lines: seq<MarkedLine>): seq<string> {
    if lines == [] then [] else
      NewText(lines[..|lines| - 1]) + if lines[|lines| - 1].marker == Deleted then [] else [lines[|lines| - 1].text]
  }

  /** The header counts what the lines say. */
  predicate IsValid(h: Hunk) {
    h.oldRange.count == |OldText(h.lines)| && h.newRange.count == |NewText(h.lines)|
  }

  /** CountMarkedLines */
  method CountMarkedLines(lines: seq<MarkedLine>) returns (before: int, after: int)
    ensures before == |OldText(lines)| && after == |NewText(lines)|
  {
    before, after := 0, 0;
    for i := 0 to |lines|
      invariant before == |OldText(lines[..i])| && after == |NewText(lines[..i])|
    {
      assert lines[..i + 1][..i] == lines[..i];
      match lines[i].marker {
        case Common => before, after := before + 1, after + 1;
        case Deleted => before := before + 1;
        case Added => after := after + 1;
      }
    }
    assert lines[..|lines|] == lines;
  }

  lemma {:induction false} TextConcat(s: seq<MarkedLine>, t: seq<MarkedLine>)
    ensures OldText(s + t) == OldText(s) + OldText(t)
    ensures NewText(s + t) == NewText(s) + NewText(t)
    decreases |t|
  {
    if t == [] {
      assert s + t == s;
    } else {
      var last := t[|t| - 1];
      TextConcat(s, t[..|t| - 1]);
      Seqs.FrontOfConcat(s, t);
      Seqs.Associative(OldText(s), OldText(t[..|t| - 1]), if last.marker == Added then [] else [last.text]);
      Seqs.Associative(NewText(s), NewText(t[..|t| - 1]), if last.marker == Deleted then [] else [last.text]);
    }
  }

  // ----- lines with their places

  /** A marked line with the old and new line numbers it stands at. */
  datatype Placed = Placed(old_: int, new_: int, line: MarkedLine)

  function Tagged(oldStart: int, newStart: int, lines: seq<MarkedLine>): (r: seq<Placed>)
    ensures |r| == |lines|
  {
    if lines == [] then [] else
      var init := lines[..|lines| - 1];
      Tagged(oldStart, newStart, init)
      + [Placed(oldStart + |OldText(init)|, newStart + |NewText(init)|, lines[|lines| - 1])]
  }

  function TaggedHunk(h: Hunk): seq<Placed> {
    Tagged(h.oldRange.start, h.newRange.start, h.lines)
  }

  function TaggedHunks(hs: seq<Hunk>): seq<Placed> {
    if hs == [] then [] else TaggedHunks(hs[..|hs| - 1]) + TaggedHunk(hs[|hs| - 1])
  }

  lemma {:induction false} TaggedConcat(oldStart: int, newStart: int, s: seq<MarkedLine>, t: seq<MarkedLine>)
    ensures Tagged(oldStart, newStart, s + t)
         == Tagged(oldStart, newStart, s) + Tagged(oldStart + |OldText(s)|, newStart + |NewText(s)|, t)
    decreases |t|
  {
    if t == [] {
      assert s + t == s;
    } else {
      var init := t[..|t| - 1];
      TaggedConcat(oldStart, newStart, s, init);
      TextConcat(s, init);
      assert (s + t)[..|s + t| - 1] == s + init;
    }
  }

  lemma {:induction false} TaggedHunksConcat(s: seq<Hunk>, t: seq<Hunk>)
    ensures TaggedHunks(s + t) == TaggedHunks(s) + TaggedHunks(t)
    decreases |t|
  {
    if t == [] {
      assert s + t == s;
    } else {
      hide TaggedHunk;
      TaggedHunksConcat(s, t[..|t| - 1]);
      Seqs.FrontOfConcat(s, t);
      Seqs.Associative(TaggedHunks(s), TaggedHunks(t[..|t| - 1]), TaggedHunk(t[|t| - 1]));
    }
  }

  /** The line numbers of added lines in the new file. */
  function AddedNumbers(ps: seq<Placed>): set<int> {
    set i | 0 <= i < |ps| && ps[i].line.marker == Added :: ps[i].new_
  }

  /** Hunk::AddedLines */
  method AddedLines(h: Hunk) returns (numbers: set<int>)
    ensures numbers == AddedNumbers(TaggedHunk(h))
  {
    numbers := {};
    var lineNumber := h.newRange.start;
    for i := 0 to |h.lines|
      invariant lineNumber == h.newRange.start + |NewText(h.lines[..i])|
      invariant numbers == AddedNumbers(Tagged(h.oldRange.start, h.newRange.start, h.lines[..i]))
    {
      assert h.lines[..i + 1][..i] == h.lines[..i];
      ghost var before := Tagged(h.oldRange.start, h.newRange.start, h.lines[..i]);
      ghost var after := Tagged(h.oldRange.start, h.newRange.start, h.lines[..i + 1]);
      assert after == before + [after[i]];
      OneMoreAdded(before, after[i]);
      if h.lines[i].marker == Added {
        numbers := numbers + {lineNumber};
      }
      if h.lines[i].marker != Deleted {
        lineNumber := lineNumber + 1;
      }
    }
    assert h.lines[..|h.lines|] == h.lines;
  }

  lemma OneMoreAdded(ps: seq<Placed>, p: Placed)
    ensures AddedNumbers(ps + [p]) == AddedNumbers(ps) + if p.line.marker == Added then {p.new_} else {}
  {
    var q := ps + [p];
    assert q[|ps|] == p;
    forall n | n in AddedNumbers(ps) ensures n in AddedNumbers(q) {
      var i :| 0 <= i < |ps| && ps[i].line.marker == Added && ps[i].new_ == n;
      assert q[i] == ps[i];
    }
  }

  // ----- splitting a hunk

  /** parts cover h: same lines at the same places, with headers that count them. */
  ghost predicate SplitsInto(h: Hunk, parts: seq<Hunk>) {
    && parts != []
    && TaggedHunks(parts) == TaggedHunk(h)
    && (forall p :: p in parts ==> IsValid(p) && p.lines != [])
    && AllLines(parts) == h.lines
    && Chained(parts, h.oldRange.start, h.newRange.start)
  }

  function AllLines(hs: seq<Hunk>): seq<MarkedLine> {
    if hs == [] then [] else AllLines(hs[..|hs| - 1]) + hs[|hs| - 1].lines
  }

  /** Every hunk starts where the one before it ended. */
  ghost predicate Chained(hs: seq<Hunk>, oldStart: int, newStart: int) {
    forall i :: 0 <= i < |hs| ==>
      && hs[i].oldRange.start == oldStart + |OldText(AllLines(hs[..i]))|
      && hs[i].newRange.start == newStart + |NewText(AllLines(hs[..i]))|
  }

  // ----- where a hunk is cut

  predicate StartsPart(lines: seq<MarkedLine>, i: int)
    requires 0 <= i < |lines|
  {
    i == 0 || (lines[i - 1].marker != Common && lines[i].marker == Common)
  }

  predicate HasChange(lines: seq<MarkedLine>, a: int, b: int) {
    exists k :: a <= k < b && 0 <= k < |lines| && lines[k].marker != Common
  }

  /** A part starts at the beginning, and wherever a change is followed by common lines after
      which there is another change. */
  predicate IsCut(lines: seq<MarkedLine>, i: int)
    requires 0 <= i < |lines|
  {
    i == 0 || (StartsPart(lines, i) && HasChange(lines, i, |lines|))
  }

  /** The starts of all parts among the first n lines. */
  function CutsBelow(lines: seq<MarkedLine>, n: nat): seq<int>
    requires n <= |lines|
  {
    if n == 0 then [] else CutsBelow(lines, n - 1) + if IsCut(lines, n - 1) then [n - 1] else []
  }

  function CutsOf(lines: seq<MarkedLine>): seq<int> { CutsBelow(lines, |lines|) + [|lines|] }

  /** Just the cuts, in order. */
  lemma {:induction false} CutsBelowAre(lines: seq<MarkedLine>, n: nat)
    requires n <= |lines|
    ensures forall i :: i in CutsBelow(lines, n) <==> 0 <= i < n && IsCut(lines, i)
    ensures Increasing(CutsBelow(lines, n)) && (0 < n ==> CutsBelow(lines, n) != [] && CutsBelow(lines, n)[0] == 0)
  {
    if 0 < n {
      CutsBelowAre(lines, n - 1);
      hide IsCut;
      var before, after := CutsBelow(lines, n - 1), CutsBelow(lines, n);
      assert forall c :: 0 <= c < |before| ==> before[c] in before;
      if n == 1 {
        FirstIsCut(lines);
      }
    }
  }

  lemma FirstIsCut(lines: seq<MarkedLine>)
    requires lines != []
    ensures IsCut(lines, 0) && CutsBelow(lines, 1) == [0]
  {
  }

  predicate Increasing(s: seq<int>) {
    forall c, d :: 0 <= c < d < |s| ==> s[c] < s[d]
  }

  /** Increasing sequences with the same elements are the same. */
  lemma {:induction false} SameIncreasing(s: seq<int>, t: seq<int>)
    requires Increasing(s) && Increasing(t) && forall x :: x in s <==> x in t
    ensures s == t
    decreases |s|
  {
    assert (s != [] ==> s[0] in s) && (t != [] ==> t[0] in t);
    if s != [] {
      assert s[|s| - 1] in t && t != [];
      var a, b := s[|s| - 1], t[|t| - 1];
      assert b in s;
      assert a == b;
      var s', t' := s[..|s| - 1], t[..|t| - 1];
      forall x ensures x in s' <==> x in t' {
        LastIsLargest(s, x);
        LastIsLargest(t, x);
      }
      SameIncreasing(s', t');
    }
  }

  lemma LastIsLargest(s: seq<int>, x: int)
    requires Increasing(s) && s != []
    ensures x in s[..|s| - 1] <==> x in s && x != s[|s| - 1]
  {
  }

  /** Positions that increase from 0: just the starts of parts below n. */
  ghost predicate StartsUpTo(lines: seq<MarkedLine>, cuts: seq<int>, n: int) {
    && (cuts != [] ==> cuts[0] == 0)
    && Increasing(cuts)
    && (forall i :: i in cuts <==> 0 <= i < n && i < |lines| && StartsPart(lines, i))
  }

  /** find_all with HunkSplitter, which remembers the previous line. */
  method StartPoints(lines: seq<MarkedLine>) returns (cuts: seq<int>)
    requires lines != []
    ensures cuts != [] && StartsUpTo(lines, cuts, |lines|)
  {
    cuts := [];
    var hasPrevious, previousCommon := false, false;
    for i := 0 to |lines|
      invariant (hasPrevious <==> 0 < i) && (cuts == [] <==> i == 0)
      invariant 0 < i ==> previousCommon == (lines[i - 1].marker == Common)
      invariant StartsUpTo(lines, cuts, i)
    {
      var newHunk := !hasPrevious || (!previousCommon && lines[i].marker == Common);
      assert newHunk <==> StartsPart(lines, i);
      if newHunk {
        MoreStarts(lines, cuts, i);
        cuts := cuts + [i];
      }
      hasPrevious, previousCommon := true, lines[i].marker == Common;
    }
  }

  lemma MoreStarts(lines: seq<MarkedLine>, cuts: seq<int>, i: nat)
    requires i < |lines| && StartsUpTo(lines, cuts, i) && StartsPart(lines, i) && (cuts == [] ==> i == 0)
    ensures StartsUpTo(lines, cuts + [i], i + 1)
  {
    assert forall c :: 0 <= c < |cuts| ==> cuts[c] in cuts;
  }

  /** The start of every part, then the end of the lines. */
  ghost predicate AreCuts(lines: seq<MarkedLine>, cuts: seq<int>) {
    && |cuts| >= 2 && cuts[0] == 0 && cuts[|cuts| - 1] == |lines|
    && (forall c, d :: 0 <= c < d < |cuts| ==> 0 <= cuts[c] < cuts[d])
  }

  /** The starts of the parts; the last start is dropped if nothing changes after it. */
  method CutPoints(lines: seq<MarkedLine>) returns (cuts: seq<int>)
    requires lines != []
    ensures cuts == CutsOf(lines)
  {
    cuts := StartPoints(lines);
    ghost var starts := cuts;
    var last := cuts[|cuts| - 1];
    assert last in starts;
    if last != 0 {
      var lastPartitionHasAnyChanges := HasChange(lines, last, |lines|);
      if !lastPartitionHasAnyChanges {
        cuts := cuts[..|cuts| - 1];
      }
    }
    StartsAreCuts(lines, starts, cuts);
    cuts := cuts + [|lines|];
  }

  lemma StartsAreCuts(lines: seq<MarkedLine>, starts: seq<int>, cuts: seq<int>)
    requires lines != [] && starts != [] && StartsUpTo(lines, starts, |lines|)
    requires var last := starts[|starts| - 1];
             cuts == if last != 0 && !HasChange(lines, last, |lines|) then starts[..|starts| - 1] else starts
    ensures cuts == CutsBelow(lines, |lines|)
  {
    var last := starts[|starts| - 1];
    forall i ensures i in cuts <==> 0 <= i < |lines| && IsCut(lines, i) {
      LastIsLargest(starts, i);
      if 0 < i < |lines| && StartsPart(lines, i) && i != last {
        assert i < last by {
          var c :| 0 <= c < |starts| && starts[c] == i;
        }
        assert last in starts;
        assert lines[last - 1].marker != Common && i <= last - 1;
      }
    }
    CutsBelowAre(lines, |lines|);
    hide IsCut;
    SameIncreasing(cuts, CutsBelow(lines, |lines|));
  }

  lemma CutsAreCuts(lines: seq<MarkedLine>)
    requires lines != []
    ensures AreCuts(lines, CutsOf(lines))
    ensures forall i :: 0 < i < |lines| ==> (i in CutsOf(lines) <==> StartsPart(lines, i) && HasChange(lines, i, |lines|))
  {
    CutsBelowAre(lines, |lines|);
    var cuts := CutsBelow(lines, |lines|);
    forall c | 0 <= c < |cuts| ensures 0 <= cuts[c] < |lines| {
      assert cuts[c] in cuts;
    }
  }

  /** Two changed lines with only common lines between them are cut apart exactly if there are any: the lines of
      one group of changes stay together, and every two groups are separated. */
  lemma GroupsComeApart(lines: seq<MarkedLine>, i: int, j: int)
    requires 0 <= i < j < |lines| && lines[i].marker != Common && lines[j].marker != Common
    requires forall k :: i < k < j ==> lines[k].marker == Common
    ensures (exists c :: c in CutsOf(lines) && i < c <= j) <==> i + 1 < j
  {
    CutsAreCuts(lines);
    hide CutsOf, AreCuts;
    if i + 1 < j {
      assert HasChange(lines, i + 1, |lines|);
      assert i + 1 in CutsOf(lines);
    } else {
      assert !StartsPart(lines, j);
    }
  }

  /** If a hunk changes anything, so does each of its parts. */
  lemma EveryPartChanges(lines: seq<MarkedLine>, i: nat)
    requires lines != [] && HasChange(lines, 0, |lines|) && i + 1 < |CutsOf(lines)|
    ensures HasChange(lines, CutsOf(lines)[i], CutsOf(lines)[i + 1])
  {
    CutsAreCuts(lines);
    CutsBelowAre(lines, |lines|);
    var below, cuts := CutsBelow(lines, |lines|), CutsOf(lines);
    assert cuts[i] == below[i] && below[i] in below;
    if i + 1 < |below| {
      assert cuts[i + 1] == below[i + 1] && below[i + 1] in below;
      assert IsCut(lines, cuts[i + 1]);
      assert lines[cuts[i + 1] - 1].marker != Common;
    } else {
      assert IsCut(lines, cuts[i]);
    }
  }

  // ----- the parts

  /** The lines from a to b of a hunk, as a hunk of its own. */
  function PartAt(h: Hunk, a: int, b: int): Hunk
    requires 0 <= a <= b <= |h.lines|
  {
    var lines := h.lines[a..b];
    Hunk(HunkIndices(h.oldRange.start + |OldText(h.lines[..a])|, |OldText(lines)|),
         HunkIndices(h.newRange.start + |NewText(h.lines[..a])|, |NewText(lines)|), lines)
  }

  function PartsBetween(h: Hunk, cuts: seq<int>): (r: seq<Hunk>)
    requires forall c, d :: 0 <= c < d < |cuts| ==> 0 <= cuts[c] <= cuts[d] <= |h.lines|
    ensures |r| == if cuts == [] then 0 else |cuts| - 1
    ensures forall j :: 0 <= j < |r| ==> r[j] == PartAt(h, cuts[j], cuts[j + 1])
  {
    if cuts == [] then [] else
      seq(|cuts| - 1, j requires 0 <= j < |cuts| - 1 => PartAt(h, cuts[j], cuts[j + 1]))
  }

  /** One part from every cut to the next. */
  ghost function SplitOf(h: Hunk): seq<Hunk>
    requires h.lines != []
  {
    CutsAreCuts(h.lines);
    PartsBetween(h, CutsOf(h.lines))
  }

  /** The parts made from the lines before position c. */
  ghost predicate PartsUpTo(h: Hunk, parts: seq<Hunk>, c: int) {
    && 0 <= c <= |h.lines|
    && AllLines(parts) == h.lines[..c]
    && TaggedHunks(parts) == Tagged(h.oldRange.start, h.newRange.start, h.lines[..c])
    && Chained(parts, h.oldRange.start, h.newRange.start)
  }

  /** Hunk::Split: one part for every group of changes. */
  method Split(h: Hunk) returns (parts: seq<Hunk>)
    requires h.lines != []
    ensures parts == SplitOf(h)
    ensures SplitsInto(h, parts)
    ensures HasChange(h.lines, 0, |h.lines|) ==> forall p :: p in parts ==> HasChange(p.lines, 0, |p.lines|)
  {
    hide OldText, NewText, SplitOf, CutsOf, SplitsInto, HasChange, IsCut, StartsPart;
    var cuts := CutPoints(h.lines);
    CutsAreCuts(h.lines);
    parts := [];
    var oldStart, newStart := h.oldRange.start, h.newRange.start;
    NoParts(h);
    for i := 0 to |cuts| - 1
      invariant |parts| == i
      invariant oldStart == h.oldRange.start + |OldText(h.lines[..cuts[i]])|
      invariant newStart == h.newRange.start + |NewText(h.lines[..cuts[i]])|
      invariant forall j :: 0 <= j < i ==> parts[j] == PartAt(h, cuts[j], cuts[j + 1])
    {
      var lines := h.lines[cuts[i]..cuts[i + 1]];
      var before, after := CountMarkedLines(lines);
      var part := Hunk(HunkIndices(oldStart, before), HunkIndices(newStart, after), lines);
      Seqs.Parts(h.lines, 0, cuts[i], cuts[i + 1]);
      TextConcat(h.lines[..cuts[i]], lines);
      parts := parts + [part];
      oldStart := oldStart + part.oldRange.count;
      newStart := newStart + part.newRange.count;
    }
    IsSplitOf(h, parts);
    SplitOfSplits(h);
  }

  /** The parts cover the hunk, and none is without a change unless the hunk is. */
  lemma SplitOfSplits(h: Hunk)
    requires h.lines != []
    ensures SplitsInto(h, SplitOf(h))
    ensures HasChange(h.lines, 0, |h.lines|) ==> forall p :: p in SplitOf(h) ==> HasChange(p.lines, 0, |p.lines|)
  {
    CutsAreCuts(h.lines);
    var cuts, parts := CutsOf(h.lines), SplitOf(h);
    hide PartsUpTo, SplitsInto, HasChange, CutsOf, SplitOf;
    FirstParts(h, parts, cuts, |parts|);
    assert parts[..|parts|] == parts;
    AllParts(h, parts, cuts);
  }

  lemma {:induction false} FirstParts(h: Hunk, parts: seq<Hunk>, cuts: seq<int>, n: nat)
    requires AreCuts(h.lines, cuts) && |parts| == |cuts| - 1 && n <= |parts|
    requires forall j :: 0 <= j < |parts| ==> parts[j] == PartAt(h, cuts[j], cuts[j + 1])
    ensures PartsUpTo(h, parts[..n], cuts[n])
  {
    hide PartsUpTo;
    if n == 0 {
      NoParts(h);
    } else {
      FirstParts(h, parts, cuts, n - 1);
      AppendPart(h, parts[..n - 1], parts[n - 1], cuts[n - 1], cuts[n]);
      assert parts[..n] == parts[..n - 1] + [parts[n - 1]];
    }
  }

  lemma IsSplitOf(h: Hunk, parts: seq<Hunk>)
    requires h.lines != [] && AreCuts(h.lines, CutsOf(h.lines)) && |parts| == |CutsOf(h.lines)| - 1
    requires forall j :: 0 <= j < |parts| ==> parts[j] == PartAt(h, CutsOf(h.lines)[j], CutsOf(h.lines)[j + 1])
    ensures parts == SplitOf(h)
  {
  }

  lemma NoParts(h: Hunk)
    ensures PartsUpTo(h, [], 0) && OldText(h.lines[..0]) == [] && NewText(h.lines[..0]) == []
  {
  }

  lemma ChangeInPart(lines: seq<MarkedLine>, from: int, to: int)
    requires 0 <= from <= to <= |lines| && HasChange(lines, from, to)
    ensures HasChange(lines[from..to], 0, |lines[from..to]|)
  {
    var k :| from <= k < to && 0 <= k < |lines| && lines[k].marker != Common;
    assert lines[from..to][k - from] == lines[k];
  }

  lemma AllParts(h: Hunk, parts: seq<Hunk>, cuts: seq<int>)
    requires h.lines != [] && cuts == CutsOf(h.lines) && AreCuts(h.lines, cuts)
    requires |parts| == |cuts| - 1 && PartsUpTo(h, parts, |h.lines|)
    requires forall j :: 0 <= j < |parts| ==> parts[j] == PartAt(h, cuts[j], cuts[j + 1])
    ensures SplitsInto(h, parts)
    ensures HasChange(h.lines, 0, |h.lines|) ==> forall p :: p in parts ==> HasChange(p.lines, 0, |p.lines|)
  {
    assert h.lines[..|h.lines|] == h.lines;
    hide OldText, NewText, Tagged, CutsOf, HasChange, AllLines, Chained;
    forall p | p in parts ensures IsValid(p) && p.lines != [] {
      var j :| 0 <= j < |parts| && parts[j] == p;
      assert cuts[j] < cuts[j + 1] <= |h.lines|;
    }
    if HasChange(h.lines, 0, |h.lines|) {
      forall p | p in parts ensures HasChange(p.lines, 0, |p.lines|) {
        var j :| 0 <= j < |parts| && parts[j] == p;
        EveryPartChanges(h.lines, j);
        ChangeInPart(h.lines, cuts[j], cuts[j + 1]);
      }
    }
  }

  lemma AppendPart(h: Hunk, parts: seq<Hunk>, part: Hunk, c: int, d: int)
    requires PartsUpTo(h, parts, c) && c <= d <= |h.lines| && part.lines == h.lines[c..d]
    requires part.oldRange.start == h.oldRange.start + |OldText(h.lines[..c])|
    requires part.newRange.start == h.newRange.start + |NewText(h.lines[..c])|
    ensures PartsUpTo(h, parts + [part], d)
    ensures |OldText(h.lines[..d])| == |OldText(h.lines[..c])| + |OldText(part.lines)|
    ensures |NewText(h.lines[..d])| == |NewText(h.lines[..c])| + |NewText(part.lines)|
  {
    hide Chained, Tagged, OldText, NewText, AllLines, TaggedHunks, TaggedHunk;
    Seqs.Parts(h.lines, 0, c, d);
    LinesGrow(parts, part);
    TaggedConcat(h.oldRange.start, h.newRange.start, h.lines[..c], part.lines);
    TextConcat(h.lines[..c], part.lines);
    ChainGrows(parts, part, h.oldRange.start, h.newRange.start);
  }

  lemma LinesGrow(hs: seq<Hunk>, h: Hunk)
    ensures AllLines(hs + [h]) == AllLines(hs) + h.lines
    ensures TaggedHunks(hs + [h]) == TaggedHunks(hs) + Tagged(h.oldRange.start, h.newRange.start, h.lines)
  {
    assert (hs + [h])[..|hs|] == hs;
  }

  lemma ChainGrows(hs: seq<Hunk>, h: Hunk, oldStart: int, newStart: int)
    requires Chained(hs, oldStart, newStart)
    requires h.oldRange.start == oldStart + |OldText(AllLines(hs))|
    requires h.newRange.start == newStart + |NewText(AllLines(hs))|
    ensures Chained(hs + [h], oldStart, newStart)
  {
    var gs := hs + [h];
    forall i | 0 <= i < |gs|
      ensures gs[i].oldRange.start == oldStart + |OldText(AllLines(gs[..i]))|
      ensures gs[i].newRange.start == newStart + |NewText(AllLines(gs[..i]))|
    {
      assert gs[..i] == hs[..i];
      if i == |hs| { assert hs[..i] == hs; }
    }
  }
}

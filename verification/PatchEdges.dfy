/** Where PickApply does not do what one would expect: hunks that start at line 0, hunks that overlap by a
    line, and the answers that should decide all remaining hunks (verible/common/strings/patch.cc). */
module PatchEdges {
  import opened Patch
  import opened PatchApply
  import Seqs

  // ----- hunks that start at line 0

  /** A hunk in place, or one that only adds lines and says so by starting at line 0. */
  ghost predicate Fits(original: seq<string>, h: Hunk) {
    && IsValid(h) && h.lines != [] && 0 <= h.oldRange.start
    && (h.oldRange.start == 0 ==> h.oldRange.count == 0)
    && (h.oldRange.start >= 1 ==> InPlace(original, h))
  }

  ghost predicate AllFit(original: seq<string>, hs: seq<Hunk>) {
    Ordered(hs) && forall h :: h in hs ==> Fits(original, h)
  }

  /** The loop's state: -1 once a hunk that starts at line 0 was accepted. */
  ghost predicate RestFits(original: seq<string>, worklist: seq<Hunk>, last: int) {
    && AllFit(original, worklist)
    && (last == -1 || (0 <= last && forall h :: h in worklist ==> last <= Max(h.oldRange.start - 1, 0)))
  }

  /** A hunk or part that starts at line 0 was accepted. */
  ghost predicate ZeroAccepted(s: Session)
    requires |s.pieces| == |s.verdicts|
  {
    exists i :: 0 <= i < |s.pieces| && s.verdicts[i] && s.pieces[i].oldRange.start == 0
  }

  /** After that, the answers went on to a hunk behind the first line, or to the end. */
  ghost predicate GoesOn(s: Session) {
    s.ending == Finished || (s.ending.Quit? && s.ending.at.oldRange.start >= 1)
  }

  lemma ZeroDecided(h: Hunk, v: bool, later: Session)
    requires |later.pieces| == |later.verdicts|
    ensures ZeroAccepted(Decided(h, v, later)) <==> (v && h.oldRange.start == 0) || ZeroAccepted(later)
  {
    var s := Decided(h, v, later);
    if ZeroAccepted(later) {
      var i :| 0 <= i < |later.pieces| && later.verdicts[i] && later.pieces[i].oldRange.start == 0;
      assert s.verdicts[i + 1] && s.pieces[i + 1].oldRange.start == 0;
    }
    if v && h.oldRange.start == 0 {
      assert s.verdicts[0] && s.pieces[0].oldRange.start == 0;
    }
    if ZeroAccepted(s) {
      var i :| 0 <= i < |s.pieces| && s.verdicts[i] && s.pieces[i].oldRange.start == 0;
      assert 0 < i ==> later.verdicts[i - 1] && later.pieces[i - 1].oldRange.start == 0;
    }
  }

  lemma FrontFits(original: seq<string>, worklist: seq<Hunk>, last: int)
    requires worklist != [] && RestFits(original, worklist, last)
    ensures var h := worklist[0];
            && Fits(original, h) && h.lines != [] && 0 <= h.oldRange.start && h.oldRange.start - 1 <= |original|
            && -1 <= EndOf(h) && (EndOf(h) == -1 <==> h.oldRange.start == 0) && (0 <= last ==> last <= Max(h.oldRange.start - 1, 0))
            && -1 <= last
  {
    assert worklist[0] in worklist;
  }

  /** What follows a hunk fits behind it. */
  lemma RestFitsAfter(original: seq<string>, worklist: seq<Hunk>, last: int, last': int)
    requires worklist != [] && RestFits(original, worklist, last)
    requires last' == EndOf(worklist[0]) || last' == Max(last, worklist[0].oldRange.start - 1)
    requires last' == -1 ==> last == -1 || last' == EndOf(worklist[0])
    ensures RestFits(original, worklist[1..], last')
  {
    hide Fits;
    FrontFits(original, worklist, last);
    var rest := worklist[1..];
    forall g | g in rest ensures Fits(original, g) && (0 <= last' ==> last' <= Max(g.oldRange.start - 1, 0)) {
      var j :| 0 <= j < |rest| && rest[j] == g;
      assert worklist[j + 1] == g && g in worklist;
      assert EndOf(worklist[0]) <= worklist[j + 1].oldRange.start - 1;
      FrontEnds(original, worklist[0]);
    }
    forall i, j | 0 <= i < j < |rest| ensures EndOf(rest[i]) <= rest[j].oldRange.start - 1 {
      assert rest[i] == worklist[i + 1] && rest[j] == worklist[j + 1];
    }
  }

  lemma FrontEnds(original: seq<string>, h: Hunk)
    requires Fits(original, h)
    ensures h.oldRange.start - 1 <= EndOf(h)
  {
  }

  /** Looking at the same hunk again, or putting its parts in its place, keeps the state. */
  lemma RestFitsAgain(original: seq<string>, worklist: seq<Hunk>, last: int, at: int)
    requires worklist != [] && RestFits(original, worklist, last)
    requires at == Max(last, worklist[0].oldRange.start - 1) && (last == -1 ==> at == -1)
    ensures RestFits(original, worklist, at)
  {
    hide Fits;
    FrontFits(original, worklist, last);
    forall g | g in worklist ensures 0 <= at ==> at <= Max(g.oldRange.start - 1, 0) {
      var j :| 0 <= j < |worklist| && worklist[j] == g;
      if 0 < j {
        assert EndOf(worklist[0]) <= worklist[j].oldRange.start - 1;
        FrontEnds(original, worklist[0]);
      }
    }
  }

  lemma PartFits(original: seq<string>, h: Hunk, parts: seq<Hunk>, i: nat)
    requires Fits(original, h) && SplitsInto(h, parts) && i < |parts|
    ensures Fits(original, parts[i]) && h.oldRange.start <= parts[i].oldRange.start && EndOf(parts[i]) <= EndOf(h)
  {
    hide SplitsInto, OldText, NewText, AllLines;
    if h.oldRange.start >= 1 {
      PartInPlace(original, h, parts, i);
    } else {
      var before, rest := Locate(h, parts, i);
      var p := parts[i].lines;
      TextConcat(before + p, rest);
      TextConcat(before, p);
    }
  }

  /** Parts that lie within the front hunk take its place. */
  ghost predicate Within(original: seq<string>, h: Hunk, parts: seq<Hunk>) {
    && Ordered(parts)
    && forall i :: 0 <= i < |parts| ==>
         Fits(original, parts[i]) && h.oldRange.start <= parts[i].oldRange.start && EndOf(parts[i]) <= EndOf(h)
  }

  lemma PartsWithin(original: seq<string>, h: Hunk)
    requires Fits(original, h) && h.lines != []
    ensures Within(original, h, SplitOf(h))
  {
    hide Fits, SplitOf, SplitsInto, EndOf;
    SplitOfSplits(h);
    var parts := SplitOf(h);
    forall i | 0 <= i < |parts|
      ensures Fits(original, parts[i]) && h.oldRange.start <= parts[i].oldRange.start && EndOf(parts[i]) <= EndOf(h)
    {
      PartFits(original, h, parts, i);
    }
    forall i, j | 0 <= i < j < |parts| ensures EndOf(parts[i]) <= parts[j].oldRange.start - 1 {
      PartsInOrder(h, parts, i, j);
    }
  }

  lemma FrontReplaced(original: seq<string>, worklist: seq<Hunk>, last: int, parts: seq<Hunk>)
    requires worklist != [] && RestFits(original, worklist, last) && Within(original, worklist[0], parts)
    ensures RestFits(original, parts + worklist[1..], last)
  {
    hide Fits, EndOf;
    var h, new_ := worklist[0], parts + worklist[1..];
    assert h in worklist;
    forall i, j | 0 <= i < j < |new_| ensures EndOf(new_[i]) <= new_[j].oldRange.start - 1 {
      assert j >= |parts| ==> new_[j] == worklist[j - |parts| + 1];
      assert i >= |parts| ==> new_[i] == worklist[i - |parts| + 1];
    }
    forall g | g in new_ ensures Fits(original, g) && (0 <= last ==> last <= Max(g.oldRange.start - 1, 0)) {
      assert g in parts || g in worklist;
    }
  }

  lemma PartsFit(original: seq<string>, worklist: seq<Hunk>, last: int)
    requires worklist != [] && RestFits(original, worklist, last) && worklist[0].lines != []
    ensures RestFits(original, SplitOf(worklist[0]) + worklist[1..], last)
  {
    hide Fits, SplitOf, Within, EndOf;
    assert worklist[0] in worklist;
    PartsWithin(original, worklist[0]);
    FrontReplaced(original, worklist, last, SplitOf(worklist[0]));
  }

  /** Behind the first line, giving up happens behind the first line. */
  lemma {:induction false} QuitsBehind(original: seq<string>, worklist: seq<Hunk>, answers: string)
    requires AllFit(original, worklist) && (worklist != [] ==> worklist[0].oldRange.start >= 1)
    ensures GoesOn(Answered(worklist, answers))
    decreases |answers|
  {
    hide Fits, SplitOf;
    if worklist != [] {
      var h, rest := worklist[0], worklist[1..];
      assert RestFits(original, worklist, -1);
      FrontFits(original, worklist, -1);
      if answers != "" && answers[0] != 'q' {
        RestFitsAfter(original, worklist, -1, EndOf(h));
        assert rest != [] ==> rest[0] == worklist[1] && EndOf(h) <= worklist[1].oldRange.start - 1;
        QuitsBehind(original, rest, answers[1..]);
        QuitsBehind(original, worklist, answers[1..]);
        PartsFit(original, worklist, -1);
        FirstPart(h);
        QuitsBehind(original, SplitOf(h) + rest, answers[1..]);
      }
    }
  }

  lemma FirstPart(h: Hunk)
    requires h.lines != []
    ensures SplitOf(h) != [] && SplitOf(h)[0].oldRange.start == h.oldRange.start
  {
    CutsAreCuts(h.lines);
    assert h.lines[..0] == [];
  }

  /** How a run over hunks that fit ends: as the answers say, unless lines before the first are read. */
  lemma {:induction false} RunWithZero(original: seq<string>, worklist: seq<Hunk>, answers: string, last: int)
    requires RestFits(original, worklist, last)
    ensures var r, s := RunOf(|original|, worklist, answers, last), Answered(worklist, answers);
            && (r.ending == ReadsBeforeStart <==> (last == -1 || ZeroAccepted(s)) && GoesOn(s))
            && (r.ending != ReadsBeforeStart ==> r == s)
            && (s.ending == Finished || s.ending.Quit?)
    decreases |answers|
  {
    hide RestFits, Fits, SplitOf, ZeroAccepted, GoesOn;
    if worklist == [] {
      EmptySession(original, worklist, last);
    } else {
      var h, rest := worklist[0], worklist[1..];
      var at := Max(last, h.oldRange.start - 1);
      FrontFits(original, worklist, last);
      if last == -1 && h.oldRange.start >= 1 {
        RestFitsMeans(original, worklist, last);
        QuitsBehind(original, worklist, answers);
        GoesOnMeans(Answered(worklist, answers));
      } else if answers == "" || answers[0] == 'q' {
        QuitSession(h);
      } else if answers[0] in "ya" {
        RestFitsAfter(original, worklist, last, EndOf(h));
        RunWithZero(original, rest, answers[1..], EndOf(h));
        SessionDecided(h, true, Answered(rest, answers[1..]));
        if last == -1 { assert EndOf(h) == -1; }
      } else if answers[0] in "nd" {
        RestFitsAfter(original, worklist, last, at);
        RunWithZero(original, rest, answers[1..], at);
        SessionDecided(h, false, Answered(rest, answers[1..]));
      } else {
        RestFitsAgain(original, worklist, last, at);
        RunWithZero(original, worklist, answers[1..], at);
        PartsFit(original, worklist, at);
        RunWithZero(original, SplitOf(h) + rest, answers[1..], at);
      }
    }
  }

  lemma EmptySession(original: seq<string>, worklist: seq<Hunk>, last: int)
    requires RestFits(original, worklist, last)
    ensures -1 <= last && GoesOn(Session([], [], Finished)) && !ZeroAccepted(Session([], [], Finished))
  {
  }

  lemma QuitSession(h: Hunk)
    ensures !ZeroAccepted(Session([], [], Quit(h))) && (GoesOn(Session([], [], Quit(h))) <==> h.oldRange.start >= 1)
  {
  }

  lemma GoesOnMeans(s: Session)
    requires GoesOn(s)
    ensures s.ending == Finished || s.ending.Quit?
  {
  }

  lemma RestFitsMeans(original: seq<string>, worklist: seq<Hunk>, last: int)
    requires RestFits(original, worklist, last)
    ensures AllFit(original, worklist)
  {
  }

  lemma SessionDecided(h: Hunk, v: bool, later: Session)
    requires |later.pieces| == |later.verdicts|
    ensures GoesOn(Decided(h, v, later)) <==> GoesOn(later)
    ensures ZeroAccepted(Decided(h, v, later)) <==> (v && h.oldRange.start == 0) || ZeroAccepted(later)
  {
    ZeroDecided(h, v, later);
  }

  lemma {:induction false} FitsMatches(original: seq<string>, hunks: seq<Hunk>)
    requires forall h :: h in hunks ==> Fits(original, h)
    ensures VerdictOfAll(original, hunks) == Matches
  {
    if hunks != [] {
      assert hunks[0] in hunks;
      if hunks[0].oldRange.start >= 1 {
        InPlaceStands(original, hunks[0]);
      }
      FitsMatches(original, hunks[1..]);
    }
  }

  /** In an ordered patch that matches, lines before the first are read if and only if a hunk or part
      that starts at line 0 is accepted and the answers then go on to a later line or to the end. */
  lemma OutOfRangeExactly(original: seq<string>, hunks: seq<Hunk>, answers: string)
    requires AllFit(original, hunks)
    ensures VerdictOfAll(original, hunks) == Matches
    ensures var s := Answered(hunks, answers);
            RunOf(|original|, hunks, answers, 0).ending == ReadsBeforeStart <==> ZeroAccepted(s) && GoesOn(s)
  {
    FitsMatches(original, hunks);
    RunWithZero(original, hunks, answers, 0);
  }

  /** Adding a line to the front of a file: the hunk matches, and accepting it reads before the first line. */
  lemma StartZeroReadsOutside()
    ensures var h := Hunk(HunkIndices(0, 0), HunkIndices(1, 1), [MarkedLine(Added, "x")]);
            && AllFit(["a"], [h]) && VerdictOfAll(["a"], [h]) == Matches
            && RunOf(1, [h], "y", 0).ending == ReadsBeforeStart
  {
    var h := Hunk(HunkIndices(0, 0), HunkIndices(1, 1), [MarkedLine(Added, "x")]);
    assert h.lines[..0] == [] && OldText(h.lines) == [] && NewText(h.lines) == ["x"];
    FitsMatches(["a"], [h]);
    assert RunOf(1, [], "", -1).ending == ReadsBeforeStart;
    assert "y"[1..] == "" && [h][1..] == [];
  }

  // ----- hunks out of order

  /** How many original lines are used up after some decisions. */
  ghost function Position(pieces: seq<Hunk>, verdicts: seq<bool>): int
    requires |pieces| == |verdicts|
  {
    if pieces == [] then 0
    else
      var n := |pieces| - 1;
      if verdicts[n] then EndOf(pieces[n]) else Max(Position(pieces[..n], verdicts[..n]), pieces[n].oldRange.start - 1)
  }

  /** No hunk starts before the last line used up, seen from the decisions so far. */
  ghost predicate InOrder(pieces: seq<Hunk>, verdicts: seq<bool>, s: Session)
    requires |pieces| == |verdicts| && |s.pieces| == |s.verdicts|
  {
    && (forall i :: 0 <= i < |s.pieces| ==>
          Position(pieces + s.pieces[..i], verdicts + s.verdicts[..i]) <= s.pieces[i].oldRange.start)
    && (s.ending.Quit? ==> Position(pieces + s.pieces, verdicts + s.verdicts) <= s.ending.at.oldRange.start)
    && (s.ending.Misordered? ==> s.ending.at.oldRange.start < Position(pieces + s.pieces, verdicts + s.verdicts))
  }

  lemma InOrderDecided(pieces: seq<Hunk>, verdicts: seq<bool>, h: Hunk, v: bool, later: Session)
    requires |pieces| == |verdicts| && |later.pieces| == |later.verdicts|
    requires Position(pieces, verdicts) <= h.oldRange.start && InOrder(pieces + [h], verdicts + [v], later)
    ensures InOrder(pieces, verdicts, Decided(h, v, later))
  {
    var s := Decided(h, v, later);
    hide Position;
    forall i | 0 <= i < |s.pieces|
      ensures Position(pieces + s.pieces[..i], verdicts + s.verdicts[..i]) <= s.pieces[i].oldRange.start
    {
      StepInOrder(pieces, verdicts, h, v, later, i);
    }
    Seqs.PutInFront(pieces, h, later.pieces, 1);
    Seqs.PutInFront(verdicts, v, later.verdicts, 1);
  }

  lemma StepInOrder(pieces: seq<Hunk>, verdicts: seq<bool>, h: Hunk, v: bool, later: Session, i: nat)
    requires |pieces| == |verdicts| && |later.pieces| == |later.verdicts| && i <= |later.pieces|
    requires Position(pieces, verdicts) <= h.oldRange.start && InOrder(pieces + [h], verdicts + [v], later)
    ensures var s := Decided(h, v, later);
            |s.pieces| == |s.verdicts| > i
            && Position(pieces + s.pieces[..i], verdicts + s.verdicts[..i]) <= s.pieces[i].oldRange.start
  {
    var s := Decided(h, v, later);
    hide Position;
    if i == 0 {
      assert pieces + s.pieces[..0] == pieces && verdicts + s.verdicts[..0] == verdicts;
    } else {
      Seqs.PutInFront(pieces, h, later.pieces, i);
      Seqs.PutInFront(verdicts, v, later.verdicts, i);
      assert later.pieces[i - 1] == s.pieces[i];
    }
  }

  lemma PositionMore(pieces: seq<Hunk>, verdicts: seq<bool>, h: Hunk, v: bool)
    requires |pieces| == |verdicts|
    ensures Position(pieces + [h], verdicts + [v])
         == if v then EndOf(h) else Max(Position(pieces, verdicts), h.oldRange.start - 1)
  {
    assert (pieces + [h])[..|pieces|] == pieces && (verdicts + [v])[..|pieces|] == verdicts;
  }

  /** A run stops as out of order at the first hunk that starts before the last line used up, and only there. */
  lemma {:induction false} OrderExactly(
      size: nat, worklist: seq<Hunk>, answers: string, last: int, pieces: seq<Hunk>, verdicts: seq<bool>)
    requires |pieces| == |verdicts|
    requires last == Position(pieces, verdicts)
             || (worklist != [] && last == Max(Position(pieces, verdicts), worklist[0].oldRange.start - 1))
    ensures InOrder(pieces, verdicts, RunOf(size, worklist, answers, last))
    decreases |answers|
  {
    hide Position, SplitOf, InOrder;
    NothingMore(pieces, verdicts);
    if worklist != [] && answers != "" {
      var h, rest := worklist[0], worklist[1..];
      var at := Max(last, h.oldRange.start - 1);
      if answers[0] in "yand" {
        var v := answers[0] in "ya";
        PositionMore(pieces, verdicts, h, v);
        var next := if v then EndOf(h) else at;
        OrderExactly(size, rest, answers[1..], next, pieces + [h], verdicts + [v]);
        if Position(pieces, verdicts) <= h.oldRange.start {
          InOrderDecided(pieces, verdicts, h, v, RunOf(size, rest, answers[1..], next));
        }
      } else if answers[0] != 'q' {
        OrderExactly(size, worklist, answers[1..], at, pieces, verdicts);
        if h.lines != [] {
          FirstPart(h);
          OrderExactly(size, SplitOf(h) + rest, answers[1..], at, pieces, verdicts);
        }
      }
    }
  }

  lemma NothingMore(pieces: seq<Hunk>, verdicts: seq<bool>)
    requires |pieces| == |verdicts|
    ensures forall e: Ending :: InOrder(pieces, verdicts, Session([], [], e)) <==>
              && (e.Quit? ==> Position(pieces, verdicts) <= e.at.oldRange.start)
              && (e.Misordered? ==> e.at.oldRange.start < Position(pieces, verdicts))
  {
    assert pieces + [] == pieces && verdicts + [] == verdicts;
  }

  /** Two hunks against the lines a and b, both of which replace b. */
  function ReplacesB(): Hunk {
    Hunk(HunkIndices(1, 2), HunkIndices(1, 2),
         [MarkedLine(Common, "a"), MarkedLine(Deleted, "b"), MarkedLine(Added, "c")])
  }

  function ReplacesBAgain(): Hunk {
    Hunk(HunkIndices(2, 1), HunkIndices(2, 1), [MarkedLine(Deleted, "b"), MarkedLine(Added, "d")])
  }

  lemma OverlapTexts()
    ensures OldText(ReplacesB().lines) == ["a", "b"] && NewText(ReplacesB().lines) == ["a", "c"]
    ensures OldText(ReplacesBAgain().lines) == ["b"] && NewText(ReplacesBAgain().lines) == ["d"]
  {
    var a, b, c, d := MarkedLine(Common, "a"), MarkedLine(Deleted, "b"), MarkedLine(Added, "c"), MarkedLine(Added, "d");
    assert [a, b, c] == [a, b] + [c] && [a, b] == [a] + [b] && [b, d] == [b] + [d];
    hide OldText, NewText;
    TextConcat([a, b], [c]);
    TextConcat([a], [b]);
    TextConcat([b], [d]);
    OneText(a);
    OneText(b);
    OneText(c);
    OneText(d);
  }

  lemma OverlapMatches()
    ensures VerdictOfAll(["a", "b"], [ReplacesB(), ReplacesBAgain()]) == Matches
  {
    var g, h := ReplacesB(), ReplacesBAgain();
    OverlapTexts();
    hide OldText, NewText, ReplacesB, ReplacesBAgain;
    assert g.oldRange.start == 1 && h.oldRange.start == 2 by { OverlapPlaces(); }
    assert VerdictOf(["a", "b"], g) == Matches && VerdictOf(["a", "b"], h) == Matches;
    assert [g, h][1..] == [h] && [h][1..] == [];
    assert VerdictOfAll(["a", "b"], [h]) == Matches;
  }

  lemma OverlapPlaces()
    ensures ReplacesB().oldRange == ReplacesB().newRange == HunkIndices(1, 2)
    ensures ReplacesBAgain().oldRange == ReplacesBAgain().newRange == HunkIndices(2, 1)
  {
  }

  /** The test lets a hunk through that takes up again the last line of the one before it. */
  lemma OverlapByOne()
    ensures var g, h := ReplacesB(), ReplacesBAgain();
            && IsValid(g) && IsValid(h) && !Ordered([g, h]) && VerdictOfAll(["a", "b"], [g, h]) == Matches
            && RunOf(2, [g, h], "yy", 0) == Session([g, h], [true, true], Finished)
  {
    var g, h := ReplacesB(), ReplacesBAgain();
    OverlapTexts();
    OverlapMatches();
    OverlapPlaces();
    hide OldText, NewText, VerdictOfAll, ReplacesB, ReplacesBAgain, RunOf;
    assert EndOf([g, h][0]) == 2 && [g, h][1].oldRange.start == 2;
    assert "yy"[1..] == "y" && "y"[1..] == "" && [h] + [] == [h] && [g] + [h] == [g, h];
    OneAccepted(2, h, [], "y", 2);
    AllAccepted(2);
    OneAccepted(2, g, [h], "yy", 0);
  }

  lemma OneAccepted(size: nat, h: Hunk, rest: seq<Hunk>, answers: string, last: int)
    requires answers != "" && answers[0] == 'y' && last <= h.oldRange.start && 0 <= last
    requires h.oldRange.start - 1 <= size
    ensures RunOf(size, [h] + rest, answers, last) == Decided(h, true, RunOf(size, rest, answers[1..], EndOf(h)))
  {
    assert ([h] + rest)[1..] == rest;
  }

  lemma AllAccepted(last: nat)
    ensures RunOf(2, [], "", last) == Session([], [], Finished)
  {
  }

  lemma OneText(l: MarkedLine)
    ensures OldText([l]) == (if l.marker == Added then [] else [l.text])
    ensures NewText([l]) == (if l.marker == Deleted then [] else [l.text])
  {
    assert [l][..0] == [];
  }

  // ----- the answers for all remaining hunks

  /** The answers with 'a' read as 'y' and 'd' as 'n'. */
  function ForOneHunk(answers: string): (r: string)
    ensures |r| == |answers|
  {
    seq(|answers|, i requires 0 <= i < |answers| =>
          if answers[i] == 'a' then 'y' else if answers[i] == 'd' then 'n' else answers[i])
  }

  /** The answers that should decide all remaining hunks decide one. */
  lemma {:induction false} DecidesOneHunk(worklist: seq<Hunk>, answers: string)
    ensures Answered(worklist, ForOneHunk(answers)) == Answered(worklist, answers)
    decreases |answers|
  {
    if worklist != [] && answers != "" {
      hide SplitOf, ForOneHunk;
      ReadsAs(answers);
      var h, rest, later := worklist[0], worklist[1..], answers[1..];
      if answers[0] in "yand" {
        DecidesOneHunk(rest, later);
      } else if answers[0] != 's' {
        DecidesOneHunk(worklist, later);
      } else if h.lines != [] {
        DecidesOneHunk(SplitOf(h) + rest, later);
      }
    }
  }

  lemma ReadsAs(answers: string)
    requires answers != ""
    ensures var r := ForOneHunk(answers);
            && r[1..] == ForOneHunk(answers[1..])
            && r[0] == if answers[0] == 'a' then 'y' else if answers[0] == 'd' then 'n' else answers[0]
  {
  }

  /** So 'a' accepts all remaining hunks if and only if one remains; otherwise the questions go on. */
  lemma AcceptsRemaining(worklist: seq<Hunk>)
    requires worklist != []
    ensures Answered(worklist, "a").ending == (if |worklist| == 1 then Finished else Quit(worklist[1]))
    ensures Answered(worklist, "a").pieces == [worklist[0]]
  {
    var rest := worklist[1..];
    assert "a"[1..] == "";
    assert rest == [] <==> |worklist| == 1;
    assert Answered(rest, "") == if rest == [] then Session([], [], Finished) else Session([], [], Quit(rest[0]));
  }

  // ----- the answers, one by one

  predicate OnlyYesNo(answers: string) { forall i :: 0 <= i < |answers| ==> answers[i] == 'y' || answers[i] == 'n' }

  function Yes(answers: string): (verdicts: seq<bool>)
    ensures |verdicts| == |answers|
  {
    seq(|answers|, i requires 0 <= i < |answers| => answers[i] == 'y')
  }

  /** Answering every hunk with yes or no decides just that, and what follows is never read. */
  lemma {:induction false} DecidesEach(worklist: seq<Hunk>, answers: string, more: string)
    requires OnlyYesNo(answers) && |answers| == |worklist|
    ensures Answered(worklist, answers + more) == Session(worklist, Yes(answers), Finished)
    decreases |answers|
  {
    if answers == "" {
      assert answers + more == more;
    } else {
      var rest, later := worklist[1..], answers[1..];
      DecidesEach(rest, later, more);
      assert (answers + more)[0] == answers[0] && (answers + more)[1..] == later + more;
      assert worklist == [worklist[0]] + rest && Yes(answers) == [answers[0] == 'y'] + Yes(later);
    }
  }

  /** Giving up at any hunk keeps what was decided before and leaves the file alone. */
  lemma {:induction false} GivesUpAt(worklist: seq<Hunk>, answers: string, more: string)
    requires OnlyYesNo(answers) && |answers| < |worklist| && (more == "" || more[0] == 'q')
    ensures var n := |answers|; Answered(worklist, answers + more) == Session(worklist[..n], Yes(answers), Quit(worklist[n]))
    decreases |answers|
  {
    if answers == "" {
      assert answers + more == more;
    } else {
      var rest, later := worklist[1..], answers[1..];
      GivesUpAt(rest, later, more);
      assert (answers + more)[0] == answers[0] && (answers + more)[1..] == later + more;
      assert worklist[..|answers|] == [worklist[0]] + rest[..|later|] && Yes(answers) == [answers[0] == 'y'] + Yes(later);
    }
  }

  /** Splitting a hunk puts its parts to the question, one by one and before the rest. */
  lemma SplitsThenDecides(h: Hunk, rest: seq<Hunk>, answers: string)
    requires h.lines != [] && OnlyYesNo(answers) && |answers| == |SplitOf(h)| + |rest|
    ensures Answered([h] + rest, "s" + answers) == Session(SplitOf(h) + rest, Yes(answers), Finished)
  {
    hide SplitOf;
    DecidesEach(SplitOf(h) + rest, answers, "");
    assert answers + "" == answers && ("s" + answers)[1..] == answers && ([h] + rest)[1..] == rest;
  }

  // ----- what a match means

  /** The line with this number has this text. */
  predicate LineStands(original: seq<string>, number: int, text: string) {
    1 <= number <= |original| && original[number - 1] == text
  }

  /** The lines among the first k that are not added. */
  function OldOnes(lines: seq<MarkedLine>, k: nat): set<int> {
    set i | 0 <= i < k && i < |lines| && lines[i].marker != Added
  }

  /** The old number of line k is that of the hunk plus the lines before it that are not added. */
  function OldNumber(h: Hunk, k: nat): int { h.oldRange.start + |OldOnes(h.lines, k)| }

  lemma {:induction false} OldTextCounts(lines: seq<MarkedLine>, k: nat)
    requires k <= |lines|
    ensures |OldText(lines[..k])| == |OldOnes(lines, k)|
  {
    if k == 0 {
      assert OldOnes(lines, 0) == {};
    } else {
      OldTextCounts(lines, k - 1);
      assert lines[..k][..k - 1] == lines[..k - 1];
      assert OldOnes(lines, k) == OldOnes(lines, k - 1) + if lines[k - 1].marker != Added then {k - 1} else {};
    }
  }

  /** Every line of the hunk that is not added stands in the file where its number says. */
  ghost predicate LinesStand(original: seq<string>, h: Hunk, n: nat)
    requires n <= |h.lines|
  {
    forall k :: 0 <= k < n && h.lines[k].marker != Added ==> LineStands(original, OldNumber(h, k), h.lines[k].text)
  }

  lemma LinesStandMore(original: seq<string>, h: Hunk, n: nat)
    requires 0 < n <= |h.lines|
    ensures LinesStand(original, h, n)
       <==> LinesStand(original, h, n - 1)
            && (h.lines[n - 1].marker != Added ==> LineStands(original, OldNumber(h, n - 1), h.lines[n - 1].text))
  {
    hide OldNumber, LineStands;
  }

  /** Some old text, if there is any, stands in the file at the start of the hunk. */
  ghost predicate TextStands(original: seq<string>, start: int, text: seq<string>) {
    text == [] || (1 <= start && StandsAt(original, start - 1, text))
  }

  lemma OldTextMore(h: Hunk, n: nat)
    requires 0 < n <= |h.lines|
    ensures var l, before := h.lines[n - 1], OldText(h.lines[..n - 1]);
            OldText(h.lines[..n]) == if l.marker != Added then before + [l.text] else before
  {
    assert h.lines[..n][..n - 1] == h.lines[..n - 1];
  }

  lemma {:induction false} PrefixStands(original: seq<string>, h: Hunk, n: nat)
    requires n <= |h.lines|
    ensures LinesStand(original, h, n) <==> TextStands(original, h.oldRange.start, OldText(h.lines[..n]))
  {
    hide LinesStand, OldText, TextStands, LineStands, OldOnes;
    if n == 0 {
      NothingStands(original, h);
    } else {
      PrefixStands(original, h, n - 1);
      OldTextCounts(h.lines, n - 1);
      OldTextMore(h, n);
      LinesStandMore(original, h, n);
      OneMoreStands(original, h.oldRange.start, OldText(h.lines[..n - 1]), h.lines[n - 1].text);
    }
  }

  lemma NothingStands(original: seq<string>, h: Hunk)
    ensures LinesStand(original, h, 0) && TextStands(original, h.oldRange.start, OldText(h.lines[..0]))
  {
  }

  lemma OneMoreStands(original: seq<string>, start: int, before: seq<string>, line: string)
    ensures TextStands(original, start, before + [line])
       <==> TextStands(original, start, before) && LineStands(original, start + |before|, line)
  {
    var text := before + [line];
    if 1 <= start && StandsAt(original, start - 1, text) {
      assert forall i :: 0 <= i < |before| ==> text[i] == before[i];
      assert text[|before|] == line;
    }
  }

  /** A hunk matches exactly if all its lines but the added ones stand in the file at their old numbers. */
  lemma MatchesExactly(original: seq<string>, h: Hunk)
    ensures VerdictOf(original, h) == Matches <==> LinesStand(original, h, |h.lines|)
  {
    PrefixStands(original, h, |h.lines|);
    assert h.lines[..|h.lines|] == h.lines;
  }

  /** With a header that counts its lines, it is then in place. */
  lemma MatchesIsInPlace(original: seq<string>, h: Hunk)
    requires IsValid(h) && 1 <= h.oldRange.start && h.lines != []
    ensures InPlace(original, h) <==> VerdictOf(original, h) == Matches && EndOf(h) <= |original|
  {
    if InPlace(original, h) {
      InPlaceStands(original, h);
    }
  }
}

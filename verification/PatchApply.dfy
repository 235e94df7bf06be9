/** FilePatch::PickApply: applying a patch hunk by hunk, as the user answers. */
module PatchApply {
  import opened Patch
  import Seqs

  // ----- the simple definition: a patch is a list of placed lines

  function Slice(lines: seq<string>, a: int, b: int): seq<string> {
    if 0 <= a <= b <= |lines| then lines[a..b] else []
  }

  /** What has been written after some placed lines, and how many original lines are used up. */
  datatype Emission = Emission(text: seq<string>, pos: int)

  function Emit(original: seq<string>, ps: seq<Placed>): Emission {
    if ps == [] then Emission([], 0) else
      var e, p := Emit(original, ps[..|ps| - 1]), ps[|ps| - 1];
      var upTo := p.old_ - 1;
      Emission(e.text + Slice(original, e.pos, upTo) + (if p.line.marker == Deleted then [] else [p.line.text]),
               if p.line.marker == Added then upTo else upTo + 1)
  }

  /** The original with every placed line applied, line by line. */
  function Patched(original: seq<string>, ps: seq<Placed>): seq<string> {
    var e := Emit(original, ps);
    e.text + Slice(original, e.pos, |original|)
  }

  // ----- hunks against the original

  /** The old lines of h are the original lines at its place. */
  ghost predicate InPlace(original: seq<string>, h: Hunk) {
    && IsValid(h) && 1 <= h.oldRange.start && h.lines != []
    && h.oldRange.start - 1 + h.oldRange.count <= |original|
    && original[h.oldRange.start - 1..h.oldRange.start - 1 + h.oldRange.count] == OldText(h.lines)
  }

  function EndOf(h: Hunk): int { h.oldRange.start - 1 + h.oldRange.count }

  ghost predicate Ordered(hs: seq<Hunk>) {
    forall i, j :: 0 <= i < j < |hs| ==> EndOf(hs[i]) <= hs[j].oldRange.start - 1
  }

  ghost predicate Applicable(original: seq<string>, hs: seq<Hunk>) {
    Ordered(hs) && forall h :: h in hs ==> InPlace(original, h)
  }

  /** The text stands in the original from position s on. */
  ghost predicate StandsAt(original: seq<string>, s: int, text: seq<string>) {
    forall i :: 0 <= i < |text| ==> 0 <= s + i < |original| && original[s + i] == text[i]
  }

  lemma NoOldText(lines: seq<MarkedLine>)
    ensures OldText(lines[..0]) == []
  {
  }

  /** Which old line a line of a hunk is. */
  lemma OldTextUpTo(lines: seq<MarkedLine>, k: nat)
    requires k < |lines|
    ensures var n, text := |OldText(lines[..k])|, OldText(lines);
            && |OldText(lines[..k + 1])| == n + (if lines[k].marker == Added then 0 else 1) <= |text|
            && (lines[k].marker != Added ==> text[n] == lines[k].text)
  {
    var front := lines[..k + 1];
    assert front[..k] == lines[..k];
    Seqs.Halves(lines, k + 1);
    TextConcat(front, lines[k + 1..]);
    assert OldText(front) == OldText(lines[..k]) + if lines[k].marker == Added then [] else [lines[k].text];
  }

  /** What comparing a hunk with the file finds. */
  datatype Verdict = Matches | Differs | ReadsOutside

  /** A hunk without old lines matches anywhere; old lines before line 1 are read from outside of the file. */
  ghost function VerdictOf(original: seq<string>, h: Hunk): Verdict {
    if OldText(h.lines) == [] then Matches
    else if h.oldRange.start < 1 then ReadsOutside
    else if StandsAt(original, h.oldRange.start - 1, OldText(h.lines)) then Matches
    else Differs
  }

  /** Hunk::VerifyAgainstOriginalLines */
  method VerifyAgainstOriginalLines(original: seq<string>, h: Hunk) returns (v: Verdict)
    ensures v == VerdictOf(original, h)
  {
    hide OldText;
    var lineNumber := h.oldRange.start;
    ghost var text := OldText(h.lines);
    NoOldText(h.lines);
    for k := 0 to |h.lines|
      invariant lineNumber == h.oldRange.start + |OldText(h.lines[..k])| <= h.oldRange.start + |text|
      invariant h.oldRange.start < 1 ==> lineNumber == h.oldRange.start
      invariant StandsAt(original, h.oldRange.start - 1, text[..lineNumber - h.oldRange.start])
    {
      OldTextUpTo(h.lines, k);
      if h.lines[k].marker != Added {
        if lineNumber > |original| {
          return Differs;
        }
        if lineNumber < 1 {
          return ReadsOutside;
        }
        if h.lines[k].text != original[lineNumber - 1] {
          return Differs;
        }
        lineNumber := lineNumber + 1;
      }
    }
    assert h.lines[..|h.lines|] == h.lines;
    assert text[..|text|] == text;
    return Matches;
  }

  /** FilePatch::VerifyAgainstOriginalLines: the first hunk that does not match decides. */
  ghost function VerdictOfAll(original: seq<string>, hs: seq<Hunk>): Verdict {
    if hs == [] then Matches
    else if VerdictOf(original, hs[0]) != Matches then VerdictOf(original, hs[0])
    else VerdictOfAll(original, hs[1..])
  }

  /** One more line: where it stands and what it adds to either text. */
  lemma OneMoreLine(h: Hunk, n: nat)
    requires 0 < n <= |h.lines|
    ensures var a, b, l := h.lines[..n - 1], h.lines[..n], h.lines[n - 1];
            && Tagged(h.oldRange.start, h.newRange.start, b)
               == Tagged(h.oldRange.start, h.newRange.start, a)
                  + [Placed(h.oldRange.start + |OldText(a)|, h.newRange.start + |NewText(a)|, l)]
            && OldText(b) == OldText(a) + (if l.marker == Added then [] else [l.text])
            && NewText(b) == NewText(a) + (if l.marker == Deleted then [] else [l.text])
            && |OldText(b)| <= |OldText(h.lines)|
  {
    assert h.lines[..n][..n - 1] == h.lines[..n - 1];
    assert h.lines == h.lines[..n] + h.lines[n..];
    TextConcat(h.lines[..n], h.lines[n..]);
  }

  /** A hunk is emitted in one go: what lies before it, then its new lines. */
  lemma {:induction false} EmitLines(original: seq<string>, ps: seq<Placed>, h: Hunk, n: nat)
    requires n <= |h.lines| && 1 <= h.oldRange.start
    requires h.oldRange.start - 1 + |OldText(h.lines)| <= |original|
    requires 0 <= Emit(original, ps).pos <= h.oldRange.start - 1
    ensures var e, s := Emit(original, ps), h.oldRange.start - 1;
            Emit(original, ps + Tagged(h.oldRange.start, h.newRange.start, h.lines[..n]))
            == if n == 0 then e
               else Emission(e.text + original[e.pos..s] + NewText(h.lines[..n]), s + |OldText(h.lines[..n])|)
    decreases n
  {
    hide Emit, Tagged, OldText, NewText;
    if n == 0 {
      NothingTagged(h, ps);
    } else {
      EmitLines(original, ps, h, n - 1);
      OneMoreLine(h, n);
      NothingTagged(h, ps);
      var before := ps + Tagged(h.oldRange.start, h.newRange.start, h.lines[..n - 1]);
      var p := Placed(h.oldRange.start + |OldText(h.lines[..n - 1])|,
                      h.newRange.start + |NewText(h.lines[..n - 1])|, h.lines[n - 1]);
      assert ps + Tagged(h.oldRange.start, h.newRange.start, h.lines[..n]) == before + [p];
      EmitOne(original, before, p);
      var e, s := Emit(original, ps), h.oldRange.start - 1;
      var added := if p.line.marker == Deleted then [] else [p.line.text];
      if n == 1 {
        assert h.lines[..0] == [] && NewText(h.lines[..1]) == added;
      } else {
        assert Slice(original, s + |OldText(h.lines[..n - 1])|, p.old_ - 1) == [];
        assert (e.text + original[e.pos..s] + NewText(h.lines[..n - 1])) + [] + added
            == e.text + original[e.pos..s] + (NewText(h.lines[..n - 1]) + added);
      }
    }
  }

  lemma NothingTagged(h: Hunk, ps: seq<Placed>)
    ensures ps + Tagged(h.oldRange.start, h.newRange.start, h.lines[..0]) == ps
    ensures OldText(h.lines[..0]) == [] && NewText(h.lines[..0]) == []
  {
  }

  lemma EmitOne(original: seq<string>, ps: seq<Placed>, p: Placed)
    ensures var e := Emit(original, ps);
            Emit(original, ps + [p]) == Emission(
              e.text + Slice(original, e.pos, p.old_ - 1) + (if p.line.marker == Deleted then [] else [p.line.text]),
              if p.line.marker == Added then p.old_ - 1 else p.old_)
  {
    assert (ps + [p])[..|ps|] == ps;
  }

  // ----- the answers

  datatype Outcome =
    | Written(lines: seq<string>)
    | Unchanged
    | DoesNotMatch
    | NotOrdered
    | CheckFailed
    | OutOfRange  // lines before the first one were read

  /** The hunks that were accepted. */
  function Accepted(pieces: seq<Hunk>, verdicts: seq<bool>): seq<Hunk>
    requires |verdicts| == |pieces|
  {
    if pieces == [] then [] else
      Accepted(pieces[..|pieces| - 1], verdicts[..|pieces| - 1])
      + if verdicts[|pieces| - 1] then [pieces[|pieces| - 1]] else []
  }

  /** The output is what the accepted hunks emit, copied on up to some original line. */
  ghost predicate OutputIs(original: seq<string>, accepted: seq<Hunk>, output: seq<string>, last: int) {
    var e := Emit(original, TaggedHunks(accepted));
    0 <= e.pos <= last <= |original| && output == e.text + original[e.pos..last]
  }

  lemma CopyMore(original: seq<string>, accepted: seq<Hunk>, output: seq<string>, last: int, to: int)
    requires OutputIs(original, accepted, output, last) && last <= to <= |original|
    ensures 0 <= last && OutputIs(original, accepted, output + Slice(original, last, to), to)
  {
    var e := Emit(original, TaggedHunks(accepted));
    assert original[e.pos..to] == original[e.pos..last] + original[last..to];
  }

  lemma AcceptHunk(original: seq<string>, accepted: seq<Hunk>, output: seq<string>, h: Hunk)
    requires OutputIs(original, accepted, output, h.oldRange.start - 1) && InPlace(original, h)
    ensures OutputIs(original, accepted + [h], output + NewText(h.lines), EndOf(h))
  {
    hide Emit, Tagged, OldText, NewText;
    var ps := TaggedHunks(accepted);
    assert (accepted + [h])[..|accepted|] == accepted;
    assert TaggedHunks(accepted + [h]) == ps + TaggedHunk(h);
    EmitLines(original, ps, h, |h.lines|);
    NothingTagged(h, ps);
    assert h.lines[..|h.lines|] == h.lines;
    assert original[EndOf(h)..EndOf(h)] == [];
  }

  datatype CopyStatus = Copied | PastEnd | Outside

  function Max(a: int, b: int): int { if a < b then b else a }

  /** Copying needs no line, or lines before the first, or lines after the last, or lines of the file. */
  function CopyStatusOf(size: int, last: int, to: int): CopyStatus {
    if to <= last then Copied else if last < 0 then Outside else if size < to then PastEnd else Copied
  }

  /** Copies original lines up to, not including, position to; fails a check past the end. */
  method CopyLines(original: seq<string>, output0: seq<string>, last0: int, to: int)
    returns (output: seq<string>, last: int, status: CopyStatus)
    ensures status == CopyStatusOf(|original|, last0, to)
    ensures status == Copied ==> last == Max(last0, to)
    ensures status == Copied ==> output == output0 + Slice(original, last0, Max(last0, to))
  {
    output, last := output0, last0;
    while last < to
      invariant last0 <= last <= Max(last0, to) && (last0 < last ==> 0 <= last0 && last <= |original|)
      invariant output == output0 + Slice(original, last0, last)
    {
      if last >= |original| {
        return output, last, PastEnd;
      }
      if last < 0 {
        return output, last, Outside;
      }
      output := output + [original[last]];
      last := last + 1;
    }
    return output, last, Copied;
  }

  /** The lines of an accepted hunk. */
  method NewLines(lines: seq<MarkedLine>) returns (r: seq<string>)
    ensures r == NewText(lines)
  {
    r := [];
    for i := 0 to |lines|
      invariant r == NewText(lines[..i])
    {
      assert lines[..i + 1][..i] == lines[..i];
      if lines[i].marker != Deleted {
        r := r + [lines[i].text];
      }
    }
    assert lines[..|lines|] == lines;
  }

  // ----- replacing a hunk by its parts

  lemma PartsApplicable(original: seq<string>, h: Hunk, parts: seq<Hunk>)
    requires InPlace(original, h) && SplitsInto(h, parts)
    ensures Applicable(original, parts)
    ensures forall p :: p in parts ==> h.oldRange.start <= p.oldRange.start && EndOf(p) <= EndOf(h)
  {
    forall i | 0 <= i < |parts|
      ensures InPlace(original, parts[i])
      ensures h.oldRange.start <= parts[i].oldRange.start && EndOf(parts[i]) <= EndOf(h)
    {
      PartInPlace(original, h, parts, i);
    }
    forall i, j | 0 <= i < j < |parts| ensures EndOf(parts[i]) <= parts[j].oldRange.start - 1 {
      PartsInOrder(h, parts, i, j);
    }
  }

  lemma {:induction false} LinesOfPrefix(parts: seq<Hunk>, n: nat)
    requires n <= |parts|
    ensures exists rest :: AllLines(parts) == AllLines(parts[..n]) + rest
    decreases |parts|
  {
    if n == |parts| {
      assert parts[..n] == parts;
      assert AllLines(parts) == AllLines(parts[..n]) + [];
    } else {
      var init := parts[..|parts| - 1];
      LinesOfPrefix(init, n);
      assert init[..n] == parts[..n];
      var rest :| AllLines(init) == AllLines(parts[..n]) + rest;
      assert AllLines(parts) == AllLines(parts[..n]) + (rest + parts[|parts| - 1].lines);
    }
  }

  /** Where part i stands among the lines of the whole. */
  lemma Locate(h: Hunk, parts: seq<Hunk>, i: nat) returns (before: seq<MarkedLine>, rest: seq<MarkedLine>)
    requires SplitsInto(h, parts) && i < |parts|
    ensures before == AllLines(parts[..i]) && h.lines == before + parts[i].lines + rest
    ensures parts[i].oldRange.start == h.oldRange.start + |OldText(before)|
    ensures IsValid(parts[i]) && parts[i].lines != []
  {
    hide TaggedHunks, TaggedHunk, OldText, NewText, IsValid, AllLines;
    assert parts[i] in parts;
    before := AllLines(parts[..i]);
    LinesOfPrefix(parts, i + 1);
    rest :| AllLines(parts) == AllLines(parts[..i + 1]) + rest;
    LastPart(parts, i);
  }

  lemma MiddleSlice(original: seq<string>, s: int, n: int, a: seq<string>, b: seq<string>, c: seq<string>)
    requires 0 <= s <= s + n <= |original| && original[s..s + n] == a + b + c
    ensures s + |a| + |b| <= s + n
    ensures original[s + |a|..s + |a| + |b|] == b
  {
    var l := original[s + |a|..s + |a| + |b|];
    forall i | 0 <= i < |b| ensures l[i] == b[i] {
      assert original[s..s + n][|a| + i] == (a + b + c)[|a| + i];
    }
  }

  lemma PartInPlace(original: seq<string>, h: Hunk, parts: seq<Hunk>, i: nat)
    requires InPlace(original, h) && SplitsInto(h, parts) && i < |parts|
    ensures InPlace(original, parts[i])
    ensures h.oldRange.start <= parts[i].oldRange.start && EndOf(parts[i]) <= EndOf(h)
  {
    hide SplitsInto, OldText, NewText, AllLines;
    var before, rest := Locate(h, parts, i);
    var p := parts[i].lines;
    TextConcat(before + p, rest);
    TextConcat(before, p);
    MiddleSlice(original, h.oldRange.start - 1, h.oldRange.count, OldText(before), OldText(p), OldText(rest));
  }

  lemma PartsInOrder(h: Hunk, parts: seq<Hunk>, i: nat, j: nat)
    requires SplitsInto(h, parts) && i < j < |parts|
    ensures EndOf(parts[i]) <= parts[j].oldRange.start - 1
  {
    hide SplitsInto, OldText, NewText, AllLines;
    var beforeI, _ := Locate(h, parts, i);
    var beforeJ, _ := Locate(h, parts, j);
    var pre := parts[..j];
    LinesOfPrefix(pre, i + 1);
    var rest :| AllLines(pre) == AllLines(pre[..i + 1]) + rest;
    LastPart(parts, i);
    assert pre[..i + 1] == parts[..i + 1];
    TextConcat(AllLines(pre[..i + 1]), rest);
    TextConcat(beforeI, parts[i].lines);
  }

  lemma LastPart(parts: seq<Hunk>, i: nat)
    requires i < |parts|
    ensures AllLines(parts[..i + 1]) == AllLines(parts[..i]) + parts[i].lines
  {
    assert parts[..i + 1][..i] == parts[..i];
  }

  /** What the loop keeps: the rest can be applied after the last line consumed. */
  ghost predicate RestOk(original: seq<string>, worklist: seq<Hunk>, last: int) {
    && Applicable(original, worklist)
    && (forall h :: h in worklist ==> last <= h.oldRange.start - 1)
  }

  lemma SplitKeepsRest(original: seq<string>, worklist: seq<Hunk>, parts: seq<Hunk>, last: int)
    requires worklist != [] && RestOk(original, worklist, last) && SplitsInto(worklist[0], parts)
    ensures RestOk(original, parts + worklist[1..], last)
    ensures TaggedHunks(parts + worklist[1..]) == TaggedHunks(worklist)
  {
    hide InPlace, SplitsInto, TaggedHunks;
    var h, rest := worklist[0], worklist[1..];
    assert worklist == [h] + rest && h in worklist;
    PartsApplicable(original, h, parts);
    var new_ := parts + rest;
    forall i, j | 0 <= i < j < |new_| ensures EndOf(new_[i]) <= new_[j].oldRange.start - 1 {
      assert j >= |parts| ==> new_[j] == worklist[j - |parts| + 1];
      assert i >= |parts| ==> new_[i] == worklist[i - |parts| + 1];
      assert i < |parts| ==> new_[i] == parts[i] && parts[i] in parts;
      assert j < |parts| ==> new_[j] == parts[j];
    }
    forall g | g in new_ ensures InPlace(original, g) && last <= g.oldRange.start - 1 {
      assert g in parts || g in worklist;
    }
    TaggedHunksConcat(parts, rest);
    TaggedHunksConcat([h], rest);
    SingleTagged(h, parts);
  }

  lemma SingleTagged(h: Hunk, parts: seq<Hunk>)
    ensures TaggedHunks([h]) == TaggedHunk(h)
    ensures SplitsInto(h, parts) ==> TaggedHunks(parts) == TaggedHunk(h)
  {
    assert [h][..0] == [];
  }

  // ----- what the answers decide

  datatype Ending =
    | Finished
    | Quit(at: Hunk)
    | Misordered(at: Hunk)
    | CopiesPastEnd
    | ReadsBeforeStart
    | SplitsNothing

  /** The hunks or parts of hunks that were decided, in order, and how the questions ended. */
  datatype Session = Session(pieces: seq<Hunk>, verdicts: seq<bool>, ending: Ending)

  function Decided(h: Hunk, v: bool, later: Session): Session {
    later.(pieces := [h] + later.pieces, verdicts := [v] + later.verdicts)
  }

  /** What the answers say about the hunks, each read in turn: y and a accept, n and d reject, s puts
      the parts of a hunk in its place, q and the end of the answers give up, and anything else asks again. */
  ghost function Answered(worklist: seq<Hunk>, answers: string): (s: Session)
    ensures |s.pieces| == |s.verdicts|
    decreases |answers|
  {
    if worklist == [] then Session([], [], Finished)
    else
      var h, rest := worklist[0], worklist[1..];
      if answers == "" || answers[0] == 'q' then Session([], [], Quit(h))
      else if answers[0] in "ya" then Decided(h, true, Answered(rest, answers[1..]))
      else if answers[0] in "nd" then Decided(h, false, Answered(rest, answers[1..]))
      else if answers[0] != 's' then Answered(worklist, answers[1..])
      else if h.lines == [] then Session([], [], SplitsNothing)
      else Answered(SplitOf(h) + rest, answers[1..])
  }

  /** The same with the number of original lines used up, which can end the questions early. */
  ghost function RunOf(size: int, worklist: seq<Hunk>, answers: string, last: int): (s: Session)
    ensures |s.pieces| == |s.verdicts|
    decreases |answers|
  {
    if worklist == [] then Session([], [], if CopyStatusOf(size, last, size) == Outside then ReadsBeforeStart else Finished)
    else
      var h, rest := worklist[0], worklist[1..];
      var to := h.oldRange.start - 1;
      var at := Max(last, to);
      if h.oldRange.start < last then Session([], [], Misordered(h))
      else if CopyStatusOf(size, last, to) == Outside then Session([], [], ReadsBeforeStart)
      else if CopyStatusOf(size, last, to) == PastEnd then Session([], [], CopiesPastEnd)
      else if answers == "" || answers[0] == 'q' then Session([], [], Quit(h))
      else if answers[0] in "ya" then Decided(h, true, RunOf(size, rest, answers[1..], EndOf(h)))
      else if answers[0] in "nd" then Decided(h, false, RunOf(size, rest, answers[1..], at))
      else if answers[0] != 's' then RunOf(size, worklist, answers[1..], at)
      else if h.lines == [] then Session([], [], SplitsNothing)
      else RunOf(size, SplitOf(h) + rest, answers[1..], at)
  }

  function Then(pieces: seq<Hunk>, verdicts: seq<bool>, later: Session): Session {
    later.(pieces := pieces + later.pieces, verdicts := verdicts + later.verdicts)
  }

  lemma ThenDecided(pieces: seq<Hunk>, verdicts: seq<bool>, h: Hunk, v: bool, later: Session)
    ensures Then(pieces, verdicts, Decided(h, v, later)) == Then(pieces + [h], verdicts + [v], later)
  {
    Seqs.Associative(pieces, [h], later.pieces);
    Seqs.Associative(verdicts, [v], later.verdicts);
  }

  lemma OneMoreVerdict(pieces: seq<Hunk>, verdicts: seq<bool>, h: Hunk, v: bool)
    requires |verdicts| == |pieces|
    ensures v ==> Accepted(pieces + [h], verdicts + [v]) == Accepted(pieces, verdicts) + [h]
    ensures !v ==> Accepted(pieces + [h], verdicts + [v]) == Accepted(pieces, verdicts)
  {
    assert (pieces + [h])[..|pieces|] == pieces && (verdicts + [v])[..|pieces|] == verdicts;
  }

  lemma NextTags(pieces: seq<Hunk>, worklist: seq<Hunk>)
    requires worklist != []
    ensures TaggedHunks(pieces + [worklist[0]]) + TaggedHunks(worklist[1..]) == TaggedHunks(pieces) + TaggedHunks(worklist)
  {
    var h, rest := worklist[0], worklist[1..];
    assert worklist == [h] + rest;
    TaggedHunksConcat([h], rest);
    TaggedHunksConcat(pieces, [h]);
  }

  lemma FrontOfRest(original: seq<string>, worklist: seq<Hunk>, last: int)
    requires worklist != [] && RestOk(original, worklist, last)
    ensures var h := worklist[0];
            InPlace(original, h) && h.lines != [] && last <= h.oldRange.start - 1 && 0 <= h.oldRange.start - 1 <= EndOf(h) <= |original|
  {
    assert worklist[0] in worklist;
  }

  lemma RestAfterFront(original: seq<string>, worklist: seq<Hunk>, last: int, last': int)
    requires worklist != [] && RestOk(original, worklist, last) && last' <= EndOf(worklist[0])
    ensures RestOk(original, worklist[1..], last')
  {
    hide InPlace, EndOf;
    var rest := worklist[1..];
    forall g | g in rest ensures InPlace(original, g) && last' <= g.oldRange.start - 1 {
      var j :| 0 <= j < |rest| && rest[j] == g;
      assert worklist[j + 1] == g && g in worklist;
    }
    forall i, j | 0 <= i < j < |rest| ensures EndOf(rest[i]) <= rest[j].oldRange.start - 1 {
      assert rest[i] == worklist[i + 1] && rest[j] == worklist[j + 1];
    }
  }

  lemma FinalOutput(original: seq<string>, accepted: seq<Hunk>, output: seq<string>)
    requires OutputIs(original, accepted, output, |original|)
    ensures output == Patched(original, TaggedHunks(accepted))
  {
  }

  /** How the end of the questions shows. */
  predicate Shows(ending: Ending, outcome: Outcome) {
    match ending
    case Finished => outcome.Written?
    case Quit(_) => outcome == Unchanged
    case Misordered(_) => outcome == NotOrdered
    case CopiesPastEnd => outcome == CheckFailed
    case ReadsBeforeStart => outcome == OutOfRange
    case SplitsNothing => outcome == CheckFailed
  }

  /** Applies the hunks the user accepts. Every prompt reads one answer; at the end of the
      answers the prompt yields 'q'. */
  method PickApply(original: seq<string>, hunks: seq<Hunk>, answers: string) returns (outcome: Outcome)
    ensures VerdictOfAll(original, hunks) == Differs ==> outcome == DoesNotMatch
    ensures VerdictOfAll(original, hunks) == ReadsOutside ==> outcome == OutOfRange
    ensures VerdictOfAll(original, hunks) == Matches ==> Shows(RunOf(|original|, hunks, answers, 0).ending, outcome)
    ensures Applicable(original, hunks) ==> Shows(Answered(hunks, answers).ending, outcome)
    ensures Applicable(original, hunks) && outcome.Written? ==>
              var s := Answered(hunks, answers);
              outcome.lines == Patched(original, TaggedHunks(Accepted(s.pieces, s.verdicts)))
  {
    var v := VerifyAll(original, hunks);
    if v == Differs {
      NotApplicable(original, hunks);
      return DoesNotMatch;
    }
    if v == ReadsOutside {
      NotApplicable(original, hunks);
      return OutOfRange;
    }
    hide VerdictOfAll, Applicable, Answered, RunOf, Patched, Accepted, TaggedHunks, Shows;
    if Applicable(original, hunks) {
      ApplicableRun(original, hunks, answers);
    }
    outcome := AskAll(original, hunks, answers);
  }

  method VerifyAll(original: seq<string>, hunks: seq<Hunk>) returns (v: Verdict)
    ensures v == VerdictOfAll(original, hunks)
  {
    hide VerdictOf;
    assert hunks[0..] == hunks;
    for i := 0 to |hunks|
      invariant VerdictOfAll(original, hunks[i..]) == VerdictOfAll(original, hunks)
    {
      assert hunks[i..][1..] == hunks[i + 1..];
      v := VerifyAgainstOriginalLines(original, hunks[i]);
      if v != Matches {
        return v;
      }
    }
    assert hunks[|hunks|..] == [];
    return Matches;
  }

  /** Where the loop over the worklist stands. */
  datatype State = State(
    pieces: seq<Hunk>, verdicts: seq<bool>, output: seq<string>, last: int, worklist: seq<Hunk>, answers: string)

  /** What was decided so far, followed by what the rest of the answers decide, is the whole run; with hunks
      that are in place, the output so far is that of the accepted ones. */
  ghost predicate Midway(original: seq<string>, run: Session, applicable: bool, st: State) {
    && |st.verdicts| == |st.pieces|
    && Then(st.pieces, st.verdicts, RunOf(|original|, st.worklist, st.answers, st.last)) == run
    && (applicable ==> RestOk(original, st.worklist, st.last)
                       && OutputIs(original, Accepted(st.pieces, st.verdicts), st.output, st.last))
  }

  lemma MidwayStart(original: seq<string>, hunks: seq<Hunk>, answers: string)
    ensures Midway(original, RunOf(|original|, hunks, answers, 0), Applicable(original, hunks), State([], [], [], 0, hunks, answers))
  {
    hide RunOf, Applicable, RestOk, OutputIs, Accepted;
    StartState(original, hunks);
    NothingBefore(RunOf(|original|, hunks, answers, 0));
  }

  /** How the run ends if it ends before the next hunk is decided. */
  lemma EndsHere(original: seq<string>, run: Session, applicable: bool, st: State)
    requires Midway(original, run, applicable, st) && st.worklist != []
    ensures var h := st.worklist[0];
            var status := CopyStatusOf(|original|, st.last, h.oldRange.start - 1);
            if h.oldRange.start < st.last then run.ending == Misordered(h)
            else if status == Outside then run.ending == ReadsBeforeStart
            else if status == PastEnd then run.ending == CopiesPastEnd
            else (st.answers == "" || st.answers[0] == 'q' ==> run.ending == Quit(h))
                 && (st.answers != "" && st.answers[0] == 's' && h.lines == [] ==> run.ending == SplitsNothing)
  {
    hide RestOk, OutputIs, Accepted, CopyStatusOf, SplitOf;
  }

  /** The next hunk can be reached. */
  predicate Reaches(original: seq<string>, st: State) {
    && st.worklist != [] && st.answers != "" && st.last <= st.worklist[0].oldRange.start
    && CopyStatusOf(|original|, st.last, st.worklist[0].oldRange.start - 1) == Copied
  }

  /** The output after copying what stands before the next hunk. */
  function OutputBefore(original: seq<string>, st: State): seq<string>
    requires st.worklist != []
  {
    st.output + Slice(original, st.last, Max(st.last, st.worklist[0].oldRange.start - 1))
  }

  lemma Accepts(original: seq<string>, run: Session, applicable: bool, st: State)
    requires Midway(original, run, applicable, st) && Reaches(original, st) && st.answers[0] in "ya"
    ensures var h := st.worklist[0];
            Midway(original, run, applicable,
                   State(st.pieces + [h], st.verdicts + [true], OutputBefore(original, st) + NewText(h.lines), EndOf(h),
                         st.worklist[1..], st.answers[1..]))
  {
    hide RestOk, OutputIs, Accepted, CopyStatusOf, SplitOf, NewText, EndOf, Slice;
    var h := st.worklist[0];
    ThenDecided(st.pieces, st.verdicts, h, true, RunOf(|original|, st.worklist[1..], st.answers[1..], EndOf(h)));
    OneMoreVerdict(st.pieces, st.verdicts, h, true);
    if applicable {
      var accepted := Accepted(st.pieces, st.verdicts);
      CopyFront(original, st.worklist, accepted, st.output, st.last, h.oldRange.start - 1);
      FrontOfRest(original, st.worklist, st.last);
      AcceptHunk(original, accepted, OutputBefore(original, st), h);
      RestAfterFront(original, st.worklist, st.last, EndOf(h));
    }
  }

  /** Copying moves on, without a decision. */
  lemma Moves(original: seq<string>, run: Session, applicable: bool, st: State)
    requires Midway(original, run, applicable, st) && Reaches(original, st)
    ensures var at := Max(st.last, st.worklist[0].oldRange.start - 1);
            applicable ==> RestOk(original, st.worklist, at)
                           && OutputIs(original, Accepted(st.pieces, st.verdicts), OutputBefore(original, st), at)
  {
    hide RestOk, OutputIs, Accepted, CopyStatusOf, RunOf, Slice;
    if applicable {
      CopyFront(original, st.worklist, Accepted(st.pieces, st.verdicts), st.output, st.last, st.worklist[0].oldRange.start - 1);
    }
  }

  lemma Rejects(original: seq<string>, run: Session, applicable: bool, st: State)
    requires Midway(original, run, applicable, st) && Reaches(original, st) && st.answers[0] in "nd"
    ensures var h := st.worklist[0];
            Midway(original, run, applicable,
                   State(st.pieces + [h], st.verdicts + [false], OutputBefore(original, st), Max(st.last, h.oldRange.start - 1),
                         st.worklist[1..], st.answers[1..]))
  {
    hide RestOk, OutputIs, Accepted, CopyStatusOf, SplitOf, EndOf, Slice;
    var h := st.worklist[0];
    var at := Max(st.last, h.oldRange.start - 1);
    ThenDecided(st.pieces, st.verdicts, h, false, RunOf(|original|, st.worklist[1..], st.answers[1..], at));
    OneMoreVerdict(st.pieces, st.verdicts, h, false);
    Moves(original, run, applicable, st);
    if applicable {
      FrontOfRest(original, st.worklist, at);
      RestAfterFront(original, st.worklist, at, at);
    }
  }

  lemma Divides(original: seq<string>, run: Session, applicable: bool, st: State)
    requires Midway(original, run, applicable, st) && Reaches(original, st) && st.answers[0] == 's' && st.worklist[0].lines != []
    requires SplitsInto(st.worklist[0], SplitOf(st.worklist[0]))
    ensures var h := st.worklist[0];
            Midway(original, run, applicable,
                   State(st.pieces, st.verdicts, OutputBefore(original, st), Max(st.last, h.oldRange.start - 1),
                         SplitOf(h) + st.worklist[1..], st.answers[1..]))
  {
    hide RestOk, OutputIs, Accepted, CopyStatusOf, SplitOf, EndOf, Slice, SplitsInto;
    Moves(original, run, applicable, st);
    if applicable {
      SplitKeepsRest(original, st.worklist, SplitOf(st.worklist[0]), Max(st.last, st.worklist[0].oldRange.start - 1));
    }
  }

  lemma AsksAgain(original: seq<string>, run: Session, applicable: bool, st: State)
    requires Midway(original, run, applicable, st) && Reaches(original, st) && st.answers[0] !in "yandsq"
    ensures Midway(original, run, applicable,
                   State(st.pieces, st.verdicts, OutputBefore(original, st), Max(st.last, st.worklist[0].oldRange.start - 1),
                         st.worklist, st.answers[1..]))
  {
    hide RestOk, OutputIs, Accepted, CopyStatusOf, SplitOf, EndOf, Slice, SplitsInto;
    Moves(original, run, applicable, st);
  }

  /** Nothing is left to decide. */
  lemma AllDecided(original: seq<string>, run: Session, applicable: bool, st: State, output: seq<string>)
    requires Midway(original, run, applicable, st) && st.worklist == []
    ensures if CopyStatusOf(|original|, st.last, |original|) == Outside then run.ending == ReadsBeforeStart
            else run == Session(st.pieces, st.verdicts, Finished)
    ensures CopyStatusOf(|original|, st.last, |original|) != PastEnd
    ensures applicable && output == st.output + Slice(original, st.last, Max(st.last, |original|)) ==>
              output == Patched(original, TaggedHunks(Accepted(st.pieces, st.verdicts)))
  {
    hide RestOk, OutputIs, Accepted, TaggedHunks, Patched, Slice;
    CopyToEnd(|original|, st.last);
    NothingAfter(st.pieces, st.verdicts, Finished);
    if applicable && output == st.output + Slice(original, st.last, Max(st.last, |original|)) {
      FinishOutput(original, Accepted(st.pieces, st.verdicts), st.output, st.last, output);
    }
  }

  /** The loop over the worklist. */
  method AskAll(original: seq<string>, hunks: seq<Hunk>, answers: string) returns (outcome: Outcome)
    ensures var run := RunOf(|original|, hunks, answers, 0);
            && Shows(run.ending, outcome)
            && (Applicable(original, hunks) && outcome.Written? ==>
                  outcome.lines == Patched(original, TaggedHunks(Accepted(run.pieces, run.verdicts))))
  {
    hide RunOf, Midway, Accepted, TaggedHunks, SplitsInto, NewText, Patched, Applicable, SplitOf, CopyStatusOf, Slice, EndOf;
    ghost var pieces: seq<Hunk>, verdicts: seq<bool> := [], [];
    var output: seq<string>, last, worklist, next := [], 0, hunks, 0;
    ghost var applicable, run := Applicable(original, hunks), RunOf(|original|, hunks, answers, 0);
    MidwayStart(original, hunks, answers);
    assert answers[0..] == answers;
    while worklist != []
      invariant 0 <= next <= |answers|
      invariant Midway(original, run, applicable, State(pieces, verdicts, output, last, worklist, answers[next..]))
      decreases |answers| - next
    {
      ghost var st := State(pieces, verdicts, output, last, worklist, answers[next..]);
      EndsHere(original, run, applicable, st);
      var hunk := worklist[0];
      if hunk.oldRange.start < last {
        return NotOrdered;
      }
      var status;
      output, last, status := CopyLines(original, output, last, hunk.oldRange.start - 1);
      if status == PastEnd {
        return CheckFailed;
      }
      if status == Outside {
        return OutOfRange;
      }
      if next == |answers| {
        return Unchanged;
      }
      var action := answers[next];
      Seqs.FirstOfRest(answers, next);
      next := next + 1;
      match action {
        case 'y' | 'a' =>
          var added := NewLines(hunk.lines);
          Accepts(original, run, applicable, st);
          output := output + added;
          last := hunk.oldRange.start + hunk.oldRange.count - 1;
          LastIsEnd(hunk);
          pieces, verdicts, worklist := pieces + [hunk], verdicts + [true], worklist[1..];
        case 'n' | 'd' =>
          Rejects(original, run, applicable, st);
          pieces, verdicts, worklist := pieces + [hunk], verdicts + [false], worklist[1..];
        case 's' =>
          if hunk.lines == [] {
            return CheckFailed;
          }
          var subHunks := Split(hunk);
          Divides(original, run, applicable, st);
          worklist := subHunks + worklist[1..];
        case 'q' =>
          return Unchanged;
        case _ =>
          AsksAgain(original, run, applicable, st);
      }
    }
    ghost var st := State(pieces, verdicts, output, last, worklist, answers[next..]);
    var status;
    output, last, status := CopyLines(original, output, last, |original|);
    AllDecided(original, run, applicable, st, output);
    if status == Outside {
      return OutOfRange;
    }
    return Written(output);
  }

  lemma LastIsEnd(h: Hunk)
    ensures h.oldRange.start + h.oldRange.count - 1 == EndOf(h)
  {
  }

  lemma NothingBefore(s: Session)
    ensures Then([], [], s) == s
  {
  }

  lemma NothingAfter(pieces: seq<Hunk>, verdicts: seq<bool>, ending: Ending)
    ensures Then(pieces, verdicts, Session([], [], ending)) == Session(pieces, verdicts, ending)
  {
  }

  lemma CopyToEnd(size: nat, last: int)
    ensures CopyStatusOf(size, last, size) != PastEnd
  {
  }

  /** Copying what stands before the next hunk. */
  lemma CopyFront(original: seq<string>, worklist: seq<Hunk>, accepted: seq<Hunk>, output: seq<string>, last: int, to: int)
    requires worklist != [] && RestOk(original, worklist, last) && to == worklist[0].oldRange.start - 1
    requires OutputIs(original, accepted, output, last)
    ensures last <= to <= |original| && RestOk(original, worklist, to)
    ensures OutputIs(original, accepted, output + Slice(original, last, to), to)
  {
    hide RestOk, OutputIs, InPlace, Slice;
    FrontOfRest(original, worklist, last);
    CopyMore(original, accepted, output, last, to);
    MoveLast(original, worklist, last, to);
  }

  lemma FinishOutput(original: seq<string>, accepted: seq<Hunk>, output0: seq<string>, last0: int, output: seq<string>)
    requires OutputIs(original, accepted, output0, last0) && output == output0 + Slice(original, last0, Max(last0, |original|))
    ensures output == Patched(original, TaggedHunks(accepted))
  {
    LastInBounds(original, accepted, output0, last0);
    CopyMore(original, accepted, output0, last0, |original|);
    FinalOutput(original, accepted, output);
  }

  /** Hunks that are in place match. */
  lemma {:induction false} ApplicableMatches(original: seq<string>, hunks: seq<Hunk>)
    requires forall h :: h in hunks ==> InPlace(original, h)
    ensures VerdictOfAll(original, hunks) == Matches
  {
    if hunks != [] {
      InPlaceStands(original, hunks[0]);
      ApplicableMatches(original, hunks[1..]);
    }
  }

  lemma NotApplicable(original: seq<string>, hunks: seq<Hunk>)
    requires VerdictOfAll(original, hunks) != Matches
    ensures !Applicable(original, hunks)
  {
    if Applicable(original, hunks) {
      ApplicableMatches(original, hunks);
    }
  }

  /** In a patch that fits, nothing but the answers decides. */
  lemma ApplicableRun(original: seq<string>, hunks: seq<Hunk>, answers: string)
    requires Applicable(original, hunks)
    ensures RunOf(|original|, hunks, answers, 0) == Answered(hunks, answers)
  {
    StartState(original, hunks);
    RunIsAnswered(original, hunks, answers, 0);
  }

  lemma {:induction false} RunIsAnswered(original: seq<string>, worklist: seq<Hunk>, answers: string, last: int)
    requires RestOk(original, worklist, last) && 0 <= last
    ensures RunOf(|original|, worklist, answers, last) == Answered(worklist, answers)
    decreases |answers|
  {
    hide RestOk, InPlace, SplitOf, SplitsInto;
    if worklist != [] {
      var h, rest, to := worklist[0], worklist[1..], worklist[0].oldRange.start - 1;
      FrontOfRest(original, worklist, last);
      MoveLast(original, worklist, last, to);
      if answers != "" {
        RestAfterFront(original, worklist, last, EndOf(h));
        RestAfterFront(original, worklist, to, to);
        RunIsAnswered(original, rest, answers[1..], EndOf(h));
        RunIsAnswered(original, rest, answers[1..], to);
        RunIsAnswered(original, worklist, answers[1..], to);
        SplitOfSplits(h);
        SplitKeepsRest(original, worklist, SplitOf(h), to);
        RunIsAnswered(original, SplitOf(h) + rest, answers[1..], to);
      }
    }
  }

  lemma InPlaceStands(original: seq<string>, h: Hunk)
    requires InPlace(original, h)
    ensures VerdictOf(original, h) == Matches
  {
    var s, text := h.oldRange.start - 1, OldText(h.lines);
    forall i | 0 <= i < |text| ensures 0 <= s + i < |original| && original[s + i] == text[i] {
      assert original[s..s + h.oldRange.count][i] == text[i];
    }
  }

  lemma StartState(original: seq<string>, hunks: seq<Hunk>)
    ensures OutputIs(original, Accepted([], []), [], 0)
    ensures Applicable(original, hunks) ==> RestOk(original, hunks, 0)
  {
  }

  lemma MoveLast(original: seq<string>, worklist: seq<Hunk>, last: int, last': int)
    requires worklist != [] && RestOk(original, worklist, last) && last' == worklist[0].oldRange.start - 1
    ensures RestOk(original, worklist, last')
  {
    forall h | h in worklist ensures last' <= h.oldRange.start - 1 {
      var j :| 0 <= j < |worklist| && worklist[j] == h;
      assert worklist[0] in worklist && InPlace(original, worklist[0]);
      if 0 < j {
        assert EndOf(worklist[0]) <= worklist[j].oldRange.start - 1;
      }
    }
  }

  lemma SplitKeepsTags(worklist: seq<Hunk>, parts: seq<Hunk>)
    requires worklist != [] && SplitsInto(worklist[0], parts)
    ensures TaggedHunks(parts + worklist[1..]) == TaggedHunks(worklist)
  {
    var h, rest := worklist[0], worklist[1..];
    assert worklist == [h] + rest;
    TaggedHunksConcat(parts, rest);
    TaggedHunksConcat([h], rest);
    SingleTagged(h, parts);
  }

  lemma LastInBounds(original: seq<string>, accepted: seq<Hunk>, output: seq<string>, last: int)
    requires OutputIs(original, accepted, output, last)
    ensures 0 <= last <= |original|
  {
  }

  // ----- accepting and rejecting everything

  /** A session that finished decided all lines of the hunks, however they were split. */
  lemma {:induction false} FinishedDecidesAll(worklist: seq<Hunk>, answers: string)
    requires Answered(worklist, answers).ending == Finished
    ensures TaggedHunks(Answered(worklist, answers).pieces) == TaggedHunks(worklist)
    decreases |answers|
  {
    if worklist != [] {
      hide TaggedHunks, SplitOf, SplitsInto;
      var h, rest, c := worklist[0], worklist[1..], answers[0];
      if c in "yand" {
        FinishedDecidesAll(rest, answers[1..]);
        assert worklist == [h] + rest;
        TaggedHunksConcat([h], rest);
        TaggedHunksConcat([h], Answered(rest, answers[1..]).pieces);
      } else if c != 's' {
        FinishedDecidesAll(worklist, answers[1..]);
      } else {
        SplitOfSplits(h);
        SplitKeepsTags(worklist, SplitOf(h));
        FinishedDecidesAll(SplitOf(h) + rest, answers[1..]);
      }
    }
  }

  lemma {:induction false} AllVerdicts(worklist: seq<Hunk>, answers: string, v: bool)
    requires forall i :: 0 <= i < |answers| ==> answers[i] !in if v then "nd" else "ya"
    ensures forall i :: 0 <= i < |Answered(worklist, answers).verdicts| ==> Answered(worklist, answers).verdicts[i] == v
    decreases |answers|
  {
    if worklist != [] && answers != "" && answers[0] != 'q' {
      hide SplitOf;
      var h, rest := worklist[0], worklist[1..];
      AllVerdicts(rest, answers[1..], v);
      AllVerdicts(worklist, answers[1..], v);
      if h.lines != [] {
        AllVerdicts(SplitOf(h) + rest, answers[1..], v);
      }
    }
  }

  lemma {:induction false} AcceptAll(pieces: seq<Hunk>, verdicts: seq<bool>)
    requires |verdicts| == |pieces| && forall i :: 0 <= i < |verdicts| ==> verdicts[i]
    ensures Accepted(pieces, verdicts) == pieces
    decreases |pieces|
  {
    if pieces != [] {
      AcceptAll(pieces[..|pieces| - 1], verdicts[..|pieces| - 1]);
    }
  }

  lemma {:induction false} RejectAll(pieces: seq<Hunk>, verdicts: seq<bool>)
    requires |verdicts| == |pieces| && forall i :: 0 <= i < |verdicts| ==> !verdicts[i]
    ensures Accepted(pieces, verdicts) == []
    decreases |pieces|
  {
    if pieces != [] {
      RejectAll(pieces[..|pieces| - 1], verdicts[..|pieces| - 1]);
    }
  }

  /** Answering without a rejection, however often hunks are split, applies the whole patch. */
  lemma AcceptAllIsWholePatch(original: seq<string>, hunks: seq<Hunk>, answers: string)
    requires Answered(hunks, answers).ending == Finished
    requires forall i :: 0 <= i < |answers| ==> answers[i] !in "nd"
    ensures var s := Answered(hunks, answers);
            Patched(original, TaggedHunks(Accepted(s.pieces, s.verdicts))) == Patched(original, TaggedHunks(hunks))
  {
    hide Answered;
    var s := Answered(hunks, answers);
    FinishedDecidesAll(hunks, answers);
    AllVerdicts(hunks, answers, true);
    AcceptAll(s.pieces, s.verdicts);
  }

  /** Answering without an acceptance leaves the original. */
  lemma RejectAllIsOriginal(original: seq<string>, hunks: seq<Hunk>, answers: string)
    requires forall i :: 0 <= i < |answers| ==> answers[i] !in "ya"
    ensures var s := Answered(hunks, answers);
            Patched(original, TaggedHunks(Accepted(s.pieces, s.verdicts))) == original
  {
    var s := Answered(hunks, answers);
    hide Answered, Accepted;
    AllVerdicts(hunks, answers, false);
    RejectAll(s.pieces, s.verdicts);
    assert Emit(original, TaggedHunks([])) == Emission([], 0);
  }
}

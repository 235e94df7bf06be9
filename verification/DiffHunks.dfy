/** Cutting an edit script into hunks with context (verible/common/strings/diff.cc). */
module DiffHunks {
  import opened Edits
  import Seqs
  import EditScript

  type Hunk = seq<Edit>

  // ----- replaying edits

  /** What has been written, and how many tokens of tokens1 are used up. */
  datatype Emission<T> = Emission(text: seq<T>, pos: int)

  /** Replays edits on tokens1; tokens they skip are copied, tokens2 serves inserted runs only. */
  function Replay<T>(tokens1: seq<T>, tokens2: seq<T>, edits: seq<Edit>): Emission<T> {
    if edits == [] then Emission([], 0) else
      var r, e := Replay(tokens1, tokens2, edits[..|edits| - 1]), edits[|edits| - 1];
      match e.operation
      case EQUALS => Emission(r.text + Slice(tokens1, r.pos, e.end), e.end)
      case DELETE => Emission(r.text + Slice(tokens1, r.pos, e.start), e.end)
      case INSERT => Emission(r.text + Slice(tokens2, e.start, e.end), r.pos)
  }

  /** The whole text after replaying: the rest is copied. */
  function Replayed<T>(tokens1: seq<T>, tokens2: seq<T>, edits: seq<Edit>): seq<T> {
    var r := Replay(tokens1, tokens2, edits);
    r.text + Slice(tokens1, r.pos, |tokens1|)
  }

  function Flat(hunks: seq<Hunk>): seq<Edit> {
    if hunks == [] then [] else Flat(hunks[..|hunks| - 1]) + hunks[|hunks| - 1]
  }

  /** The insertions and deletions among the edits. */
  function Changes(edits: seq<Edit>): seq<Edit> {
    if edits == [] then [] else
      Changes(edits[..|edits| - 1]) + if edits[|edits| - 1].operation == EQUALS then [] else [edits[|edits| - 1]]
  }

  lemma {:induction false} ChangesConcat(s: seq<Edit>, t: seq<Edit>)
    ensures Changes(s + t) == Changes(s) + Changes(t)
    decreases |t|
  {
    if t == [] {
      assert s + t == s;
    } else {
      ChangesConcat(s, t[..|t| - 1]);
      assert (s + t)[..|s + t| - 1] == s + t[..|t| - 1];
    }
  }

  /** e is part of an unchanged run of the script. */
  ghost predicate PartOfEqual(edits: seq<Edit>, e: Edit) {
    exists f :: f in edits && f.operation == EQUALS && f.start <= e.start <= e.end <= f.end
  }

  ghost predicate OnlyUnchangedLeftOut(edits: seq<Edit>, flat: seq<Edit>) {
    && Changes(flat) == Changes(edits)
    && forall e :: e in flat && e.operation == EQUALS ==> PartOfEqual(edits, e)
  }

  /** Context is at most c at the ends of a hunk and at most 2c inside it. */
  ghost predicate ContextBounded(h: Hunk, c: int) {
    && (forall i :: 0 <= i < |h| && h[i].operation == EQUALS ==> h[i].end - h[i].start <= 2 * c)
    && (h != [] && h[0].operation == EQUALS ==> h[0].end - h[0].start <= c)
    && (h != [] && h[|h| - 1].operation == EQUALS ==> h[|h| - 1].end - h[|h| - 1].start <= c)
  }

  ghost predicate HasChange(h: Hunk) {
    exists e :: e in h && e.operation != EQUALS
  }

  // ----- where a script is cut

  function Size(e: Edit): int { e.end - e.start }

  predicate IsChange(edits: seq<Edit>, i: int) { 0 <= i < |edits| && edits[i].operation != EQUALS }

  /** An unchanged run that separates hunks: it stands at an end of the script, or is longer than two contexts. */
  predicate Separates(edits: seq<Edit>, c: int, i: int) {
    0 <= i < |edits| && edits[i].operation == EQUALS && (i == 0 || i == |edits| - 1 || Size(edits[i]) > 2 * c)
  }

  /** The edits from a up to b make a hunk: they start and end with a change, and nothing separates them. */
  predicate IsGroup(edits: seq<Edit>, c: int, a: int, b: int) {
    && 0 <= a < b <= |edits| && IsChange(edits, a) && IsChange(edits, b - 1)
    && (a == 0 || Separates(edits, c, a - 1)) && (b == |edits| || Separates(edits, c, b))
    && forall i :: a <= i < b ==> !Separates(edits, c, i)
  }

  /** The context before a group: up to c tokens of the run that precedes it. */
  function Lead(edits: seq<Edit>, c: int, a: int): seq<Edit>
    requires 0 <= a <= |edits|
  {
    if a == 0 then [] else [Edit(EQUALS, if Size(edits[a - 1]) > c then edits[a - 1].end - c else edits[a - 1].start, edits[a - 1].end)]
  }

  /** The context behind it: up to c tokens of the run that follows. */
  function Trail(edits: seq<Edit>, c: int, b: int): seq<Edit>
    requires 0 <= b <= |edits|
  {
    if b == |edits| then [] else [Edit(EQUALS, edits[b].start, if Size(edits[b]) > c then edits[b].start + c else edits[b].end)]
  }

  function HunkAt(edits: seq<Edit>, c: int, a: int, b: int): Hunk
    requires 0 <= a <= b <= |edits|
  {
    Lead(edits, c, a) + edits[a..b] + Trail(edits, c, b)
  }

  /** The hunks are the groups of the script with their contexts, all of them and in order. */
  ghost predicate CutInto(edits: seq<Edit>, c: int, hunks: seq<Hunk>) {
    exists starts, ends :: CutAt(edits, c, hunks, starts, ends) && AllCovered(edits, starts, ends, |edits|)
  }

  ghost predicate CutAt(edits: seq<Edit>, c: int, hunks: seq<Hunk>, starts: seq<int>, ends: seq<int>) {
    && |hunks| == |starts| == |ends|
    && (forall k :: 0 <= k < |hunks| ==>
          IsGroup(edits, c, starts[k], ends[k]) && hunks[k] == HunkAt(edits, c, starts[k], ends[k]))
    && (forall k, l :: 0 <= k < l < |hunks| ==> ends[k] < starts[l])
  }

  ghost predicate AllCovered(edits: seq<Edit>, starts: seq<int>, ends: seq<int>, n: int)
    requires |starts| == |ends|
  {
    forall i :: 0 <= i < n && IsChange(edits, i) ==> exists k :: 0 <= k < |starts| && starts[k] <= i < ends[k]
  }

  // ----- one edit at a time

  /** The last hunk while it grows: its inside and its start are bounded, its tail not yet. */
  ghost predicate Growing(h: Hunk, c: int) {
    && (forall i :: 0 <= i < |h| && h[i].operation == EQUALS ==> h[i].end - h[i].start <= 2 * c)
    && (h != [] && h[0].operation == EQUALS ==> h[0].end - h[0].start <= c)
    && (h != [] ==> HasChange(h) || (|h| == 1 && h[0].operation == EQUALS))
  }

  ghost predicate Closed(h: Hunk, c: int) {
    h != [] && ContextBounded(h, c) && HasChange(h)
  }

  /** All hunks but the last are finished. */
  ghost predicate Building(hunks: seq<Hunk>, c: int) {
    && hunks != []
    && (forall i :: 0 <= i < |hunks| - 1 ==> Closed(hunks[i], c))
    && Growing(hunks[|hunks| - 1], c)
  }

  /** The hunks so far replay exactly to vertex (x, y). */
  ghost predicate ReplaysTo<T>(tokens1: seq<T>, tokens2: seq<T>, flat: seq<Edit>, x: int, y: int) {
    && 0 <= x <= |tokens1| && 0 <= y <= |tokens2|
    && Replay(tokens1, tokens2, flat) == Emission(tokens2[..y], x)
  }

  lemma ReplayOne<T>(tokens1: seq<T>, tokens2: seq<T>, flat: seq<Edit>, e: Edit)
    ensures var r := Replay(tokens1, tokens2, flat);
            Replay(tokens1, tokens2, flat + [e])
            == match e.operation
               case EQUALS => Emission(r.text + Slice(tokens1, r.pos, e.end), e.end)
               case DELETE => Emission(r.text + Slice(tokens1, r.pos, e.start), e.end)
               case INSERT => Emission(r.text + Slice(tokens2, e.start, e.end), r.pos)
  {
    assert (flat + [e])[..|flat|] == flat;
  }

  /** A change is replayed as it is. */
  lemma ReplayChange<T>(tokens1: seq<T>, tokens2: seq<T>, flat: seq<Edit>, e: Edit, x: int, y: int, x': int, y': int)
    requires ReplaysTo(tokens1, tokens2, flat, x, y) && Step(tokens1, tokens2, e, x, y, x', y') && e.operation != EQUALS
    ensures ReplaysTo(tokens1, tokens2, flat + [e], x', y')
  {
    ReplayOne(tokens1, tokens2, flat, e);
    assert tokens2[..y'] == tokens2[..y] + tokens2[y..y'];
    assert Slice(tokens1, x, x) == [];
  }

  /** Of an unchanged run any tail end will do. */
  lemma ReplayEqual<T>(
      tokens1: seq<T>, tokens2: seq<T>, flat: seq<Edit>, e: Edit, k: Edit, x: int, y: int, x': int, y': int)
    requires ReplaysTo(tokens1, tokens2, flat, x, y) && Step(tokens1, tokens2, e, x, y, x', y')
    requires e.operation == k.operation == EQUALS && k.end == e.end
    ensures ReplaysTo(tokens1, tokens2, flat + [k], x', y')
  {
    ReplayOne(tokens1, tokens2, flat, k);
    assert tokens2[..y'] == tokens2[..y] + tokens2[y..y'];
  }

  /** Or two pieces, the second of which is a tail end. */
  lemma ReplayTwoPieces<T>(
      tokens1: seq<T>, tokens2: seq<T>, flat: seq<Edit>, e: Edit, j: Edit, k: Edit, x: int, y: int, x': int, y': int)
    requires ReplaysTo(tokens1, tokens2, flat, x, y) && Step(tokens1, tokens2, e, x, y, x', y')
    requires e.operation == j.operation == k.operation == EQUALS && k.end == e.end
    requires x <= j.end <= e.end
    ensures ReplaysTo(tokens1, tokens2, (flat + [j]) + [k], x', y')
  {
    ReplayOne(tokens1, tokens2, flat, j);
    ReplayOne(tokens1, tokens2, flat + [j], k);
    assert tokens1[x..j.end] + tokens1[j.end..x'] == tokens1[x..x'];
    assert tokens2[..y'] == tokens2[..y] + tokens2[y..y'];
    assert (tokens2[..y] + tokens1[x..j.end]) + tokens1[j.end..x'] == tokens2[..y] + (tokens1[x..j.end] + tokens1[j.end..x']);
  }

  lemma FlatLast(hunks: seq<Hunk>, h: Hunk)
    ensures Flat(hunks + [h]) == Flat(hunks) + h
  {
    assert (hunks + [h])[..|hunks|] == hunks;
  }

  /** Pushing onto the last hunk. */
  function PushLast(hunks: seq<Hunk>, e: Edit): (r: seq<Hunk>)
    requires hunks != []
    ensures |r| == |hunks|
  {
    hunks[|hunks| - 1 := hunks[|hunks| - 1] + [e]]
  }

  lemma FlatPush(hunks: seq<Hunk>, e: Edit)
    requires hunks != []
    ensures Flat(PushLast(hunks, e)) == Flat(hunks) + [e]
  {
    var init, last := hunks[..|hunks| - 1], hunks[|hunks| - 1];
    assert hunks == init + [last] && PushLast(hunks, e) == init + [last + [e]];
    FlatLast(init, last);
    FlatLast(init, last + [e]);
  }

  /** The hunks after one more edit, as the code makes them. */
  function AddEdit(hunks: seq<Hunk>, e: Edit, c: int): (r: seq<Hunk>)
    requires hunks != []
    ensures r != []
  {
    var current := hunks[|hunks| - 1];
    if e.operation == EQUALS then
      if current == [] then
        PushLast(hunks, if e.end - e.start > c then Edit(EQUALS, e.end - c, e.end) else e)
      else if e.end - e.start > 2 * c then
        PushLast(hunks, Edit(EQUALS, e.start, e.start + c)) + [[Edit(EQUALS, e.end - c, e.end)]]
      else PushLast(hunks, e)
    else PushLast(hunks, e)
  }

  lemma AddEditReplays<T>(
      tokens1: seq<T>, tokens2: seq<T>, hunks: seq<Hunk>, e: Edit, c: int, x: int, y: int, x': int, y': int)
    requires hunks != [] && 0 <= c
    requires ReplaysTo(tokens1, tokens2, Flat(hunks), x, y) && Step(tokens1, tokens2, e, x, y, x', y')
    ensures ReplaysTo(tokens1, tokens2, Flat(AddEdit(hunks, e, c)), x', y')
  {
    hide ReplaysTo, Flat, PushLast;
    if e.operation != EQUALS {
      FlatPush(hunks, e);
      ReplayChange(tokens1, tokens2, Flat(hunks), e, x, y, x', y');
    } else if hunks[|hunks| - 1] != [] && e.end - e.start > 2 * c {
      var j, k := Edit(EQUALS, e.start, e.start + c), Edit(EQUALS, e.end - c, e.end);
      FlatPush(hunks, j);
      FlatLast(PushLast(hunks, j), [k]);
      ReplayTwoPieces(tokens1, tokens2, Flat(hunks), e, j, k, x, y, x', y');
    } else {
      var k := if hunks[|hunks| - 1] == [] && e.end - e.start > c then Edit(EQUALS, e.end - c, e.end) else e;
      FlatPush(hunks, k);
      ReplayEqual(tokens1, tokens2, Flat(hunks), e, k, x, y, x', y');
    }
  }

  lemma AddEditBuilds(hunks: seq<Hunk>, e: Edit, c: int)
    requires Building(hunks, c) && 0 <= c
    requires e.operation == EQUALS && hunks[|hunks| - 1] != [] ==> HasChange(hunks[|hunks| - 1])
    ensures Building(AddEdit(hunks, e, c), c)
    ensures e.operation != EQUALS ==> HasChange(AddEdit(hunks, e, c)[|AddEdit(hunks, e, c)| - 1])
  {
    var current := hunks[|hunks| - 1];
    var r := AddEdit(hunks, e, c);
    if e.operation != EQUALS {
      assert e in current + [e];
    } else if current != [] {
      var f :| f in current && f.operation != EQUALS;
      assert f in current + [e] && f in current + [Edit(EQUALS, e.start, e.start + c)];
    }
  }

  lemma ChangesOne(e: Edit)
    ensures Changes([e]) == if e.operation == EQUALS then [] else [e]
  {
    assert [e][..0] == [];
  }

  /** Pieces of an edit that leave out only unchanged tokens. */
  ghost predicate PiecesOf(e: Edit, pieces: seq<Edit>) {
    && Changes(pieces) == Changes([e])
    && forall f :: f in pieces && f.operation == EQUALS ==>
         e.operation == EQUALS && e.start <= f.start <= f.end <= e.end
  }

  lemma PiecesKeep(edits: seq<Edit>, flat: seq<Edit>, e: Edit, pieces: seq<Edit>)
    requires OnlyUnchangedLeftOut(edits, flat) && PiecesOf(e, pieces)
    ensures OnlyUnchangedLeftOut(edits + [e], flat + pieces)
  {
    hide Changes;
    ChangesConcat(edits, [e]);
    ChangesConcat(flat, pieces);
    assert e in edits + [e];
    forall f | f in flat + pieces && f.operation == EQUALS ensures PartOfEqual(edits + [e], f) {
      if f in flat {
        var g :| g in edits && g.operation == EQUALS && g.start <= f.start <= f.end <= g.end;
        assert g in edits + [e];
      } else {
        assert f in pieces;
      }
    }
  }

  /** What an edit adds to the hunks. */
  lemma AddEditPieces(hunks: seq<Hunk>, e: Edit, c: int) returns (pieces: seq<Edit>)
    requires hunks != [] && 0 <= c && e.start <= e.end
    ensures Flat(AddEdit(hunks, e, c)) == Flat(hunks) + pieces && PiecesOf(e, pieces)
  {
    hide Changes, Flat;
    ChangesOne(e);
    if e.operation == EQUALS && hunks[|hunks| - 1] != [] && e.end - e.start > 2 * c {
      var j, k := Edit(EQUALS, e.start, e.start + c), Edit(EQUALS, e.end - c, e.end);
      FlatPush(hunks, j);
      FlatLast(PushLast(hunks, j), [k]);
      Seqs.Associative(Flat(hunks), [j], [k]);
      ChangesOne(j);
      ChangesOne(k);
      ChangesConcat([j], [k]);
      pieces := [j] + [k];
    } else {
      var k := if e.operation == EQUALS && hunks[|hunks| - 1] == [] && e.end - e.start > c
               then Edit(EQUALS, e.end - c, e.end) else e;
      FlatPush(hunks, k);
      ChangesOne(k);
      pieces := [k];
    }
  }

  lemma AddEditKeeps(edits: seq<Edit>, hunks: seq<Hunk>, e: Edit, c: int)
    requires hunks != [] && 0 <= c && e.start <= e.end
    requires OnlyUnchangedLeftOut(edits, Flat(hunks))
    ensures OnlyUnchangedLeftOut(edits + [e], Flat(AddEdit(hunks, e, c)))
  {
    hide OnlyUnchangedLeftOut, PiecesOf, Flat, AddEdit;
    var pieces := AddEditPieces(hunks, e, c);
    PiecesKeep(edits, Flat(hunks), e, pieces);
  }

  // ----- the cuts while the script is read

  /** After i edits: the groups passed, and the one that starts at a with its edits so far. */
  ghost predicate Cutting(
      edits: seq<Edit>, c: int, hunks: seq<Hunk>, starts: seq<int>, ends: seq<int>, a: int, i: int) {
    && |starts| == |ends| == |hunks| - 1 && 0 <= a <= i <= |edits|
    && CutAt(edits, c, hunks[..|starts|], starts, ends) && (forall k :: 0 <= k < |ends| ==> ends[k] < a)
    && hunks[|starts|] == Lead(edits, c, a) + edits[a..i]
    && (a == 0 || Separates(edits, c, a - 1)) && (a < i ==> IsChange(edits, a))
    && (forall j :: a <= j < i && j < |edits| - 1 ==> !Separates(edits, c, j))
    && AllCovered(edits, starts, ends, a)
  }

  /** What is known when the next edit is an unchanged run behind the current group. */
  lemma GroupSoFar(
      edits: seq<Edit>, c: int, hunks: seq<Hunk>, starts: seq<int>, ends: seq<int>, a: int, i: int)
    requires Cutting(edits, c, hunks, starts, ends, a, i) && i < |edits| && edits[i].operation == EQUALS && NoNeighboursAlike(edits)
    ensures hunks[|starts|] == [] <==> a == i == 0
    ensures hunks[|starts|] != [] ==> a < i && IsChange(edits, i - 1) && IsChange(edits, a)
  {
    if 0 < i {
      assert edits[i - 1].operation != edits[i].operation;
    }
  }

  lemma CutStart(edits: seq<Edit>, c: int)
    ensures Cutting(edits, c, [[]], [], [], 0, 0)
  {
  }

  /** The current group goes on. */
  lemma CutGoesOn(
      edits: seq<Edit>, c: int, hunks: seq<Hunk>, starts: seq<int>, ends: seq<int>, a: int, i: int)
    requires Cutting(edits, c, hunks, starts, ends, a, i) && i < |edits| && NoNeighboursAlike(edits)
    requires edits[i].operation == EQUALS ==> hunks[|starts|] != [] && Size(edits[i]) <= 2 * c
    ensures Cutting(edits, c, PushLast(hunks, edits[i]), starts, ends, a, i + 1)
  {
    hide CutAt, AllCovered;
    if edits[i].operation == EQUALS {
      GroupSoFar(edits, c, hunks, starts, ends, a, i);
    }
    var n, r := |starts|, PushLast(hunks, edits[i]);
    assert r[..n] == hunks[..n];
    assert edits[a..i + 1] == edits[a..i] + [edits[i]];
    Seqs.Associative(Lead(edits, c, a), edits[a..i], [edits[i]]);
  }

  /** The script begins with an unchanged run. */
  lemma CutBegins(edits: seq<Edit>, c: int, hunks: seq<Hunk>, starts: seq<int>, ends: seq<int>, k: Edit)
    requires Cutting(edits, c, hunks, starts, ends, 0, 0) && edits != [] && edits[0].operation == EQUALS
    requires [k] == Lead(edits, c, 1) && hunks[|starts|] == []
    ensures Cutting(edits, c, PushLast(hunks, k), starts, ends, 1, 1)
  {
    hide CutAt;
    var n := |starts|;
    assert PushLast(hunks, k)[..n] == hunks[..n];
    assert [] + [k] == [k] && edits[1..1] == [] && [k] + [] == [k];
  }

  /** A long run ends the current group and leads to the next. */
  lemma CutHere(
      edits: seq<Edit>, c: int, hunks: seq<Hunk>, starts: seq<int>, ends: seq<int>, a: int, i: int, j: Edit, k: Edit)
    requires Cutting(edits, c, hunks, starts, ends, a, i) && i < |edits| && NoNeighboursAlike(edits) && 0 <= c
    requires edits[i].operation == EQUALS && hunks[|starts|] != [] && Size(edits[i]) > 2 * c
    requires [j] == Trail(edits, c, i) && [k] == Lead(edits, c, i + 1)
    ensures Cutting(edits, c, PushLast(hunks, j) + [[k]], starts + [a], ends + [i], i + 1, i + 1)
  {
    hide Lead, Trail;
    GroupSoFar(edits, c, hunks, starts, ends, a, i);
    var n, r := |starts|, PushLast(hunks, j) + [[k]];
    assert IsGroup(edits, c, a, i);
    assert r[..n + 1] == hunks[..n] + [hunks[n] + [j]];
    OneMoreCut(edits, c, hunks[..n], starts, ends, a, i, hunks[n] + [j]);
    OneMoreCovered(edits, starts, ends, a, i, i + 1);
    assert r[n + 1] == [k] && edits[i + 1..i + 1] == [] && [k] + [] == [k];
  }

  lemma OneMoreCut(edits: seq<Edit>, c: int, hunks: seq<Hunk>, starts: seq<int>, ends: seq<int>, a: int, b: int, h: Hunk)
    requires CutAt(edits, c, hunks, starts, ends) && (forall k :: 0 <= k < |ends| ==> ends[k] < a)
    requires IsGroup(edits, c, a, b) && h == HunkAt(edits, c, a, b)
    ensures CutAt(edits, c, hunks + [h], starts + [a], ends + [b])
  {
    hide IsGroup, HunkAt;
  }

  lemma OneMoreCovered(edits: seq<Edit>, starts: seq<int>, ends: seq<int>, a: int, b: int, n: int)
    requires |starts| == |ends| && AllCovered(edits, starts, ends, a) && (forall j :: b <= j < n ==> !IsChange(edits, j))
    ensures AllCovered(edits, starts + [a], ends + [b], n)
  {
    hide IsChange;
    var starts', ends' := starts + [a], ends + [b];
    forall i | 0 <= i < n && IsChange(edits, i) ensures exists k :: 0 <= k < |starts'| && starts'[k] <= i < ends'[k] {
      if i < a {
        var k :| 0 <= k < |starts| && starts[k] <= i < ends[k];
        assert starts'[k] <= i < ends'[k];
      } else {
        assert starts'[|starts|] <= i < ends'[|starts|];
      }
    }
  }

  /** A last hunk without a change is not a group. */
  lemma CutDropped(edits: seq<Edit>, c: int, hunks: seq<Hunk>, starts: seq<int>, ends: seq<int>, a: int)
    requires Cutting(edits, c, hunks, starts, ends, a, |edits|) && edits != []
    requires |hunks[|starts|]| == 1 && hunks[|starts|][0].operation == EQUALS
    ensures CutInto(edits, c, hunks[..|hunks| - 1])
  {
    assert hunks[|starts|] == Lead(edits, c, a) + edits[a..];
    assert a == |edits|;
    assert CutAt(edits, c, hunks[..|hunks| - 1], starts, ends);
  }

  /** The last group ends with the script or before its last run, which is trimmed. */
  lemma CutTrimmed(edits: seq<Edit>, c: int, hunks: seq<Hunk>, starts: seq<int>, ends: seq<int>, a: int)
    requires Cutting(edits, c, hunks, starts, ends, a, |edits|) && edits != [] && NoNeighboursAlike(edits)
    requires !(|hunks[|starts|]| == 1 && hunks[|starts|][0].operation == EQUALS) && hunks[|starts|] != []
    ensures CutInto(edits, c, hunks[|hunks| - 1 := TrimTail(hunks[|hunks| - 1], c)])
  {
    hide IsGroup, HunkAt, TrimTail, Lead, Trail, CutAt, AllCovered, NoNeighboursAlike, Separates, IsChange;
    var m, h := |starts|, hunks[|starts|];
    var b := LastGroup(edits, c, hunks, starts, ends, a);
    var r := hunks[|hunks| - 1 := TrimTail(h, c)];
    Seqs.Replaced(hunks, m, TrimTail(h, c));
    assert hunks[m + 1..] == [] && r == hunks[..m] + [TrimTail(h, c)];
    OneMoreCut(edits, c, hunks[..m], starts, ends, a, b, TrimTail(h, c));
    OneMoreCovered(edits, starts, ends, a, b, |edits|);
    assert CutAt(edits, c, r, starts + [a], ends + [b]);
  }

  lemma LastGroup(edits: seq<Edit>, c: int, hunks: seq<Hunk>, starts: seq<int>, ends: seq<int>, a: int) returns (b: int)
    requires Cutting(edits, c, hunks, starts, ends, a, |edits|) && edits != [] && NoNeighboursAlike(edits)
    requires !(|hunks[|starts|]| == 1 && hunks[|starts|][0].operation == EQUALS) && hunks[|starts|] != []
    ensures IsGroup(edits, c, a, b) && TrimTail(hunks[|starts|], c) == HunkAt(edits, c, a, b)
    ensures forall j :: b <= j < |edits| ==> !IsChange(edits, j)
  {
    hide CutAt, AllCovered, TrimTail, HunkAt;
    var n, h := |edits|, hunks[|starts|];
    assert a < n;
    b := if edits[n - 1].operation == EQUALS then n - 1 else n;
    if b < n {
      assert edits[n - 2].operation != edits[n - 1].operation;
    }
    assert edits[a..n] == edits[a..];
    LastHunkIs(edits, c, a, b, h);
  }

  lemma LastHunkIs(edits: seq<Edit>, c: int, a: int, b: int, h: Hunk)
    requires 0 <= a < b <= |edits| && h == Lead(edits, c, a) + edits[a..]
    requires edits[b - 1].operation != EQUALS && (b < |edits| ==> b == |edits| - 1 && edits[b].operation == EQUALS)
    ensures h != [] && TrimTail(h, c) == HunkAt(edits, c, a, b)
  {
    hide Lead;
    if b == |edits| {
      assert edits[a..b] == edits[a..];
    } else {
      assert edits[a..] == edits[a..b] + [edits[b]];
    }
  }

  // ----- the finish

  /** If the list ends with an unchanged run, everything before that run has been accounted for. */
  ghost predicate TailPlaced<T>(tokens1: seq<T>, tokens2: seq<T>, flat: seq<Edit>) {
    flat != [] && flat[|flat| - 1].operation == EQUALS ==>
      var before := Replay(tokens1, tokens2, flat[..|flat| - 1]);
      0 <= before.pos <= flat[|flat| - 1].start <= flat[|flat| - 1].end
  }

  lemma AddEditTail<T>(
      tokens1: seq<T>, tokens2: seq<T>, hunks: seq<Hunk>, e: Edit, c: int, x: int, y: int, x': int, y': int)
    requires hunks != [] && 0 <= c
    requires ReplaysTo(tokens1, tokens2, Flat(hunks), x, y) && Step(tokens1, tokens2, e, x, y, x', y')
    ensures TailPlaced(tokens1, tokens2, Flat(AddEdit(hunks, e, c)))
  {
    hide Flat, PushLast;
    var flat := Flat(hunks);
    if e.operation == EQUALS && hunks[|hunks| - 1] != [] && e.end - e.start > 2 * c {
      var j, k := Edit(EQUALS, e.start, e.start + c), Edit(EQUALS, e.end - c, e.end);
      FlatPush(hunks, j);
      FlatLast(PushLast(hunks, j), [k]);
      ReplayOne(tokens1, tokens2, flat, j);
      assert (flat + [j] + [k])[..|flat| + 1] == flat + [j];
    } else {
      var k := if e.operation == EQUALS && hunks[|hunks| - 1] == [] && e.end - e.start > c
               then Edit(EQUALS, e.end - c, e.end) else e;
      FlatPush(hunks, k);
      assert (flat + [k])[..|flat|] == flat;
    }
  }

  /** Shortening or dropping a final unchanged run does not change what is replayed. */
  lemma ShorterTail<T>(tokens1: seq<T>, tokens2: seq<T>, init: seq<Edit>, t: Edit, t': Edit)
    requires ReplaysTo(tokens1, tokens2, init + [t], |tokens1|, |tokens2|) && TailPlaced(tokens1, tokens2, init + [t])
    requires t.operation == t'.operation == EQUALS && t.start <= t'.end <= t.end
    ensures Replayed(tokens1, tokens2, init) == tokens2
    ensures Replayed(tokens1, tokens2, init + [t']) == tokens2
  {
    hide Replay;
    var r, n := Replay(tokens1, tokens2, init), |tokens1|;
    assert (init + [t])[..|init|] == init;
    ReplayOne(tokens1, tokens2, init, t);
    ReplayOne(tokens1, tokens2, init, t');
    assert tokens2[..|tokens2|] == tokens2;
    assert tokens1[r.pos..t'.end] + tokens1[t'.end..n] == tokens1[r.pos..n];
    assert (r.text + tokens1[r.pos..t'.end]) + tokens1[t'.end..n] == r.text + (tokens1[r.pos..t'.end] + tokens1[t'.end..n]);
  }

  lemma ExactReplay<T>(tokens1: seq<T>, tokens2: seq<T>, flat: seq<Edit>)
    requires ReplaysTo(tokens1, tokens2, flat, |tokens1|, |tokens2|)
    ensures Replayed(tokens1, tokens2, flat) == tokens2
  {
  }

  function TrimTail(h: Hunk, c: int): (r: Hunk)
    requires h != []
    ensures |r| == |h|
  {
    var t := h[|h| - 1];
    if t.operation == EQUALS && t.end - t.start > c then h[|h| - 1 := t.(end := t.start + c)] else h
  }

  /** What the hunks of a script promise. */
  ghost predicate AreHunksOf<T>(tokens1: seq<T>, tokens2: seq<T>, edits: seq<Edit>, hunks: seq<Hunk>, c: int) {
    && Replayed(tokens1, tokens2, Flat(hunks)) == tokens2
    && OnlyUnchangedLeftOut(edits, Flat(hunks)) && CutInto(edits, c, hunks)
    && forall i :: 0 <= i < |hunks| ==> Closed(hunks[i], c)
  }

  lemma DropLast<T>(tokens1: seq<T>, tokens2: seq<T>, edits: seq<Edit>, hunks: seq<Hunk>, c: int)
    requires Building(hunks, c) && OnlyUnchangedLeftOut(edits, Flat(hunks)) && CutInto(edits, c, hunks[..|hunks| - 1])
    requires ReplaysTo(tokens1, tokens2, Flat(hunks), |tokens1|, |tokens2|) && TailPlaced(tokens1, tokens2, Flat(hunks))
    requires |hunks[|hunks| - 1]| == 1 && hunks[|hunks| - 1][0].operation == EQUALS
    ensures AreHunksOf(tokens1, tokens2, edits, hunks[..|hunks| - 1], c)
  {
    hide Replay, Replayed, CutInto;
    var init, t := hunks[..|hunks| - 1], hunks[|hunks| - 1][0];
    assert hunks[|hunks| - 1] == [t] && Flat(hunks) == Flat(init) + [t];
    assert (Flat(init) + [t])[..|Flat(init)|] == Flat(init);
    ShorterTail(tokens1, tokens2, Flat(init), t, t);
    ChangesConcat(Flat(init), [t]);
    assert Changes([t]) == [] by { assert [t][..0] == []; }
    forall e | e in Flat(init) && e.operation == EQUALS ensures PartOfEqual(edits, e) {
      assert e in Flat(hunks);
    }
  }

  lemma TrimLast<T>(tokens1: seq<T>, tokens2: seq<T>, edits: seq<Edit>, hunks: seq<Hunk>, c: int)
    requires Building(hunks, c) && OnlyUnchangedLeftOut(edits, Flat(hunks)) && 0 <= c
    requires ReplaysTo(tokens1, tokens2, Flat(hunks), |tokens1|, |tokens2|) && TailPlaced(tokens1, tokens2, Flat(hunks))
    requires hunks[|hunks| - 1] != [] && HasChange(hunks[|hunks| - 1])
    requires CutInto(edits, c, hunks[|hunks| - 1 := TrimTail(hunks[|hunks| - 1], c)])
    ensures AreHunksOf(tokens1, tokens2, edits, hunks[|hunks| - 1 := TrimTail(hunks[|hunks| - 1], c)], c)
  {
    hide Replay, Replayed, ReplaysTo, TailPlaced, OnlyUnchangedLeftOut, Closed, Growing, HasChange, CutInto;
    var init, h := hunks[..|hunks| - 1], hunks[|hunks| - 1];
    var h' := TrimTail(h, c);
    var hunks' := hunks[|hunks| - 1 := h'];
    assert hunks'[..|hunks| - 1] == init;
    var t, t' := h[|h| - 1], h'[|h| - 1];
    TrimmedIsClosed(h, c);
    if t == t' {
      assert hunks' == hunks;
      ExactReplay(tokens1, tokens2, Flat(hunks));
    } else {
      var front := Flat(init) + h[..|h| - 1];
      assert h == h[..|h| - 1] + [t] && h' == h[..|h| - 1] + [t'];
      assert Flat(hunks) == front + [t] && Flat(hunks') == front + [t'];
      TailIsRun(tokens1, tokens2, front, t);
      ShorterTail(tokens1, tokens2, front, t, t');
      TrimmedKeeps(edits, front, t, t');
    }
  }

  lemma TailIsRun<T>(tokens1: seq<T>, tokens2: seq<T>, front: seq<Edit>, t: Edit)
    requires TailPlaced(tokens1, tokens2, front + [t]) && t.operation == EQUALS
    ensures t.start <= t.end
  {
  }

  lemma TrimmedKeeps(edits: seq<Edit>, front: seq<Edit>, t: Edit, t': Edit)
    requires OnlyUnchangedLeftOut(edits, front + [t])
    requires t.operation == t'.operation == EQUALS && t.start == t'.start <= t'.end <= t.end
    ensures OnlyUnchangedLeftOut(edits, front + [t'])
  {
    ChangesConcat(front, [t]);
    ChangesConcat(front, [t']);
    assert [t][..0] == [] && [t'][..0] == [];
    assert t in front + [t];
    var f :| f in edits && f.operation == EQUALS && f.start <= t.start <= t.end <= f.end;
    forall e | e in front + [t'] && e.operation == EQUALS ensures PartOfEqual(edits, e) {
      if e in front {
        assert e in front + [t];
      } else {
        assert e == t';
      }
    }
  }

  lemma TrimmedIsClosed(h: Hunk, c: int)
    requires h != [] && Growing(h, c) && HasChange(h) && 0 <= c
    ensures Closed(TrimTail(h, c), c)
  {
    var e :| e in h && e.operation != EQUALS;
    var i :| 0 <= i < |h| && h[i] == e;
    assert TrimTail(h, c)[i] == e;
  }

  /** Cuts a script into hunks with at most the given context at either end. */
  method DiffEditsToPatchHunks<T>(edits: seq<Edit>, commonContext: int, ghost tokens1: seq<T>, ghost tokens2: seq<T>)
    returns (hunks: seq<Hunk>)
    requires edits != [] && 0 <= commonContext
    requires Path(tokens1, tokens2, edits, 0, 0, |tokens1|, |tokens2|) && NoNeighboursAlike(edits)
    ensures AreHunksOf(tokens1, tokens2, edits, hunks, commonContext)
  {
    hide ReplaysTo, TailPlaced, Building, OnlyUnchangedLeftOut, HasChange, Flat, Path, Step, AreHunksOf, Closed, AddEdit, Cutting;
    var c := commonContext;
    var splitThreshold := c * 2;
    hunks := [[]];
    ghost var x, y, a := 0, 0, 0;
    ghost var starts: seq<int>, ends: seq<int> := [], [];
    StartHunks(tokens1, tokens2, c);
    CutStart(edits, c);
    assert edits[0..] == edits && edits[..0] == [];
    for i := 0 to |edits|
      invariant hunks != [] && Building(hunks, c) && OnlyUnchangedLeftOut(edits[..i], Flat(hunks))
      invariant Path(tokens1, tokens2, edits[i..], x, y, |tokens1|, |tokens2|)
      invariant ReplaysTo(tokens1, tokens2, Flat(hunks), x, y) && TailPlaced(tokens1, tokens2, Flat(hunks))
      invariant i == 0 <==> hunks == [[]]
      invariant 0 < i ==> hunks[|hunks| - 1] != []
      invariant 0 < i && edits[i - 1].operation != EQUALS ==> HasChange(hunks[|hunks| - 1])
      invariant Cutting(edits, c, hunks, starts, ends, a, i)
    {
      var edit := edits[i];
      ghost var before := hunks;
      ghost var u, v := PathFirst(tokens1, tokens2, edits[i..], x, y, |tokens1|, |tokens2|);
      StepIsForward(tokens1, tokens2, edit, x, y, u, v);
      AddEditReplays(tokens1, tokens2, hunks, edit, c, x, y, u, v);
      AddEditTail(tokens1, tokens2, hunks, edit, c, x, y, u, v);
      AddEditBuilds(hunks, edit, c);
      AddEditKeeps(edits[..i], hunks, edit, c);
      AddEditNonEmpty(hunks, edit, c);
      starts, ends, a := CutNext(edits, c, hunks, starts, ends, a, i);
      assert edits[..i + 1] == edits[..i] + [edit] && edits[i..][1..] == edits[i + 1..];
      x, y := u, v;
      var currentHunk := hunks[|hunks| - 1];
      if edit.operation == EQUALS {
        var editSize := edit.end - edit.start;
        if currentHunk == [] {
          if editSize > c {
            hunks := PushLast(hunks, Edit(EQUALS, edit.end - c, edit.end));
          } else {
            hunks := PushLast(hunks, edit);
          }
        } else if editSize > splitThreshold {
          hunks := PushLast(hunks, Edit(EQUALS, edit.start, edit.start + c));
          hunks := hunks + [[Edit(EQUALS, edit.end - c, edit.end)]];
        } else {
          hunks := PushLast(hunks, edit);
        }
      } else {
        hunks := PushLast(hunks, edit);
      }
      assert hunks == AddEdit(before, edit, c) by { AddEditIs(before, edit, c, hunks); }
    }
    assert edits[..|edits|] == edits;
    PathEnds(tokens1, tokens2, edits[|edits|..], x, y);
    hunks := FinishHunks(hunks, c, edits, tokens1, tokens2, starts, ends, a);
  }

  /** The cuts after one more edit. */
  lemma CutNext(edits: seq<Edit>, c: int, hunks: seq<Hunk>, starts: seq<int>, ends: seq<int>, a: int, i: int)
    returns (starts': seq<int>, ends': seq<int>, a': int)
    requires Cutting(edits, c, hunks, starts, ends, a, i) && i < |edits| && NoNeighboursAlike(edits) && 0 <= c
    ensures Cutting(edits, c, AddEdit(hunks, edits[i], c), starts', ends', a', i + 1)
  {
    hide Cutting, Lead, Trail, NoNeighboursAlike;
    CuttingLast(edits, c, hunks, starts, ends, a, i);
    var e, n := edits[i], |starts|;
    starts', ends', a' := starts, ends, a;
    if e.operation != EQUALS {
      CutGoesOn(edits, c, hunks, starts, ends, a, i);
    } else {
      GroupSoFar(edits, c, hunks, starts, ends, a, i);
      ContextOf(edits, c, i);
      if hunks[n] == [] {
        a' := 1;
        CutBegins(edits, c, hunks, starts, ends, if Size(e) > c then Edit(EQUALS, e.end - c, e.end) else e);
      } else if Size(e) > 2 * c {
        starts', ends', a' := starts + [a], ends + [i], i + 1;
        CutHere(edits, c, hunks, starts, ends, a, i, Edit(EQUALS, e.start, e.start + c), Edit(EQUALS, e.end - c, e.end));
      } else {
        CutGoesOn(edits, c, hunks, starts, ends, a, i);
      }
    }
  }

  lemma CuttingLast(edits: seq<Edit>, c: int, hunks: seq<Hunk>, starts: seq<int>, ends: seq<int>, a: int, i: int)
    requires Cutting(edits, c, hunks, starts, ends, a, i)
    ensures |hunks| == |starts| + 1 && 0 <= a <= i
  {
  }

  lemma ContextOf(edits: seq<Edit>, c: int, i: nat)
    requires i < |edits| && edits[i].operation == EQUALS && 0 <= c
    ensures Lead(edits, c, i + 1) == [if Size(edits[i]) > c then Edit(EQUALS, edits[i].end - c, edits[i].end) else edits[i]]
    ensures Size(edits[i]) > c ==> Trail(edits, c, i) == [Edit(EQUALS, edits[i].start, edits[i].start + c)]
  {
  }

  lemma AddEditIs(hunks: seq<Hunk>, e: Edit, c: int, r: seq<Hunk>)
    requires hunks != []
    requires var current := hunks[|hunks| - 1];
             r == if e.operation == EQUALS then
                    if current == [] then
                      if e.end - e.start > c then PushLast(hunks, Edit(EQUALS, e.end - c, e.end)) else PushLast(hunks, e)
                    else if e.end - e.start > c * 2 then
                      PushLast(hunks, Edit(EQUALS, e.start, e.start + c)) + [[Edit(EQUALS, e.end - c, e.end)]]
                    else PushLast(hunks, e)
                  else PushLast(hunks, e)
    ensures r == AddEdit(hunks, e, c)
  {
  }

  lemma AddEditNonEmpty(hunks: seq<Hunk>, e: Edit, c: int)
    requires hunks != []
    ensures var r := AddEdit(hunks, e, c); r[|r| - 1] != [] && r != [[]]
  {
  }

  lemma StepIsForward<T>(tokens1: seq<T>, tokens2: seq<T>, e: Edit, x: int, y: int, x': int, y': int)
    requires Step(tokens1, tokens2, e, x, y, x', y')
    ensures e.start < e.end
  {
  }

  lemma PathEnds<T>(tokens1: seq<T>, tokens2: seq<T>, t: seq<Edit>, x: int, y: int)
    requires t == [] && Path(tokens1, tokens2, t, x, y, |tokens1|, |tokens2|)
    ensures x == |tokens1| && y == |tokens2|
  {
  }

  lemma StartHunks<T>(tokens1: seq<T>, tokens2: seq<T>, c: int)
    ensures Building([[]], c) && Flat([[]]) == [] && OnlyUnchangedLeftOut([], Flat([[]]))
    ensures ReplaysTo(tokens1, tokens2, Flat([[]]), 0, 0) && TailPlaced(tokens1, tokens2, Flat([[]]))
  {
    assert Flat([[]]) == Flat([[]][..0]) + [];
  }

  /** Drops a last hunk without changes and trims the tails. */
  method FinishHunks<T>(
      hunks0: seq<Hunk>, c: int, ghost edits: seq<Edit>, ghost tokens1: seq<T>, ghost tokens2: seq<T>,
      ghost starts: seq<int>, ghost ends: seq<int>, ghost a: int)
    returns (hunks: seq<Hunk>)
    requires Cutting(edits, c, hunks0, starts, ends, a, |edits|) && edits != [] && NoNeighboursAlike(edits)
    requires Building(hunks0, c) && OnlyUnchangedLeftOut(edits, Flat(hunks0)) && 0 <= c
    requires ReplaysTo(tokens1, tokens2, Flat(hunks0), |tokens1|, |tokens2|) && TailPlaced(tokens1, tokens2, Flat(hunks0))
    requires hunks0[|hunks0| - 1] != []
    ensures AreHunksOf(tokens1, tokens2, edits, hunks, c)
  {
    hide ReplaysTo, TailPlaced, OnlyUnchangedLeftOut, Flat, HasChange, Closed, CutInto, NoNeighboursAlike, Cutting, Building, TrimTail;
    CuttingLast(edits, c, hunks0, starts, ends, a, |edits|);
    hunks := hunks0;
    var lastHunk := hunks[|hunks| - 1];
    ghost var trimmed;
    if |lastHunk| == 1 && lastHunk[0].operation == EQUALS {
      CutDropped(edits, c, hunks, starts, ends, a);
      DropLast(tokens1, tokens2, edits, hunks, c);
      hunks := hunks[..|hunks| - 1];
      trimmed := hunks;
    } else {
      CutTrimmed(edits, c, hunks, starts, ends, a);
      LastHasChange(hunks, c);
      TrimLast(tokens1, tokens2, edits, hunks, c);
      trimmed := hunks[|hunks| - 1 := TrimTail(lastHunk, c)];
    }
    AllClosed(tokens1, tokens2, edits, trimmed, c);
    hide AreHunksOf;
    ghost var kept := hunks;
    forall j | 0 <= j < |kept| ensures kept[j] != [] && TrimTail(kept[j], c) == trimmed[j] {
      assert trimmed[j] != [] && TrimTail(trimmed[j], c) == trimmed[j];
    }
    for i := 0 to |hunks|
      invariant |hunks| == |kept| == |trimmed| && forall j :: 0 <= j < i ==> hunks[j] == trimmed[j]
      invariant forall j :: i <= j < |kept| ==> hunks[j] == kept[j]
    {
      hunks := hunks[i := TrimTail(hunks[i], c)];
    }
    assert hunks == trimmed;
  }

  lemma LastHasChange(hunks: seq<Hunk>, c: int)
    requires Building(hunks, c) && hunks[|hunks| - 1] != []
    requires !(|hunks[|hunks| - 1]| == 1 && hunks[|hunks| - 1][0].operation == EQUALS)
    ensures HasChange(hunks[|hunks| - 1])
  {
  }

  lemma AllClosed<T>(tokens1: seq<T>, tokens2: seq<T>, edits: seq<Edit>, hunks: seq<Hunk>, c: int)
    requires AreHunksOf(tokens1, tokens2, edits, hunks, c)
    ensures forall i :: 0 <= i < |hunks| ==> hunks[i] != [] && TrimTail(hunks[i], c) == hunks[i]
  {
    hide CutInto, OnlyUnchangedLeftOut, Flat;
    forall i | 0 <= i < |hunks| ensures hunks[i] != [] && TrimTail(hunks[i], c) == hunks[i] {
      ClosedNeedsNoTrim(hunks[i], c);
    }
  }

  lemma ClosedNeedsNoTrim(h: Hunk, c: int)
    requires Closed(h, c)
    ensures h != [] && TrimTail(h, c) == h
  {
  }

  // ----- what the cuts mean for the reader of a diff

  /** Token t of the first sequence is shown as unchanged. */
  ghost predicate Shown(hunks: seq<Hunk>, t: int) {
    exists k, e :: 0 <= k < |hunks| && e in hunks[k] && e.operation == EQUALS && e.start <= t < e.end
  }

  /** t belongs to an unchanged run, at most c tokens from a change at either end of it. */
  ghost predicate NearChange(edits: seq<Edit>, c: int, t: int) {
    exists i :: NearIn(edits, c, t, i)
  }

  predicate NearIn(edits: seq<Edit>, c: int, t: int, i: int) {
    && 0 <= i < |edits| && edits[i].operation == EQUALS && edits[i].start <= t < edits[i].end
    && ((0 < i && t < edits[i].start + c) || (i < |edits| - 1 && edits[i].end - c <= t))
  }

  /** Unchanged tokens are shown exactly if they are within the context of a change. */
  lemma ShownExactly(edits: seq<Edit>, c: int, hunks: seq<Hunk>, t: int)
    requires CutInto(edits, c, hunks) && NoNeighboursAlike(edits) && 0 <= c
    ensures Shown(hunks, t) <==> NearChange(edits, c, t)
  {
    var starts, ends :| CutAt(edits, c, hunks, starts, ends) && AllCovered(edits, starts, ends, |edits|);
    if Shown(hunks, t) {
      var k, e :| 0 <= k < |hunks| && e in hunks[k] && e.operation == EQUALS && e.start <= t < e.end;
      ShownIsNear(edits, c, starts[k], ends[k], e, t);
    }
    if NearChange(edits, c, t) {
      var i :| NearIn(edits, c, t, i);
      NearIsShown(edits, c, hunks, starts, ends, i, t);
    }
  }

  lemma ShownIsNear(edits: seq<Edit>, c: int, a: int, b: int, e: Edit, t: int)
    requires IsGroup(edits, c, a, b) && e in HunkAt(edits, c, a, b) && e.operation == EQUALS && e.start <= t < e.end && 0 <= c
    ensures NearChange(edits, c, t)
  {
    if e in edits[a..b] {
      var i :| a <= i < b && edits[i] == e;
      assert !Separates(edits, c, i);
      assert NearIn(edits, c, t, i);
    } else if e in Lead(edits, c, a) {
      assert NearIn(edits, c, t, a - 1);
    } else {
      assert NearIn(edits, c, t, b);
    }
  }

  lemma NearIsShown(
      edits: seq<Edit>, c: int, hunks: seq<Hunk>, starts: seq<int>, ends: seq<int>, i: int, t: int)
    requires CutAt(edits, c, hunks, starts, ends) && AllCovered(edits, starts, ends, |edits|) && NoNeighboursAlike(edits)
    requires NearIn(edits, c, t, i) && 0 <= c
    ensures Shown(hunks, t)
  {
    hide Lead, Trail;
    var j := if 0 < i && t < edits[i].start + c then i - 1 else i + 1;
    assert IsChange(edits, j);
    var k :| 0 <= k < |starts| && starts[k] <= j < ends[k];
    var a, b := starts[k], ends[k];
    var e := ShownBy(edits, c, a, b, i, j, t);
    assert e in hunks[k];
  }

  /** The edit of a hunk that shows a token next to its changes. */
  lemma ShownBy(edits: seq<Edit>, c: int, a: int, b: int, i: int, j: int, t: int) returns (e: Edit)
    requires 0 <= a <= j < b <= |edits| && 0 <= i < |edits| && edits[i].operation == EQUALS && edits[i].start <= t < edits[i].end
    requires (j == i - 1 && t < edits[i].start + c) || (j == i + 1 && edits[i].end - c <= t)
    ensures e in HunkAt(edits, c, a, b) && e.operation == EQUALS && e.start <= t < e.end
  {
    if a <= i < b {
      e := edits[i];
      assert edits[a..b][i - a] == e;
    } else if i == b {
      e := Trail(edits, c, b)[0];
    } else {
      e := Lead(edits, c, a)[0];
    }
  }

  /** Two changes with no other between them are in one hunk exactly if at most two contexts separate them. */
  lemma TogetherExactly(edits: seq<Edit>, c: int, hunks: seq<Hunk>, starts: seq<int>, ends: seq<int>, i: int, j: int)
    requires CutAt(edits, c, hunks, starts, ends) && AllCovered(edits, starts, ends, |edits|) && NoNeighboursAlike(edits)
    requires IsChange(edits, i) && IsChange(edits, j) && i < j && forall m :: i < m < j ==> !IsChange(edits, m)
    ensures (exists k :: 0 <= k < |hunks| && starts[k] <= i && j < ends[k]) <==> j == i + 1 || Size(edits[i + 1]) <= 2 * c
  {
    hide HunkAt, IsGroup, NoNeighboursAlike;
    NextChange(edits, i, j);
    var k :| 0 <= k < |starts| && starts[k] <= i < ends[k];
    GroupReaches(edits, c, starts[k], ends[k], i, j);
    if l :| 0 <= l < |hunks| && starts[l] <= i && j < ends[l] {
      GroupReaches(edits, c, starts[l], ends[l], i, j);
    }
  }

  lemma NextChange(edits: seq<Edit>, i: int, j: int)
    requires NoNeighboursAlike(edits)
    requires IsChange(edits, i) && IsChange(edits, j) && i < j && forall m :: i < m < j ==> !IsChange(edits, m)
    ensures j == i + 1 || j == i + 2
  {
    assert i + 1 < j ==> !IsChange(edits, i + 1);
    assert i + 2 < j ==> !IsChange(edits, i + 2);
    assert i + 2 < |edits| ==> edits[i + 1].operation != edits[(i + 1) + 1].operation;
  }

  lemma GroupReaches(edits: seq<Edit>, c: int, a: int, b: int, i: int, j: int)
    requires IsGroup(edits, c, a, b) && a <= i < b && IsChange(edits, i) && IsChange(edits, j)
    requires j == i + 1 || (j == i + 2 && !IsChange(edits, i + 1))
    ensures j < b <==> j == i + 1 || Size(edits[i + 1]) <= 2 * c
  {
    if j < b {
      assert !Separates(edits, c, i + 1);
    }
  }

  /** What a unified diff of two texts is made from: a minimal script, cut into hunks. */
  method DiffToHunks<T(==)>(tokens1: seq<T>, tokens2: seq<T>, commonContext: int)
    returns (edits: seq<Edit>, hunks: seq<Hunk>)
    requires (tokens1 != [] || tokens2 != []) && 0 <= commonContext
    ensures AreHunksOf(tokens1, tokens2, edits, hunks, commonContext)
    ensures forall other :: Transforms(tokens1, tokens2, other) ==> Cost(Flat(hunks)) <= Cost(other)
  {
    edits := EditScript.GetTokenDiffs(tokens1, tokens2);
    hunks := DiffEditsToPatchHunks(edits, commonContext, tokens1, tokens2);
    SameChangesSameCost(Flat(hunks), edits);
  }

  /** The cost of a script is that of its changes. */
  lemma {:induction false} CostOfChanges(edits: seq<Edit>)
    ensures Cost(Changes(edits)) == Cost(edits)
  {
    if edits != [] {
      var init, e := edits[..|edits| - 1], edits[|edits| - 1];
      CostOfChanges(init);
      if e.operation != EQUALS {
        assert (Changes(init) + [e])[..|Changes(init)|] == Changes(init);
      } else {
        assert Changes(edits) == Changes(init);
      }
    }
  }

  lemma SameChangesSameCost(s: seq<Edit>, t: seq<Edit>)
    requires Changes(s) == Changes(t)
    ensures Cost(s) == Cost(t)
  {
    CostOfChanges(s);
    CostOfChanges(t);
  }
}
